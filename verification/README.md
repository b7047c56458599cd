# MineOS: a model of its virtual RAM, file system and shell

MineOS keeps everything in one array of 10 MB: a table of 128 inodes, a table of 16 processes, and a data region that a first-fit allocator cuts into blocks whose headers lie between the payloads. This project models that
array byte by byte, with 32-bit little-endian integers and NUL-terminated strings, and proves what the operations of
the allocator, the file system, the string library, the scheduler and the shell do to it.

There are three levels.

* **Values.** `Blocks`, `FileModel`, `SchedulerModel` and `ShellModel` give each operation as a function: on a chain of
  blocks, on a file system (inode table, id counter, chain, texts), on a process table, on the whole machine.
* **Bytes.** The classes `Memory.VirtualRam`, `FileSystem.FileSystem`, `Scheduler.Scheduler` and `Shell.Shell` and the
  methods of `StringLib` run the loops and assignments of the C code. Every method is proved to have the effect and the
  result of its function on what RAM decodes to.
* **Theorems.** `AllocatorLaws`, `TreeLaws`, `OwnershipLaws`, `FileRuns`, `StorageLaws`, `PathLaws`, `StringLaws`,
  `TypedLaws`, `ShellLaws`, `CdLaws` and `ImageLaws` prove what the functions mean and properties of them, most of
  them over all runs from boot. By the second level they hold of the bytes.

`dafny verify dfyconfig.toml` checks all of it.

## Where the code does not keep what one might expect

* A write that finds no block has already freed the old content (core/fs.c:252-264): the file is left empty.
  `FileRuns.FailedWriteLosesContent` says exactly when a failed write changes nothing, `FileRuns.WriteFails` exactly
  when a write fails. The failing text of `FileRuns.OverlongWriteFails` is longer than any line of the shell;
  `StorageLaws.EarlyWritesSucceed` covers the first 39000 writes of texts no longer than a line: none of them fails.
* Coalescing looks forward only (libs/memory.c:134-142), so two free blocks can stay side by side.
  `AllocatorLaws.FifoLeavesAdjacentFree` is such a run, `AllocatorLaws.DeallocAdjacency` says exactly when a dealloc
  produces one, and `AllocatorLaws.NestedRunRestores` that last-in-first-out use never does.
* `fs_create` checks the type of the parent but not that it is active (core/fs.c:142), and a bare `cd` goes to inode 3
  without looking at it (core/commands.c:408-410). `ShellLaws.RemovedHomeIsEntered` creates a file in a deleted
  directory this way; `TreeLaws.CreateRooted` and `ShellModel.StepKeepsActiveCwd` say exactly which steps do this.
* README.md:197 of the repository names `save` and `load` as persisting across reboots. The id counter is not in RAM
  (core/fs.c:18), so a reboot resets it. `ImageLaws.RebootLosesFile` loses a file this way;
  `ImageLaws.CreateAfterLoad` says exactly which create does harm after a load, `ImageLaws.LoadedSurvives` that none
  does once the counter has passed the ids in use, and `ImageLaws.SaveThenLoad` that it has within one boot.
* libs/string.h:25 promises that `my_str_trim` removes spaces; it removes tabs and line ends as well. For the tokens
  of a line that matters exactly when one of these is trimmed: `StringLaws.SplitTrim`.
* A name may contain a slash. Then a path does not lead back to its inode (`CdLaws.SlashIsNotRetraced`), and two inodes
  can have one path (`CdLaws.SlashCollides`). `PathLaws.PathRoundTrip` and `CdLaws.CdRetracesPwd` say exactly when a
  path does lead back. A directory may be named `..`, but no session enters it: `CdLaws.SessionUndotted`.

## Preconditions

The code relies on these without checking them, and the model asks for them: names given to inodes are not empty and
shorter than 32 characters (core/fs.c:48); a pointer given to `dealloc` that lies in the data region is the payload of
a used block (libs/memory.c:120-132); buffers and the token array are large enough for what is put into them
(libs/string.c:92, core/commands.c:283); the number given to `my_int_to_str` is not the least int, and the digits given
to `my_str_to_int` denote an int; tick counters do not run over. Lines typed are what `read_line` lets through:
printable characters, fewer than 256 (libs/keyboard.c:114-117). Whether the image file can be opened is an input of
each turn.

## Model

| member | source | states |
|---|---|---|
| Blocks.InitialTiled | libs/memory.c:43-47 | the chain of a fresh boot tiles the data region, has no two free neighbours and no used block |
| Blocks.AllocTiled | libs/memory.c:58-104 | after any alloc, granted or refused, the blocks still cover the data region without gap or overlap and none is empty |
| Blocks.DeallocTiled | libs/memory.c:111-143 | after a dealloc of a block start, used or free, of null or of a pointer out of range, the blocks still cover the data region without gap or overlap and none is empty |
| Blocks.Ordered | libs/memory.c:68-99 | a later block of the chain starts behind the end of every earlier one: offsets strictly increase, which is why the chain loops end |
| Blocks.Conservation | libs/memory.c:147-177 | memory_used + memory_free + 12 bytes per block is the size of the data region |
| Blocks.FirstFit | libs/memory.c:68-99 | the lowest block that is free and large enough: none before it is |
| AllocatorLaws.AllocComplete | libs/memory.c:66-103 | alloc returns null exactly when the request is not positive or no free block is large enough, and then changes nothing |
| AllocatorLaws.GrantIsolated | libs/memory.c:71-95 | the granted range lies in one used block of at most 12 bytes more than asked for, apart from every other block, header included |
| AllocatorLaws.LiveIsUsed | libs/memory.c:119-132 | the start of a used block is a pointer dealloc may be given, and it finds that very block |
| AllocatorLaws.AllocUsedBlocks | libs/memory.c:71-95 | a grant adds exactly one used block, at an address where no used block was; all others stay as they are |
| AllocatorLaws.DeallocUsedBlocks | libs/memory.c:129-142 | dealloc of a live pointer removes exactly that block from the used ones |
| AllocatorLaws.DeallocUsed | libs/memory.c:129-161 | dealloc lowers memory_used by the size of the freed block |
| AllocatorLaws.NoneUsed | libs/memory.c:147-161 | without used blocks memory_used is 0 |
| AllocatorLaws.DeallocMonotone | libs/memory.c:129-142 | every request that could be served before a dealloc can be served after it |
| AllocatorLaws.RefitAfterDealloc | libs/memory.c:71-142 | a request no larger than the block just freed is granted, whatever the rest of the chain looks like |
| AllocatorLaws.AllocRoom | libs/memory.c:71-95 | an alloc takes at most the request and one header from the free block at the end of the region |
| AllocatorLaws.DeallocRoom | libs/memory.c:129-142 | a dealloc never takes from the free block at the end |
| AllocatorLaws.AllocThenDealloc | libs/memory.c:78-142 | alloc followed by dealloc of its result restores the chain, except that 12 free bytes are gained exactly when an unsplit block merges with a free successor |
| AllocatorLaws.DeallocAdjacency | libs/memory.c:134-142 | in a chain without free neighbours, a dealloc leaves two of them exactly when the block before the freed one was free: there is no backward merge |
| AllocatorLaws.FifoLeavesAdjacentFree | libs/memory.c:134-142 | two blocks freed in the order they were allocated do leave two free neighbours |
| AllocatorLaws.NestedRunUnwinds | libs/memory.c:58-143 | at every point of a last-in-first-out run, freeing what is still held leads back to the chain the run started from |
| AllocatorLaws.NestedRunRestores | libs/memory.c:58-143 | last-in-first-out runs of any length and depth never create two free neighbours, and restore offsets, sizes, flags and links once all is freed |
| Memory.PayloadFrame | libs/memory.c:95 | writing the payload of a block, all of it, leaves every header intact |
| Memory.AllocDescribes | libs/memory.c:78-92 | the header bytes written by alloc, and the untouched rest of RAM, hold the chain after the grant |
| Memory.DeallocDescribes | libs/memory.c:129-142 | the header bytes written by dealloc, and the untouched rest, hold the chain after the release |
| Memory.VirtualRam.Init | libs/memory.c:34-48 | memory_init leaves one free block over the whole data region and zero bytes before it |
| Memory.VirtualRam.Alloc | libs/memory.c:58-104 | the byte-level first-fit loop returns the first block that fits, has the effect of the pure alloc, and changes only the header of that block and of the remainder |
| Memory.VirtualRam.Grant | libs/memory.c:74-95 | the branch that takes a block: splits it or not, marks it used, and writes nothing else |
| Memory.VirtualRam.Split | libs/memory.c:78-89 | the header of the remainder is written inside the old payload and the two headers are linked |
| Memory.VirtualRam.Dealloc | libs/memory.c:111-143 | null and out-of-range pointers change nothing; a live pointer is released with one forward merge, and at most the header of its block changes |
| Memory.VirtualRam.Coalesce | libs/memory.c:134-142 | the freed block absorbs its successor, header included, exactly when that is free |
| Memory.VirtualRam.MemoryUsed | libs/memory.c:147-161 | the loop sums the sizes of the used blocks; the sum fits the data region |
| Memory.VirtualRam.MemoryFree | libs/memory.c:163-177 | the loop sums the sizes of the free blocks; the sum fits the data region |
| Bytes.PutInt | libs/memory.c:82-88 | an int assigned through a pointer reads back, and no byte outside its four changes |
| Bytes.CStrFrame | libs/string.c:22-29 | a C string keeps its text as long as its own bytes, the NUL included, are not written |
| StringLaws.SplitJoin | libs/string.c:78-101 | tokenising words joined by single delimiters gives back the same words, for any number of words |
| StringLaws.SplitWords | libs/string.c:78-101 | tokens are non-empty and free of the delimiter, and there are at most (len + 1) / 2 of them |
| StringLaws.SplitKeeps | libs/string.c:78-101 | the tokens in a row are the input without its delimiters: nothing is lost, added or reordered |
| StringLaws.SplitEquations | libs/string.c:78-101 | no characters give no tokens, a word is its own token, and a delimiter separates the tokens before it from those after it |
| PathLaws.JoinSnoc | core/commands.c:307-314 | joining puts one delimiter between a word and what is before it, and nothing else |
| StringLaws.SplitTrim | libs/string.c:196-226 | trimming a line leaves its tokens alone exactly when it takes away nothing but blanks |
| StringLaws.PrintableTrims | core/shell.c:46-56 | on lines of printable characters trimming never changes the tokens |
| StringLaws.TrimMeaning | libs/string.c:204-213 | trimming takes away blanks, tabs, line feeds and carriage returns at both ends, nothing else, and leaves none of them at either end |
| StringLaws.CompareZero | libs/string.c:31-40 | two strings compare as 0 exactly when they are equal |
| StringLaws.CompareMeaning | libs/string.c:31-40 | after a common beginning the difference of the first characters is returned, a missing one counting as 0 |
| StringLaws.ParseDecimal | libs/string.c:110-189 | reading the decimal form of any integer gives the integer, and after any number of digits the value read so far is at most its magnitude |
| StringLaws.DecimalForm | libs/string.c:117-141 | the decimal form is digits only, after a minus sign exactly for negative numbers, denotes the number and begins with 0 only for 0 |
| StringLaws.DecimalUnique | libs/string.c:110-153 | every text of that form that denotes n is the decimal form of n |
| StringLaws.ParseMeaning | libs/string.c:165-188 | blanks and tabs, at most one sign, digits and then anything that does not begin with a digit are read as the number the digits denote, negative exactly after a minus sign |
| StringLaws.DecimalLength | libs/string.c:105-109 | the decimal form of a 32-bit int has at most 11 characters, so 12 bytes suffice |
| StringLib.StrLen | libs/string.c:14-20 | the length of the string up to its NUL |
| StringLib.StrCpy | libs/string.c:22-29 | the destination reads as the source text; only its bytes and the NUL are written |
| StringLib.StrCmp | libs/string.c:31-40 | the difference at the first differing character, char signed or not; 0 exactly on equal strings |
| StringLib.StrCat | libs/string.c:42-50 | the destination reads as its old text followed by the source text |
| StringLib.Tokenize | libs/string.c:78-101 | in place, the tokens read up to the NULs are the maximal delimiter-free runs of the old text, in order, and their number is returned |
| StringLib.StrTrim | libs/string.c:196-226 | in place, the text loses exactly its leading and trailing whitespace |
| StringLib.TrimIs | libs/string.c:204-213 | the two scans find the same ends, lines of only whitespace included |
| StringLib.TrimExact | libs/string.c:196-226 | whatever is left when blanks, tabs and line ends are taken away at both ends until there are none is the trimmed text |
| StringLib.IntToStr | libs/string.c:110-153 | the buffer reads as the decimal form of the int, and nothing behind its NUL is written |
| StringLib.ReverseInPlace | libs/string.c:143-152 | the swap loop reverses the first len characters and touches no other |
| StringLib.ReverseAt | libs/string.c:143-152 | character k of the reversed text is character len - 1 - k of the old one |
| StringLib.StrToInt | libs/string.c:160-189 | blanks, sign and digits are read as the number they denote, every intermediate value within 32 bits |
| StringLib.IntRoundTrip | libs/string.c:110-189 | my_str_to_int of my_int_to_str of n is n for every int but the least |
| TreeLaws.LookupExact | core/fs.c:113-130 | a lookup finds the one active child of that name, or there is none |
| TreeLaws.CreateShape | core/fs.c:161-169 | a create appends the new id to the children of its parent and changes no other inode |
| TreeLaws.CreatedSlot | core/fs.c:46-59 | the new inode is active and has its id and the name, type and parent it was asked for, no children, no content, and -1 in every child slot |
| TreeLaws.CreateSucceeds | core/fs.c:142-163 | fs_create succeeds exactly when the parent is a directory with a free slot, no child has the name and an id is left; otherwise it changes nothing |
| TreeLaws.CreateTree | core/fs.c:137-170 | fs_create keeps the tree invariant, successful or not: every active inode is exactly once a child of its parent, siblings differ in name, free child slots are -1, parents have smaller ids |
| TreeLaws.CreateLookup | core/fs.c:113-170 | a create makes one name in one directory give the new id; every other lookup, in any directory, gives what it gave before |
| TreeLaws.CreateRooted | core/fs.c:137-170 | a create leaves every active inode with an active parent exactly when it fails or the parent it was given is active; the code checks only the type of the parent |
| TreeLaws.DeleteSucceeds | core/fs.c:182-197 | fs_delete succeeds exactly on an active inode without children that is not the root; otherwise it changes nothing |
| TreeLaws.WithoutChildKids | core/fs.c:207-219 | removing a child closes the gap, keeps the order of the others and clears the last slot |
| TreeLaws.DeleteKids | core/fs.c:204-220 | after a delete each directory has its old children but the deleted one |
| TreeLaws.DeleteTree | core/fs.c:177-229 | fs_delete keeps the tree invariant, successful or not |
| TreeLaws.DeleteLookup | core/fs.c:113-229 | after a delete the lookup that gave the deleted id finds nothing; every other lookup, in any directory, gives what it gave before |
| TreeLaws.DeleteRooted | core/fs.c:193-197 | a delete never leaves an active inode without an active parent: only empty directories go |
| OwnershipLaws.CreateOwns | core/fs.c:137-170 | fs_create keeps the one-to-one relation between used blocks and files with content |
| OwnershipLaws.OwnedIsLive | core/fs.c:199-202 | the data offset of a file with content is always a pointer dealloc may be given: no block is freed twice |
| OwnershipLaws.NotShared | core/fs.c:259-271 | two files never lie in the same block |
| OwnershipLaws.DroppedOwns | core/fs.c:251-256 | giving back the block of one file keeps the relation for all others |
| OwnershipLaws.DeleteOwns | core/fs.c:199-226 | fs_delete keeps the relation |
| OwnershipLaws.StoreOwns | core/fs.c:258-271 | entering a freshly granted block for a file keeps the relation |
| OwnershipLaws.Redata | core/fs.c:251-271 | where the content of a file lies has no bearing on the tree |
| OwnershipLaws.WriteOwns | core/fs.c:236-274 | fs_write, failed ones included, keeps the relation |
| OwnershipLaws.WriteInv | core/fs.c:236-274 | fs_write, failed ones included, keeps tree and ownership |
| FileRuns.BootInv | core/fs.c:74-110 | the directory tree built by fs_init satisfies all invariants and stores nothing |
| FileRuns.BootNames | core/fs.c:80-103 | after fs_init the names /, bin, home, chandan, tmp and sys lead to inodes 0 to 5, all of them directories, and nothing else is in use |
| FileRuns.RunInv | core/fs.c:137-274 | after any run of fs_create, fs_delete and fs_write from boot, the tree is well formed and used blocks and files with content correspond one to one |
| FileRuns.StepContent | core/fs.c:137-274 | one operation changes the content of at most the file it names; a write that fails leaves that file empty |
| FileRuns.ContentIsLastText | core/fs.c:236-310 | the file system refines a plain map from file id to text, for all runs from any state in which blocks are owned one to one and no id from the counter on is in use |
| FileRuns.ReadIsLastWrite | core/fs.c:281-310 | in every reachable state fs_read gives the text of the last write with length + 1, or empty with 0, whatever happened to the blocks of other files |
| FileRuns.RunKeepsInode | core/fs.c:137-274 | through every run that does not remove it, a file or directory in use keeps its name, type and place |
| FileRuns.EntriesAreLast | core/fs.c:33-229 | the inode table refines a plain map from id to name, type and parent: as the id was last created, unless it was deleted since |
| FileRuns.FilesAreMade | core/fs.c:137-249 | after every run from boot a file can be written exactly if some fs_create of a file returned its id and no later fs_delete of it succeeded |
| FileRuns.FileLife | core/fs.c:137-310 | where a create can succeed and a block is large enough, a file can be created, written, found under its name, read back and deleted, after which its name leads nowhere and it cannot be read |
| FileRuns.IdsAreCounted | core/fs.c:38-44 | ids are handed out one by one and never again: next_inode_id is 6 plus the number of successful creates and at most 128 |
| FileRuns.WriteFails | core/fs.c:251-264 | fs_write on a file fails exactly when no block fits once the old content has been given back |
| FileRuns.WriteThenRead | core/fs.c:236-310 | reading after a write gives the text, or nothing exactly when no block was large enough |
| FileRuns.WriteLookup | core/fs.c:236-274 | a write changes no lookup |
| FileRuns.FailedWriteLosesContent | core/fs.c:251-264 | a failed write leaves the file empty; it changes nothing exactly when the file had no content |
| FileRuns.OverlongWriteFails | core/fs.c:258-264 | in every state some text is too long, so failed writes do occur |
| FileRuns.ShorterRewriteSucceeds | core/fs.c:251-264 | rewriting a file with a text no longer than the one it holds never fails, however fragmented the chain |
| FileRuns.CreateThenDelete | core/fs.c:137-229 | deleting what was created last restores the children array of the parent slot by slot, the blocks and all contents |
| StorageLaws.UsedIsBounded | libs/memory.c:75-89 | the total data_size is at most memory_used, which is at most 12 bytes more per file with content |
| StorageLaws.RunUsedIsBounded | core/fs.c:258-271 | in every reachable state memory_used lies between the total data_size and that total plus 12 bytes per file with content |
| StorageLaws.RunNothingStoredNothingUsed | core/fs.c:199-202 | in every reachable state in which no file has content memory_used is 0: no block leaks |
| StorageLaws.EarlyWritesSucceed | core/fs.c:258-264 | until the texts written since boot, each with its NUL and a header, add up to the data region, no write to a file fails, however blocks were freed in between |
| PathLaws.PathIsJoin | core/fs.c:381-395 | a path is a slash followed by the names on the way from the root, joined by slashes |
| PathLaws.PathSplits | core/fs.c:356-401 | tokenising a path gives these names exactly when none of them is empty or has a slash |
| PathLaws.FollowComponents | core/fs.c:113-130 | looking the names up one after the other from the root arrives at the inode, if it and all above it are active |
| PathLaws.FollowedComponents | core/fs.c:113-130 | wherever looking up some names leads to is active up to the root, and these names are its components |
| PathLaws.PathRoundTrip | core/fs.c:356-401 | tokenising the path of an inode and following the tokens from the root arrives at that inode exactly when it and all above it are active and no name on the way has a slash |
| PathLaws.PathInjective | core/fs.c:356-401 | two inodes that are active up to the root and have no slash on their own ways have different paths |
| PathLaws.AncestorsShape | core/fs.c:364-371 | the upward walk ends at the root after at most id + 1 steps |
| PathLaws.BuiltFits | core/fs.c:381-395 | what has been built of a path is never longer than the whole path |
| Inodes.FieldWrite | core/fs.c:46-59 | an int field written to an inode slot changes exactly that field of the decoded inode |
| Inodes.NameWrite | core/fs.c:48 | a name copied into its field changes no other field |
| Inodes.TableFrame | core/fs.c:25-30 | writes outside the inode table leave all inodes alone |
| StoredTexts.OtherText | core/fs.c:258-267 | a change confined to one block leaves the text of every file in another block alone |
| StoredTexts.LowTexts | core/fs.c:161-169 | changes below the data region that keep data offset and size of all inodes change no text |
| StoredTexts.DroppedTexts | core/fs.c:251-256 | freeing the block of a file and forgetting it removes the text of that file and of no other |
| StoredTexts.AddedTexts | core/fs.c:258-271 | filling a free block and entering it for a file adds the text of that file and changes no other |
| FileSystem.FileSystem.Init | core/fs.c:74-110 | over zeroed RAM, fs_init writes the default tree |
| FileSystem.FileSystem.CreateInode | core/fs.c:33-62 | fails only when 128 ids are used up; otherwise takes the next id, fills every field of its slot and changes no other slot |
| FileSystem.FileSystem.FindChild | core/fs.c:113-130 | the loop over the bytes finds the first active child of that name |
| FileSystem.FileSystem.Create | core/fs.c:137-170 | over bytes, fs_create has exactly the effect and result the model gives it, errors included, and keeps all invariants |
| FileSystem.FileSystem.Delete | core/fs.c:177-229 | over bytes, fs_delete has exactly the effect and result the model gives it, errors included, and keeps all invariants |
| FileSystem.FileSystem.RemoveChild | core/fs.c:207-219 | the shift loop over the children slots removes exactly the given child |
| FileSystem.FileSystem.Write | core/fs.c:236-274 | over bytes, fs_write has exactly the effect and result the model gives it, the failing allocation included, and keeps all invariants |
| FileSystem.FileSystem.DropData | core/fs.c:251-256 | only the given file loses its content |
| FileSystem.FileSystem.StoreData | core/fs.c:258-273 | on success the file holds the text; without a block nothing changes |
| FileSystem.FileSystem.Read | core/fs.c:281-310 | return value and buffer are those of the model in all five cases |
| FileSystem.FileSystem.Replay | core/fs.c:137-274 | over bytes, any sequence of calls of fs_create, fs_delete and fs_write ends in the state and returns the results of the run of the model |
| FileSystem.FileSystem.BootReplayRead | core/fs.c:236-310 | over bytes, fs_read after booting and any such calls returns length + 1 and the last text written to the file, or 0 and an empty text |
| FileSystem.FileSystem.Climb | core/fs.c:357-371 | the stack of 128 entries never overflows: at most id + 1 ids are pushed, the ancestors in order |
| FileSystem.FileSystem.GetPath | core/fs.c:356-401 | the buffer holds the path of the inode, or a slash for an invalid id |
| SchedulerModel.BootOrderly | core/scheduler.c:34-53 | the booted table is orderly and the first task gets slot 0 |
| SchedulerModel.SpawnOrderly | core/scheduler.c:60-77 | a live slot i has pid i; spawn fails exactly when all slots are taken |
| SchedulerModel.SlotMeaning | core/scheduler.c:60-122 | spawn fills the first empty slot with a running process of that pid and 0 ticks, kill empties the given slot, a tick adds one to every running process, and no other slot changes |
| SchedulerModel.TicksSinceSpawn | core/scheduler.c:60-122 | in every run of spawn, kill and tick the ticks of a live process are the system ticks since it was spawned |
| Scheduler.Scheduler.Init | core/scheduler.c:34-53 | over bytes, the table is emptied, the uptime task runs in slot 0 and no byte outside the process table changes |
| Scheduler.Scheduler.Spawn | core/scheduler.c:60-77 | the first empty slot is taken, or -1 returned; only bytes of the process table change |
| Scheduler.Scheduler.Kill | core/scheduler.c:80-102 | a live slot is emptied; any other pid changes nothing |
| Scheduler.Scheduler.Tick | core/scheduler.c:110-122 | every running process and the system counter advance by one |
| ShellModel.StepKeepsInv | core/commands.c:28-63 | every command but halt keeps tree, ownership, process table and saved image well formed; halt leaves RAM as memory_init makes it |
| ShellModel.SessionInv | core/shell.c:26-70 | after every session from boot, one ended with exit included, with loads of images saved in it, tree, ownership, process table and saved image are well formed, unless halt has wiped RAM |
| ShellModel.StepKeepsDirCwd | core/commands.c:403-448 | no command but load and halt makes the current directory anything but a directory id handed out before |
| ShellModel.StepKeepsActiveCwd | core/commands.c:372-504 | a command loses the active current directory exactly when a bare cd finds the home directory deleted, when load finds an image in which the current directory is no active directory or some active inode has lost its parent, or when it is halt |
| ShellLaws.SessionKeepsDirCwd | core/shell.c:26-70 | in every session without load the current directory is an id handed out before, of directory type |
| ShellLaws.TameSessionKeepsCwd | core/shell.c:26-70 | in every session that does not remove inode 3 and loads only images that have the directory the shell is in, the current directory is active and every active inode is reachable from the root |
| ShellLaws.RemovedHomeIsEntered | core/commands.c:408-410 | once inode 3 is removed, a bare cd enters it all the same and files are created in a deleted directory |
| ImageLaws.SaveThenLoad | core/commands.c:466-504 | whatever is done between save and load, load brings back inodes, blocks, texts and processes of the save, well formed, and ids given out later are not in use in it |
| ImageLaws.CreateAfterLoad | core/commands.c:491-504 | over any well-formed image that was loaded, a create leaves every file and directory of it with its name, type, place and content exactly when the id given out next is not in use in the image |
| ImageLaws.LoadedSurvives | core/commands.c:491-504 | if the counter has passed all ids in use in the image, then through every run after the load each of its files and directories stays in place until it is removed itself, and reads as what was last written to it |
| ImageLaws.RebootLosesFile | core/fs.c:18 | after a reboot the counter starts again: touch, save, reboot, load, touch gives one id out twice and the first file is gone |
| CdLaws.CdRetracesPwd | core/commands.c:403-458 | cd / followed by cd to each component of pwd ends in the same directory exactly when this and all directories above it are active and no name on the way has a slash or is ".." |
| CdLaws.SessionUndotted | core/commands.c:414-421 | in every session, loads and removed directories included, no directory on the way to the current one is named "..": cd .. goes to the parent, so such a directory is never entered |
| CdLaws.SessionRetraces | core/shell.c:26-70 | at the end of every session cd / and cd along pwd end in the same directory exactly when it and all above it are active and no name on the way has a slash |
| CdLaws.TameSessionRetraces | core/shell.c:26-70 | at the end of every session that leaves inode 3 alone, loads only images with the current directory and puts no slash into a name, cd / and cd along pwd end in the same directory |
| CdLaws.SlashIsNotRetraced | core/fs.c:48 | mkdir a/b and cd a/b lead to a directory whose pwd does not lead back |
| CdLaws.SlashCollides | core/fs.c:356-401 | with a name a/b two active directories have the same path, which leads to one of them |
| CdLaws.FsStepKeepsSlashFree | core/fs.c:48 | names stay free of slashes as long as creates are given such names |
| ShellLaws.WriteThenCat | core/commands.c:307-363 | after write of some words, reading the file gives them joined by blanks, and tokenising that gives the words; an empty text exactly when no block was large enough |
| ShellLaws.UptimeIsDispatched | core/shell.c:60-64 | the system ticks once for every command dispatched, and so does the uptime task until the machine stops or an image is loaded |
| TypedLaws.TurnOfLine | core/shell.c:45-69 | for every line that can be typed, the tokens decide: without any nothing happens, otherwise the command they name is carried out and the scheduler ticks |
| TypedLaws.TurnTakes | core/shell.c:45-69 | typing any words with blanks between them carries out the command of exactly these words |
| TypedLaws.TickMeaning | core/scheduler.c:110-122 | the tick after a command moves the system counter and the ticks of running processes and nothing else |
| TypedLaws.OthersDoNothing | core/commands.c:28-63 | a line with a command that only prints, an unknown command or too few words changes nothing but the clock |
| TypedLaws.TypedCreate | core/commands.c:107-143 | typing mkdir or touch and a name makes a directory or a file of that name the last child of the current directory exactly when it has a free slot, the name is free and an id is left; nothing else changes |
| TypedLaws.TypedRemove | core/commands.c:372-394 | typing rm and a name takes the child of that name out of the current directory if it is a file or an empty directory; nothing else changes |
| TypedLaws.TypedWrite | core/commands.c:281-325 | typing write, the name of a file and words makes that file read as the words joined by blanks if a block is large enough and as empty if not; all other files read as before |
| TypedLaws.TypedCdSpecial | core/commands.c:408-428 | cd alone goes to inode 3, cd / to inode 0, cd .. to the parent or from the root to the root; nothing else changes |
| TypedLaws.TypedCdName | core/commands.c:430-447 | cd and a name goes to the child directory of that name; without a child of that name, or if it is a file, the current directory stays |
| TypedLaws.TypedSave | core/commands.c:466-485 | save copies file system and process table to the image if the file opens, and changes nothing else |
| TypedLaws.TypedLoad | core/commands.c:491-504 | load brings back file system and process table of the image if there is one; the id counter, the current directory and the clock stay |
| TypedLaws.TypedExit | core/shell.c:61-68 | exit stops the shell after one more tick, with all else as it was, and every further line is ignored |
| TypedLaws.TypedHalt | core/commands.c:510-519 | halt stops the shell and leaves no inode in use, no text, one free block over the data region and a zeroed process table |
| TypedLaws.SessionIsTurns | core/shell.c:34-69 | a session is the turns of its lines, one after the other |
| Shell.Shell.constructor | main.c:20-36 | the boot sequence reaches the boot state of the machine over one shared RAM |
| Shell.Shell.CmdMkdir | core/commands.c:107-122 | takes the step of the machine, which creates a directory in the current one, and keeps all invariants |
| Shell.Shell.CmdTouch | core/commands.c:128-143 | takes the step of the machine, which creates a file in the current directory, and keeps all invariants |
| Shell.Shell.CmdWrite | core/commands.c:281-325 | takes the step of the machine, which writes the joined tokens to a file of the current directory, and keeps all invariants |
| Shell.Shell.JoinTokens | core/commands.c:307-314 | the buffer holds the tokens from the third on, joined by single blanks |
| Shell.Shell.CmdRm | core/commands.c:372-394 | takes the step of the machine, which deletes a child of the current directory, and keeps all invariants |
| Shell.Shell.CmdCd | core/commands.c:403-448 | takes the step of the machine in all four forms of cd; nothing but the current directory changes |
| Shell.Shell.CmdSave | core/commands.c:466-485 | the image holds the bytes of RAM; without a file nothing changes |
| Shell.Shell.CmdLoad | core/commands.c:491-504 | RAM holds the bytes of the image; next_inode_id keeps its value |
| Shell.Shell.CmdExit | core/commands.c:264-270 | stops the machine and changes nothing else |
| Shell.Shell.CmdHalt | core/commands.c:510-519 | RAM is initialised anew and the machine stops |
| Shell.Shell.Dispatch | core/commands.c:28-63 | any tokens: the effect is the step of the parsed command, and -1 is returned exactly when the machine stops |
| Shell.Shell.TurnOnce | core/shell.c:45-64 | trim, tokenise, dispatch and tick over one buffer are one turn of the machine |
| Shell.Shell.Run | core/shell.c:34-69 | the loop over the lines typed is the session of the machine, up to exit or halt |

## Left out

- Output: prompts, messages, colours, banners, `memory_dump`, `fs_list`, `scheduler_list`, and the commands `echo`, `ls`, `cat`, `pwd`, `memstat`, `ps`, `clear` and `help`, which only print. They are dispatched and change nothing; what `cat`, `pwd` and `memstat` show is the result of `FileSystem.Read`, `FileSystem.GetPath`, `VirtualRam.MemoryUsed` and `VirtualRam.MemoryFree`.
- The path buffer of the prompt and the buffers of `cat` and `pwd` in the shell loop; `Read` and `GetPath` ask for a buffer that is large enough.
- Keyboard and terminal: a line is taken as typed; `key_pressed`, backspace and raw mode are not part of this model.
- Disk: the image is a second array that exists once it was saved; partial reads and writes are not modelled. Only `ImageLaws.CreateAfterLoad` and `ImageLaws.LoadedSurvives` speak of an image made in another boot.
- ImageLaws.CreateAfterLoad, ImageLaws.LoadedSurvives: are about the functions of `FileModel`; the methods over bytes ask in addition that no slot from the counter on was a directory, which an image of another boot with removed directories need not meet.
- StorageLaws.EarlyWritesSucceed: whether fragmentation can make a write of the shell fail after more than 39000 writes in one boot is not decided.
- The name of a process: it is written to RAM but not decoded, since nothing depends on it.
- C alignment and undefined behaviour of casting byte offsets to structs: only sizes and field offsets are kept.
- `const char *` arguments of the file system, the scheduler and the commands are passed as texts, so aliasing of an argument with RAM is not modelled; the string library works on arrays and offsets.
- `my_pow`, `my_max`, `my_min`, `my_strchr`: not used by the modelled code. `my_add`, `my_sub`, `my_mul`, `my_div`, `my_mod` and `my_abs` are plain arithmetic; what is stored into RAM must fit 32 bits.
- Shell.Shell.Run: takes the finite sequence of lines typed instead of looping until exit.
- ShellLaws.UptimeIsDispatched: claims nothing after a load, which brings back older tick counts.
