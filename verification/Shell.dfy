/**
 core/commands.c and core/shell.c over one RAM. Each command is proved to take the step `ShellModel` gives it, and a
 session to be the run of these steps. A `const char *` argument is passed as the text it points to.
 */
module Shell {
  import opened Layout
  import opened Bytes
  import opened Blocks
  import opened Memory
  import opened StringLaws
  import opened StringLib
  import opened FileModel
  import opened FileRuns
  import opened Inodes
  import PathLaws
  import opened StoredTexts
  import opened SchedulerModel
  import opened Scheduler
  import opened FileSystem
  import opened ShellModel

  const INPUT_SIZE := 256
  const MAX_TOKENS := 16
  const CONTENT_SIZE := 1024

  class Shell {
    const mem: VirtualRam
    const fs: FileSystem
    const sched: Scheduler
    var currentDir: int
    var running: bool
    // The file mineos.img, and whether it exists.
    const image: array<Byte>
    var saved: bool
    // What was true outside RAM when the image was written.
    ghost var savedNext: int
    ghost var savedChain: Chain

    // The boot sequence of main.c; no image file exists yet.
    constructor ()
      ensures Valid() && State() == BootMachine
      ensures fresh(mem) && fresh(mem.ram) && fresh(fs) && fresh(sched) && fresh(image)
    {
      var m := new VirtualRam();
      mem := m;
      fs := new FileSystem(m);
      sched := new Scheduler(m);
      image := new Byte[RAM_SIZE];
      currentDir, running, saved := HOME_ID, true, false;
      savedNext, savedChain := 0, [];
      new;
      Boot();
    }

    // The objects share one RAM, and the image is another piece of memory.
    ghost predicate Wired()
      reads this
    {
      fs.mem == mem && sched.mem == mem && mem.ram.Length == image.Length == RAM_SIZE && image != mem.ram
    }

    ghost function ImageState(): Image
      requires image.Length == RAM_SIZE
      reads this, image
    {
      if saved then Image(Decode(image[..], savedNext, savedChain), ProcsOf(image[..])) else NoImage
    }

    ghost function State(): Machine
      requires Wired()
      reads this, mem, mem.ram, fs, sched, image
    {
      Machine(fs.State(), currentDir, sched.Procs(), sched.globalTicks, ImageState(), running)
    }

    ghost predicate Valid()
      reads this, mem, mem.ram, fs, sched, image
    {
      Wired() && mem.Valid() && MachineInv(State()) && (saved ==> Describes(image[..], savedChain))
    }

    method Boot()
      requires Wired() && currentDir == HOME_ID && running && !saved
      modifies mem, mem.ram, fs, sched
      ensures Valid() && State() == BootMachine
    {
      hide Tree, Owns, Describes, TableOf, TextsOf, ProcsOf, Orderly;
      mem.Init();
      fs.Init();
      ghost var s := mem.ram[..];
      ghost var was := fs.State();
      InvParts(was);
      sched.Init();
      ProcWriteKeepsFs(s, mem.ram[..], was);
      BootInv();
      BootOrderly();
    }

    lemma FsIsValid()
      requires Valid() && running
      ensures fs.Valid() && Tree(fs.State().table, fs.State().next)
    {
    }

    // The fields of an inode, read from RAM.
    lemma FieldsRead(id: int)
      requires Valid() && running && Slot(id)
      ensures var n := fs.State().table[id];
              && n.kind == fs.GetField(id, F_TYPE) && n.parent == fs.GetField(id, F_PARENT)
              && (n.active ==> fs.GetField(id, F_ID) == id)
    {
      var t := fs.State().table;
      assert t[id] == InodeAt(mem.ram[..], id);
      assert t[id].active ==> t[id].id == id;
    }

    // fs_find_child has returned a child: the current directory's, and active.
    lemma Found(name: Text, id: int)
      requires Valid() && running && id == Lookup(fs.State().table, currentDir, name) && id != -1
      ensures Slot(id) && fs.State().table[id].active && fs.GetField(id, F_ID) == id
      ensures fs.State().table[id].kind == fs.GetField(id, F_TYPE)
    {
      LookupValid(fs.State().table, fs.State().next, currentDir, name);
      FieldsRead(id);
    }

    // A file system operation has changed the file system and nothing else.
    lemma Rejoined(m: Machine, s: seq<Byte>)
      requires Wired() && fs.Valid() && running && |s| == RAM_SIZE
      requires m == Machine(m.fs, currentDir, ProcsOf(s), sched.globalTicks, ImageState(), true)
      requires Agree(s, mem.ram[..], PROCESS_TABLE_OFFSET, DATA_REGION_OFFSET)
      requires MachineInv(m.(fs := fs.State())) && (saved ==> Describes(image[..], savedChain))
      ensures Valid() && State() == m.(fs := fs.State())
    {
      ProcsFrame(s, mem.ram[..]);
    }

    // ---------- commands ----------

    method CmdMkdir(tokens: seq<Text>) returns (code: int)
      requires Valid() && running && |tokens| > 0
      requires |tokens| >= 2 ==> GoodName(tokens[1])
      modifies mem, mem.ram, fs
      ensures Valid() && code == 0
      ensures State() == Step(old(State()), if |tokens| < 2 then Nop else Mkdir(tokens[1]), true)
    {
      code := 0;
      if |tokens| >= 2 {
        Make(tokens[1], INODE_DIR, Mkdir(tokens[1]));
      }
    }

    method CmdTouch(tokens: seq<Text>) returns (code: int)
      requires Valid() && running && |tokens| > 0
      requires |tokens| >= 2 ==> GoodName(tokens[1])
      modifies mem, mem.ram, fs
      ensures Valid() && code == 0
      ensures State() == Step(old(State()), if |tokens| < 2 then Nop else Touch(tokens[1]), true)
    {
      code := 0;
      if |tokens| >= 2 {
        Make(tokens[1], INODE_FILE, Touch(tokens[1]));
      }
    }

    // fs_create in the current directory.
    method Make(name: Text, kind: int, ghost cmd: Command)
      requires Valid() && running && GoodName(name)
      requires (kind == INODE_DIR && cmd == Mkdir(name)) || (kind == INODE_FILE && cmd == Touch(name))
      modifies mem, mem.ram, fs
      ensures Valid() && State() == Step(old(State()), cmd, true)
    {
      hide Inv, MachineInv, Describes, Decode, FileModel.Create, ProcsOf, GoodName, Step, Owns, Countable;
      ghost var m, s := State(), mem.ram[..];
      FsIsValid();
      StepKeepsInv(m, cmd, true);
      MakeStep(m, name, kind, cmd);
      var result := fs.Create(currentDir, name, kind);
      Rejoined(m, s);
    }

    // The tokens fit the content buffer when joined.
    method CmdWrite(tokens: seq<Text>) returns (code: int)
      requires Valid() && running && |tokens| > 0
      requires forall i | 0 <= i < |tokens| :: NUL !in tokens[i]
      requires |tokens| >= 3 ==> |Join(tokens[2..], BLANK)| < CONTENT_SIZE
      modifies mem, mem.ram, fs
      ensures Valid() && code == 0
      ensures State() == Step(old(State()), if |tokens| < 3 then Nop else Fill(tokens[1], Join(tokens[2..], BLANK)), true)
    {
      hide Inv, MachineInv, Describes, Decode, FileModel.Write, ProcsOf, Join, Owns, Countable, Lookup;
      code := 0;
      if |tokens| < 3 {
        return;
      }
      FsIsValid();
      var file := fs.FindChild(currentDir, tokens[1]);
      if file == -1 {
        return;
      }
      Found(tokens[1], file);
      if fs.GetField(file, F_TYPE) != INODE_FILE {
        return;
      }
      FillFrom(tokens, file);
    }

    // Joins the tokens and writes them to the file that was found.
    method FillFrom(tokens: seq<Text>, file: int)
      requires Valid() && running && |tokens| >= 3 && forall i | 0 <= i < |tokens| :: NUL !in tokens[i]
      requires |Join(tokens[2..], BLANK)| < CONTENT_SIZE
      requires file == Lookup(fs.State().table, currentDir, tokens[1]) && Slot(file)
      requires fs.State().table[file].kind == INODE_FILE && fs.GetField(file, F_ID) == file
      modifies mem, mem.ram, fs
      ensures Valid() && State() == Step(old(State()), Fill(tokens[1], Join(tokens[2..], BLANK)), true)
    {
      hide Inv, MachineInv, Describes, Decode, ProcsOf, CStr, Join, Step, Lookup;
      var content := new Byte[CONTENT_SIZE];
      JoinTokens(tokens, content);
      JoinNoNul(tokens[2..]);
      PutText(tokens[1], file, CStr(content[..], 0));
    }

    // fs_write to the file that was found.
    method PutText(ghost name: Text, file: int, content: Text)
      requires Valid() && running && NUL !in content && |content| < CONTENT_SIZE
      requires file == Lookup(fs.State().table, currentDir, name) && Slot(file)
      requires fs.State().table[file].kind == INODE_FILE && fs.GetField(file, F_ID) == file
      modifies mem, mem.ram, fs
      ensures Valid() && State() == Step(old(State()), Fill(name, content), true)
    {
      hide Inv, MachineInv, Describes, Decode, FileModel.Write, ProcsOf, Lookup, Step, Owns, Countable;
      ghost var m, s := State(), mem.ram[..];
      FsIsValid();
      StepKeepsInv(m, Fill(name, content), true);
      FillStep(m, name, file, content);
      var result := fs.Write(fs.GetField(file, F_ID), content);
      Rejoined(m, s);
    }

    method CmdRm(tokens: seq<Text>) returns (code: int)
      requires Valid() && running && |tokens| > 0
      requires forall i | 0 <= i < |tokens| :: NUL !in tokens[i]
      modifies mem, mem.ram, fs
      ensures Valid() && code == 0
      ensures State() == Step(old(State()), if |tokens| < 2 then Nop else Remove(tokens[1]), true)
    {
      hide Inv, MachineInv, Describes, Decode, FileModel.Delete, ProcsOf, Owns, Countable, Lookup;
      code := 0;
      if |tokens| < 2 {
        return;
      }
      FsIsValid();
      var target := fs.FindChild(currentDir, tokens[1]);
      if target == -1 {
        return;
      }
      Found(tokens[1], target);
      Drop(tokens[1], target);
    }

    // fs_delete of the child that was found.
    method Drop(ghost name: Text, target: int)
      requires Valid() && running && target == Lookup(fs.State().table, currentDir, name) && Slot(target)
      requires fs.GetField(target, F_ID) == target
      modifies mem, mem.ram, fs
      ensures Valid() && State() == Step(old(State()), Remove(name), true)
    {
      hide Inv, MachineInv, Describes, Decode, FileModel.Delete, ProcsOf, Lookup, Step, Owns, Countable;
      ghost var m, s := State(), mem.ram[..];
      FsIsValid();
      StepKeepsInv(m, Remove(name), true);
      RemoveStep(m, name, target);
      var r := fs.Delete(fs.GetField(target, F_ID));
      Rejoined(m, s);
    }

    method CmdCd(tokens: seq<Text>) returns (code: int)
      requires Valid() && running && |tokens| > 0
      requires forall i | 0 <= i < |tokens| :: NUL !in tokens[i]
      modifies this`currentDir
      ensures Valid() && code == 0
      ensures State() == Step(old(State()), CdCommand(tokens), true)
    {
      hide Inv, MachineInv, Describes, Decode, ProcsOf, Lookup, MovesTo;
      code := 0;
      if |tokens| < 2 {
        HomeMoves(State());
        GoTo(HOME_ID, CdHome);
        return;
      }
      var up := Same(tokens[1], "..");
      if up {
        GoUp();
        return;
      }
      var root := Same(tokens[1], "/");
      if root {
        RootMoves(State());
        GoTo(0, CdRoot);
        return;
      }
      Enter(tokens[1]);
    }

    // *current_dir = dir
    method GoTo(dir: int, ghost cmd: Command)
      requires Valid() && running && GoodCommand(cmd) && MovesTo(State(), cmd, dir)
      modifies this`currentDir
      ensures Valid() && State() == Step(old(State()), cmd, true)
    {
      hide MachineInv, Step, Describes, Decode, ProcsOf, Owns, Countable;
      StepKeepsInv(State(), cmd, true);
      currentDir := dir;
    }

    // cd ..
    method GoUp()
      requires Valid() && running
      modifies this`currentDir
      ensures Valid() && State() == Step(old(State()), CdUp, true)
    {
      hide Inv, MachineInv, Describes, Decode, ProcsOf, MovesTo, Owns, Countable;
      UpMoves();
      if Slot(currentDir) && fs.GetField(currentDir, F_PARENT) != -1 {
        GoTo(fs.GetField(currentDir, F_PARENT), CdUp);
      } else {
        GoTo(0, CdUp);
      }
    }

    lemma UpMoves()
      requires Valid() && running
      ensures var parent := if Slot(currentDir) then fs.GetField(currentDir, F_PARENT) else -1;
              MovesTo(State(), CdUp, if parent != -1 then parent else 0)
    {
      hide Inv, MachineInv, Describes, Decode, ProcsOf, Step;
      CwdIsSlot(State());
      FieldsRead(currentDir);
      UpStep(State());
    }

    // cd <name>
    method Enter(name: Text)
      requires Valid() && running && NUL !in name
      modifies this`currentDir
      ensures Valid() && State() == Step(old(State()), CdTo(name), true)
    {
      hide Inv, MachineInv, Describes, Decode, ProcsOf, Lookup;
      FsIsValid();
      var target := fs.FindChild(currentDir, name);
      if target == -1 {
        return;
      }
      Found(name, target);
      if fs.GetField(target, F_TYPE) != INODE_DIR {
        return;
      }
      GoTo(fs.GetField(target, F_ID), CdTo(name));
    }

    // my_strcmp(a, b) == 0
    method Same(a: Text, b: Text) returns (same: bool)
      requires NUL !in a && NUL !in b
      ensures same <==> a == b
    {
      CStrLit(a);
      CStrLit(b);
      var r := StrCmp(Lit(a), 0, Lit(b), 0);
      same := r == 0;
    }

    // The loop of cmd_write: the tokens from the third on, joined by blanks.
    method JoinTokens(tokens: seq<Text>, content: array<Byte>)
      requires |tokens| >= 3 && forall i | 0 <= i < |tokens| :: NUL !in tokens[i]
      requires |Join(tokens[2..], BLANK)| < content.Length
      modifies content
      ensures CStr(content[..], 0) == Join(tokens[2..], BLANK)
    {
      hide CStr, Join;
      content[0] := NUL;
      CStrIs(content[..], 0, []);
      JoinStart(tokens[2..]);
      var i := 2;
      while i < |tokens|
        invariant 2 <= i <= |tokens|
        invariant Terminated(content[..], 0)
        invariant CStr(content[..], 0) == JoinedUpTo(tokens[2..], i - 2)
      {
        JoinStep(tokens[2..], i - 2);
        JoinPrefixFits(tokens[2..], i - 1);
        CStrLit(tokens[i]);
        StrCat(content, 0, Lit(tokens[i]), 0);
        if i < |tokens| - 1 {
          CStrLit(" ");
          StrCat(content, 0, Lit(" "), 0);
        }
        i := i + 1;
      }
      JoinEnd(tokens[2..]);
    }

    // fwrite or fread of RAM_SIZE bytes.
    method CopyBytes(dst: array<Byte>, src: array<Byte>)
      requires dst != src && dst.Length == src.Length == RAM_SIZE
      modifies dst
      ensures dst[..] == src[..]
    {
      var i := 0;
      while i < RAM_SIZE
        invariant 0 <= i <= RAM_SIZE
        invariant forall p | 0 <= p < i :: dst[p] == src[p]
      {
        dst[i] := src[i];
        i := i + 1;
      }
    }

    // fwrite of the whole RAM, if the file can be opened.
    method CmdSave(disk: bool) returns (code: int)
      requires Valid() && running
      modifies image, this`saved, this`savedNext, this`savedChain
      ensures Valid() && code == 0 && running && State() == Step(old(State()), Save, disk)
    {
      hide Inv, MachineInv, Describes, Decode, ProcsOf, Step, Owns, Countable;
      code := 0;
      if !disk {
        NoDisk(State());
        return;
      }
      ghost var m := State();
      StepKeepsInv(m, Save, true);
      SaveStep(m);
      CopyBytes(image, mem.ram);
      saved := true;
      savedNext, savedChain := fs.nextInodeId, mem.chain;
    }

    // fread of the whole RAM, if there is an image. next_inode_id lies outside RAM.
    method CmdLoad(disk: bool) returns (code: int)
      requires Valid() && running
      modifies mem, mem.ram
      ensures Valid() && code == 0 && running && State() == Step(old(State()), Load, disk)
    {
      hide Inv, MachineInv, Describes, ProcsOf, TableOf, TextsOf, Step, Owns, Countable;
      code := 0;
      LoadStep(State());
      if !disk || !saved {
        NoDisk(State());
        return;
      }
      ghost var m := State();
      StepKeepsInv(m, Load, true);
      CopyBytes(mem.ram, image);
      mem.chain := savedChain;
    }

    method CmdExit() returns (code: int)
      requires Valid() && running
      modifies this`running
      ensures Valid() && code == -1 && !running && State() == Step(old(State()), Exit, true)
    {
      hide Inv, Owns, Orderly, Describes, Decode, ProcsOf;
      running := false;
      code := -1;
    }

    method CmdHalt() returns (code: int)
      requires Valid() && running
      modifies mem, mem.ram, this`running
      ensures Valid() && code == -1 && !running && State() == Step(old(State()), Halt, true)
    {
      hide Inv, MachineInv, Describes, ProcsOf, TableOf, TextsOf, Owns, Step, Orderly;
      ghost var m := State();
      StepKeepsInv(m, Halt, true);
      HaltStep(m);
      mem.Init();
      ZeroTable(mem.ram[..]);
      ZeroProcs(mem.ram[..]);
      ZeroTexts(mem.ram[..]);
      WipedOwns(fs.nextInodeId);
      running := false;
      code := -1;
    }

    // ---------- command_dispatch ----------

    // The return value is -1 for exit and halt.
    method Dispatch(tokens: seq<Text>, disk: bool) returns (code: int)
      requires Valid() && running && Dispatchable(tokens)
      modifies this, mem, mem.ram, fs, image
      ensures Valid() && State() == Step(old(State()), Parse(tokens), disk)
      ensures code == -1 <==> !running
    {
      hide MachineInv, Describes, Decode, ProcsOf, Step, Owns, Countable;
      if |tokens| == 0 || |tokens[0]| == 0 || |tokens[0]| > 32 {
        NopStep(State(), disk);
        return 0;
      }
      code := DispatchFirst(tokens, disk);
    }

    // A command that only prints.
    method PrintOnly(tokens: seq<Text>, ghost disk: bool) returns (code: int)
      requires Valid() && running && |tokens| > 0 && 0 < |tokens[0]| <= 32 && tokens[0] in QUIET
      ensures code == 0 && State() == Step(State(), Parse(tokens), disk)
    {
      hide MachineInv, Describes, Decode, ProcsOf, Step, Owns, Countable, Parse;
      ParseCases(tokens);
      NopStep(State(), disk);
      code := 0;
    }

    // The comparisons of command_dispatch, in four parts: from echo to touch,
    method DispatchFirst(tokens: seq<Text>, disk: bool) returns (code: int)
      requires Valid() && running && Dispatchable(tokens) && |tokens| > 0 && 0 < |tokens[0]| <= 32
      modifies this, mem, mem.ram, fs, image
      ensures Valid() && State() == Step(old(State()), Parse(tokens), disk)
      ensures code == -1 <==> !running
    {
      hide Inv, MachineInv, Describes, Decode, ProcsOf, Step, Owns, Countable, Parse, GoodCommand, GoodName, Join;
      var echo := Same(tokens[0], "echo");
      if echo {
        code := PrintOnly(tokens, disk);
        return;
      }
      var ls := Same(tokens[0], "ls");
      if ls {
        code := PrintOnly(tokens, disk);
        return;
      }
      var mkdir := Same(tokens[0], "mkdir");
      if mkdir {
        ParseCases(tokens);
        DiskFree(State(), Parse(tokens), disk);
        GoodArgs(tokens);
        code := CmdMkdir(tokens);
        return;
      }
      var touch := Same(tokens[0], "touch");
      if touch {
        ParseCases(tokens);
        DiskFree(State(), Parse(tokens), disk);
        GoodArgs(tokens);
        code := CmdTouch(tokens);
        return;
      }
      code := DispatchSecond(tokens, disk);
    }

    // from memstat to exit,
    method DispatchSecond(tokens: seq<Text>, disk: bool) returns (code: int)
      requires Valid() && running && Dispatchable(tokens) && |tokens| > 0 && 0 < |tokens[0]| <= 32
      requires tokens[0] != "mkdir" && tokens[0] != "touch"
      modifies this, mem, mem.ram, fs, image
      ensures Valid() && State() == Step(old(State()), Parse(tokens), disk)
      ensures code == -1 <==> !running
    {
      hide Inv, MachineInv, Describes, Decode, ProcsOf, Step, Owns, Countable, Parse, GoodCommand, GoodName, Join;
      var memstat := Same(tokens[0], "memstat");
      if memstat {
        code := PrintOnly(tokens, disk);
        return;
      }
      var ps := Same(tokens[0], "ps");
      if ps {
        code := PrintOnly(tokens, disk);
        return;
      }
      var clear := Same(tokens[0], "clear");
      if clear {
        code := PrintOnly(tokens, disk);
        return;
      }
      var help := Same(tokens[0], "help");
      if help {
        code := PrintOnly(tokens, disk);
        return;
      }
      var exit := Same(tokens[0], "exit");
      if exit {
        ParseCases(tokens);
        DiskFree(State(), Parse(tokens), disk);
        code := CmdExit();
        return;
      }
      code := DispatchThird(tokens, disk);
    }

    // from cat to pwd,
    method DispatchThird(tokens: seq<Text>, disk: bool) returns (code: int)
      requires Valid() && running && Dispatchable(tokens) && |tokens| > 0 && 0 < |tokens[0]| <= 32
      requires tokens[0] != "mkdir" && tokens[0] != "touch"
      requires tokens[0] != "exit"
      modifies this, mem, mem.ram, fs, image
      ensures Valid() && State() == Step(old(State()), Parse(tokens), disk)
      ensures code == -1 <==> !running
    {
      hide Inv, MachineInv, Describes, Decode, ProcsOf, Step, Owns, Countable, Parse, GoodCommand, GoodName, Join;
      var cat := Same(tokens[0], "cat");
      if cat {
        code := PrintOnly(tokens, disk);
        return;
      }
      var write := Same(tokens[0], "write");
      if write {
        ParseCases(tokens);
        DiskFree(State(), Parse(tokens), disk);
        code := CmdWrite(tokens);
        return;
      }
      var rm := Same(tokens[0], "rm");
      if rm {
        ParseCases(tokens);
        DiskFree(State(), Parse(tokens), disk);
        code := CmdRm(tokens);
        return;
      }
      var cd := Same(tokens[0], "cd");
      if cd {
        ParseCases(tokens);
        DiskFree(State(), Parse(tokens), disk);
        code := CmdCd(tokens);
        return;
      }
      var pwd := Same(tokens[0], "pwd");
      if pwd {
        code := PrintOnly(tokens, disk);
        return;
      }
      code := DispatchLast(tokens, disk);
    }

    // and from save on. An unknown command changes nothing.
    method DispatchLast(tokens: seq<Text>, disk: bool) returns (code: int)
      requires Valid() && running && Dispatchable(tokens) && |tokens| > 0 && 0 < |tokens[0]| <= 32
      requires tokens[0] != "mkdir" && tokens[0] != "touch"
      requires tokens[0] != "exit"
      requires tokens[0] != "write" && tokens[0] != "rm" && tokens[0] != "cd"
      modifies this, mem, mem.ram, image
      ensures Valid() && State() == Step(old(State()), Parse(tokens), disk)
      ensures code == -1 <==> !running
    {
      hide Inv, MachineInv, Describes, Decode, ProcsOf, Step, Owns, Countable, Parse, GoodCommand, GoodName, Join;
      var save := Same(tokens[0], "save");
      if save {
        ParseCases(tokens);
        code := CmdSave(disk);
        return;
      }
      var load := Same(tokens[0], "load");
      if load {
        ParseCases(tokens);
        code := CmdLoad(disk);
        return;
      }
      var halt := Same(tokens[0], "halt");
      if halt {
        ParseCases(tokens);
        DiskFree(State(), Parse(tokens), disk);
        code := CmdHalt();
        return;
      }
      ParseCases(tokens);
      NopStep(State(), disk);
      code := 0;
    }

    // ---------- shell_run ----------

    // scheduler_tick, seen from the whole machine.
    method TickScheduler()
      requires Valid() && sched.globalTicks < MAX_INT
      modifies mem.ram, sched
      ensures Valid() && State() == AfterTick(old(State()))
      ensures sched.globalTicks == old(sched.globalTicks) + 1
    {
      hide Inv, Describes, ProcsOf, TableOf, TextsOf, MachineInv, Tick, Orderly, Owns;
      ghost var m, s, was := State(), mem.ram[..], fs.State();
      SoundState();
      TickKeepsInv(m);
      TickCountable(m.procs, m.ticks);
      sched.Tick();
      ProcWriteKeepsFs(s, mem.ram[..], was);
    }

    lemma SoundState()
      requires Valid()
      ensures Holding(mem.ram[..], fs.State()) && Countable(sched.Procs(), sched.globalTicks) && Owns(fs.State())
    {
      SoundMachine(State());
    }

    // One turn of the shell loop: read, trim, tokenise, dispatch, tick.
    method TurnOnce(input: Input)
      requires Valid() && running && sched.globalTicks < MAX_INT && Typed(input)
      modifies this, mem, mem.ram, fs, sched, image
      ensures Valid() && State() == Turn(old(State()), input)
      ensures sched.globalTicks <= old(sched.globalTicks) + 1
    {
      hide Inv, Describes, Decode, ProcsOf, MachineInv, Step, Parse, CStr, Split, Trim, Owns, Countable;
      var buffer := new Byte[INPUT_SIZE];
      ReadLine(input.line, buffer);
      StrTrim(buffer);
      var len := StrLen(buffer[..], 0);
      if len == 0 {
        return;
      }
      var tokens := new int[MAX_TOKENS];
      TrimmedTokens(input.line);
      var count := Tokenize(buffer, tokens, BLANK);
      if count == 0 {
        return;
      }
      var s, starts := buffer[..], tokens[..count];
      var args := seq(count, k requires 0 <= k < count && 0 <= starts[k] < |s| => CStr(s, starts[k]));
      assert args == Split(Trim(input.line), BLANK);
      LineIsDispatchable(input);
      var result := Dispatch(args, input.disk);
      TickScheduler();
    }

    // What read_line leaves in the buffer.
    method ReadLine(line: Text, buffer: array<Byte>)
      requires Printable(line) && |line| < INPUT_SIZE == buffer.Length
      modifies buffer
      ensures Terminated(buffer[..], 0) && CStr(buffer[..], 0) == line
    {
      hide CStr;
      var pos := 0;
      while pos < |line|
        invariant 0 <= pos <= |line|
        invariant forall k | 0 <= k < pos :: buffer[k] == line[k]
      {
        buffer[pos] := line[pos];
        pos := pos + 1;
      }
      buffer[pos] := NUL;
      assert forall k | 0 <= k < |line| :: line[k] in line;
      CStrIs(buffer[..], 0, line);
    }

    // The shell loop, over the lines typed until the machine stops.
    method Run(inputs: seq<Input>)
      requires Valid() && running && sched.globalTicks + |inputs| < MAX_INT
      requires forall i | 0 <= i < |inputs| :: Typed(inputs[i])
      modifies this, mem, mem.ram, fs, sched, image
      ensures Valid() && State() == Session(old(State()), inputs)
    {
      hide Inv, Describes, Decode, ProcsOf, MachineInv, Turn, Owns, Countable, Typed;
      ghost var start := State();
      var i := 0;
      assert inputs[..0] == [];
      while i < |inputs| && running
        invariant 0 <= i <= |inputs| && Valid()
        invariant State() == Session(start, inputs[..i])
        invariant sched.globalTicks <= start.ticks + i
      {
        assert inputs[..i + 1][..i] == inputs[..i];
        TurnOnce(inputs[i]);
        i := i + 1;
      }
      StoppedSession(start, inputs, i);
    }
  }

  // A line as read_line delivers it, with at most as many tokens as the token array holds and names that fit.
  predicate Typed(input: Input) {
    && Printable(input.line) && |input.line| < INPUT_SIZE
    && |Split(input.line, BLANK)| <= MAX_TOKENS
    && GoodInput(input)
  }

  lemma TrimmedTokens(line: Text)
    requires Printable(line)
    ensures Split(Trim(line), BLANK) == Split(line, BLANK)
  {
    PrintableTrims(line);
  }

  lemma {:induction false} StoppedSession(start: Machine, inputs: seq<Input>, i: nat)
    requires i <= |inputs| && (i < |inputs| ==> !Session(start, inputs[..i]).running)
    ensures Session(start, inputs) == Session(start, inputs[..i])
    decreases |inputs|
  {
    hide Turn;
    if i < |inputs| {
      var k := |inputs| - 1;
      assert inputs[..k][..i] == inputs[..i];
      StoppedSession(start, inputs[..k], i);
      StoppedTurn(Session(start, inputs[..k]), inputs[k]);
    } else {
      assert inputs[..i] == inputs;
    }
  }

  lemma TickCountable(procs: Procs, ticks: int)
    requires Countable(procs, ticks)
    ensures Countable(Tick(procs), ticks + 1)
  {
  }

  // Joining tokens of a line never makes them longer than the line.
  lemma {:induction false} JoinSplitLength(s: Text, d: Byte)
    ensures |Join(Split(s, d), d)| <= |s|
    decreases |s|
  {
    if s != [] {
      if s[0] == d {
        JoinSplitLength(s[1..], d);
      } else {
        var n := RunLength(s, d);
        JoinSplitLength(s[n..], d);
        if n < |s| {
          JoinSplitLength(s[n + 1..], d);
          assert s[n..][1..] == s[n + 1..];
        }
        assert ([s[..n]] + Split(s[n..], d))[1..] == Split(s[n..], d);
      }
    }
  }

  lemma {:induction false} JoinSuffix(words: seq<Text>, k: nat, d: Byte)
    requires k <= |words|
    ensures |Join(words[k..], d)| <= |Join(words, d)|
    decreases k
  {
    if k == 0 {
      assert words[0..] == words;
    } else {
      JoinSuffix(words[1..], k - 1, d);
      assert words[1..][k - 1..] == words[k..];
    }
  }

  lemma {:induction false} TrimShort(s: Text)
    ensures |Trim(s)| <= |s| && forall c | c in Trim(s) :: c in s
  {
  }

  lemma {:induction false} TokensFrom(s: Text, d: Byte)
    ensures forall i | 0 <= i < |Split(s, d)| :: forall c | c in Split(s, d)[i] :: c in s
    decreases |s|
  {
    if s != [] {
      if s[0] == d {
        TokensFrom(s[1..], d);
      } else {
        TokensFrom(s[RunLength(s, d)..], d);
      }
    }
  }

  lemma LineIsDispatchable(input: Input)
    requires Typed(input)
    ensures Dispatchable(Split(Trim(input.line), BLANK))
  {
    var line, tokens := Trim(input.line), Split(Trim(input.line), BLANK);
    TrimShort(input.line);
    TokensFrom(line, BLANK);
    JoinSplitLength(line, BLANK);
    if |tokens| >= 3 { JoinSuffix(tokens, 2, BLANK); }
    assert NUL !in input.line;
    forall i | 0 <= i < |tokens| ensures NUL !in tokens[i] {
    }
  }

  // Commands that only print: echo, ls, memstat, ps, clear, help, cat and pwd.
  const QUIET: seq<Text> := ["echo", "ls", "memstat", "ps", "clear", "help", "cat", "pwd"]

  // What the tokenizer and the size of an input line guarantee, and names that fit.
  predicate Dispatchable(tokens: seq<Text>) {
    && (forall i | 0 <= i < |tokens| :: NUL !in tokens[i])
    && GoodCommand(Parse(tokens))
    && (|tokens| >= 3 ==> |Join(tokens[2..], BLANK)| < CONTENT_SIZE)
  }

  lemma ParseCases(tokens: seq<Text>)
    requires |tokens| > 0 && 0 < |tokens[0]| <= 32
    ensures tokens[0] in QUIET ==> Parse(tokens) == Nop
    ensures tokens[0] == "mkdir" ==> Parse(tokens) == if |tokens| < 2 then Nop else Mkdir(tokens[1])
    ensures tokens[0] == "touch" ==> Parse(tokens) == if |tokens| < 2 then Nop else Touch(tokens[1])
    ensures tokens[0] == "exit" ==> Parse(tokens) == Exit
    ensures tokens[0] == "write" ==>
              Parse(tokens) == if |tokens| < 3 then Nop else Fill(tokens[1], Join(tokens[2..], BLANK))
    ensures tokens[0] == "rm" ==> Parse(tokens) == if |tokens| < 2 then Nop else Remove(tokens[1])
    ensures tokens[0] == "cd" ==> Parse(tokens) == CdCommand(tokens)
    ensures tokens[0] == "save" ==> Parse(tokens) == Save
    ensures tokens[0] == "load" ==> Parse(tokens) == Load
    ensures tokens[0] == "halt" ==> Parse(tokens) == Halt
    ensures tokens[0] !in ["mkdir", "touch", "exit", "write", "rm", "cd", "save", "load", "halt"] ==> Parse(tokens) == Nop
  {
  }

  lemma GoodArgs(tokens: seq<Text>)
    requires Dispatchable(tokens) && |tokens| >= 1 && 0 < |tokens[0]| <= 32
    ensures |tokens| >= 2 && (tokens[0] == "mkdir" || tokens[0] == "touch") ==> GoodName(tokens[1])
  {
    ParseCases(tokens);
  }

  lemma NopStep(m: Machine, disk: bool)
    ensures Step(m, Nop, disk) == m
  {
  }

  // Only save and load look at the disk.
  lemma DiskFree(m: Machine, cmd: Command, disk: bool)
    ensures !cmd.Save? && !cmd.Load? ==> Step(m, cmd, disk) == Step(m, cmd, true)
  {
  }

  // No process has been ticked more often than the system.
  predicate Countable(procs: Procs, ticks: int) {
    0 <= ticks && |procs| == MAX_PROCESSES && forall i | 0 <= i < MAX_PROCESSES :: procs[i].ticks <= ticks
  }

  lemma SoundMachine(m: Machine)
    requires MachineInv(m)
    ensures Owns(m.fs) && Countable(m.procs, m.ticks)
  {
    if Halted(m) { WipedOwns(m.fs.next); }
  }

  lemma ZeroProcs(s: seq<Byte>)
    requires |s| == RAM_SIZE && forall p | 0 <= p < DATA_REGION_OFFSET :: s[p] == NUL
    ensures ProcsOf(s) == WipedProcs()
  {
    forall i | 0 <= i < MAX_PROCESSES ensures ProcAt(s, i) == Process(0, 0, 0) {
    }
  }

  lemma ZeroTexts(s: seq<Byte>)
    requires |s| == RAM_SIZE && TableOf(s) == BlankTable
    ensures TextsOf(s) == map[]
  {
    forall i | 0 <= i < MAX_INODES ensures !InodeAt(s, i).Stored() {
      assert TableOf(s)[i] == InodeAt(s, i);
    }
  }

  lemma WipedOwns(next: int)
    ensures Owns(Fs(WipedTable(), next, InitialChain, map[])) && WipedTable() == BlankTable
    ensures Countable(WipedProcs(), 0)
  {
    InitialTiled();
  }

  // The command does nothing but make dir the current directory.
  ghost predicate MovesTo(m: Machine, cmd: Command, dir: int) {
    Step(m, cmd, true) == m.(cwd := dir)
  }

  lemma MakeStep(m: Machine, name: Text, kind: int, cmd: Command)
    requires (kind == INODE_DIR && cmd == Mkdir(name)) || (kind == INODE_FILE && cmd == Touch(name))
    ensures Step(m, cmd, true) == m.(fs := FileModel.Create(m.fs, m.cwd, name, kind).0)
  {
  }

  lemma SaveStep(m: Machine)
    ensures Step(m, Save, true) == m.(image := Image(m.fs, m.procs))
  {
  }

  lemma LoadStep(m: Machine)
    ensures Step(m, Load, true)
         == if m.image.NoImage? then m else m.(fs := m.image.fs.(next := m.fs.next), procs := m.image.procs)
  {
  }

  lemma HaltStep(m: Machine)
    ensures Step(m, Halt, true) == Wiped(m)
  {
  }

  lemma NoDisk(m: Machine)
    ensures Step(m, Save, false) == m && Step(m, Load, false) == m
  {
  }

  lemma RemoveStep(m: Machine, name: Text, id: int)
    requires id == Lookup(m.fs.table, m.cwd, name) && id != -1
    ensures Step(m, Remove(name), true) == m.(fs := FileModel.Delete(m.fs, id).0)
  {
  }

  lemma FillStep(m: Machine, name: Text, id: int, content: Text)
    requires id == Lookup(m.fs.table, m.cwd, name) && FileModel.Valid(m.fs.table, id) && m.fs.table[id].kind == INODE_FILE
    ensures Step(m, Fill(name, content), true) == m.(fs := FileModel.Write(m.fs, id, content).0)
  {
  }

  lemma UpStep(m: Machine)
    ensures Step(m, CdUp, true) == m.(cwd := ParentOf(m.fs.table, m.cwd))
  {
  }

  lemma CwdIsSlot(m: Machine)
    requires MachineInv(m) && m.running
    ensures |m.fs.table| == MAX_INODES && Slot(m.cwd)
  {
  }

  lemma HomeMoves(m: Machine)
    ensures MovesTo(m, CdHome, HOME_ID)
  {
  }

  lemma RootMoves(m: Machine)
    ensures MovesTo(m, CdRoot, 0)
  {
  }

  // ---------- joining one by one ----------

  // The content buffer after k words: all but the last one are followed by a blank.
  function JoinedUpTo(words: seq<Text>, k: int): Text
    requires 0 <= k <= |words|
  {
    Join(words[..k], BLANK) + if 0 < k < |words| then [BLANK] else []
  }

  lemma JoinStart(words: seq<Text>)
    ensures JoinedUpTo(words, 0) == []
  {
  }

  lemma JoinEnd(words: seq<Text>)
    ensures JoinedUpTo(words, |words|) == Join(words, BLANK)
  {
    assert words[..|words|] == words;
  }

  lemma JoinStep(words: seq<Text>, k: int)
    requires 0 <= k < |words|
    ensures JoinedUpTo(words, k + 1) == JoinedUpTo(words, k) + words[k] + if k < |words| - 1 then [BLANK] else []
  {
    assert words[..k + 1] == words[..k] + [words[k]];
    PathLaws.JoinSnoc(words[..k], words[k], BLANK);
  }

  lemma {:induction false} JoinPrefixFits(words: seq<Text>, k: int)
    requires 0 <= k <= |words|
    ensures |JoinedUpTo(words, k)| <= |Join(words, BLANK)|
    decreases |words| - k
  {
    if k == |words| {
      JoinEnd(words);
    } else {
      JoinStep(words, k);
      JoinPrefixFits(words, k + 1);
    }
  }

  lemma {:induction false} JoinNoNul(words: seq<Text>)
    requires forall i | 0 <= i < |words| :: NUL !in words[i]
    ensures NUL !in Join(words, BLANK)
  {
    if |words| > 1 {
      JoinNoNul(words[1..]);
    }
  }

  // Rewriting the process table leaves the file system alone.
  lemma ProcWriteKeepsFs(s: seq<Byte>, t: seq<Byte>, was: Fs)
    requires Holding(s, was) && AgreeOutside(s, t, PROCESS_TABLE_OFFSET, DATA_REGION_OFFSET)
    ensures TableOf(t) == was.table && TextsOf(t) == was.texts && Describes(t, was.chain)
  {
    forall i | 0 <= i < MAX_INODES ensures InodeAt(t, i) == InodeAt(s, i) {
      InodeFrame(s, t, i);
    }
    assert TableOf(t) == TableOf(s);
    DescribesFrame(s, t, was.chain);
    hide InodeAt, Holding;
    LowTexts(s, t, was);
  }
}
