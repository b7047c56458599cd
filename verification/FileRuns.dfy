/** Every sequence of fs_create, fs_delete and fs_write from boot. */
module FileRuns {
  import opened Layout
  import opened Bytes
  import opened Blocks
  import opened AllocatorLaws
  import opened FileModel
  import opened TreeLaws
  import opened OwnershipLaws

  // ---------- boot ----------

  lemma BootNode(i: int)
    requires Valid(BootTable, i)
    ensures NodeOk(BootTable, 6, i)
  {
    if i >= 6 {
      assert BootTable[i] == Blank;
    } else {
      assert BootTable[i] == BootDirs[i];
      assert Shape(BootDirs[i]);
    }
  }

  lemma BootKids(d: int)
    requires Valid(BootTable, d)
    ensures BootTable[d].Kids() == if d == 0 then [1, 2, 4, 5] else if d == 2 then [3] else []
  {
    if d >= 6 {
      assert BootTable[d] == Blank;
    } else {
      assert BootTable[d] == BootDirs[d];
      var kids := if d == 0 then [1, 2, 4, 5] else if d == 2 then [3] else [];
      assert BootDirs[d].children == kids + seq(MAX_CHILDREN - |kids|, _ => -1);
    }
  }

  lemma BootEntry(i: int)
    requires Valid(BootTable, i)
    ensures BootTable[i] == if i < 6 then BootDirs[i] else Blank
    ensures !BootTable[i].Stored()
  {
  }

  lemma BootChildren(d: int, k: int)
    requires Valid(BootTable, d)
    ensures k in BootTable[d].Kids() ==> IsChild(BootTable, d, k)
    ensures 1 <= k < |BootTable| && BootTable[k].active && BootTable[k].parent == d ==> k in BootTable[d].Kids()
    ensures 1 <= k < |BootTable| && BootTable[k].active ==> 0 <= BootTable[k].parent < 6
  {
    BootKids(d);
    if Valid(BootTable, k) { BootEntry(k); }
  }

  lemma BootSiblings(d: int)
    requires Valid(BootTable, d)
    ensures SiblingsDiffer(BootTable, BootTable[d].Kids())
  {
    BootKids(d);
    BootEntry(1);
    BootEntry(2);
    BootEntry(4);
    BootEntry(5);
  }

  lemma BootTree()
    ensures Tree(BootTable, 6)
  {
    hide Shape, SiblingsDiffer;
    forall i | 0 <= i < |BootTable| ensures NodeOk(BootTable, 6, i) {
      BootNode(i);
    }
    forall d | 0 <= d < |BootTable| ensures SiblingsDiffer(BootTable, BootTable[d].Kids()) {
      BootSiblings(d);
    }
    forall d, k | 0 <= d < |BootTable| && k in BootTable[d].Kids() ensures IsChild(BootTable, d, k) {
      BootChildren(d, k);
    }
    forall k | 1 <= k < |BootTable| && BootTable[k].active ensures k in BootTable[BootTable[k].parent].Kids() {
      BootNode(k);
      BootChildren(BootTable[k].parent, k);
    }
    TreeFrom(BootTable, 6);
  }

  lemma BootRooted()
    ensures Rooted(BootTable)
  {
    forall k | 1 <= k < |BootTable| && BootTable[k].active
      ensures Valid(BootTable, BootTable[k].parent) && BootTable[BootTable[k].parent].active
    {
      BootChildren(0, k);
      BootEntry(BootTable[k].parent);
    }
  }

  // The machine boots into a well-formed tree with nothing stored.
  lemma BootInv()
    ensures Inv(Boot) && Rooted(Boot.table)
  {
    BootTree();
    BootRooted();
    InitialTiled();
    forall i | 0 <= i < |BootTable| ensures !BootTable[i].Stored() {
      BootEntry(i);
    }
  }

  // The directories of a fresh boot, and the names that lead to them.
  lemma BootNames()
    ensures BootTable[0].name == "/" && BootTable[0].parent == -1 && BootTable[0].Kids() == [1, 2, 4, 5]
    ensures Lookup(BootTable, 0, "bin") == 1 && Lookup(BootTable, 0, "home") == 2
    ensures Lookup(BootTable, 2, "chandan") == 3
    ensures Lookup(BootTable, 0, "tmp") == 4 && Lookup(BootTable, 0, "sys") == 5
    ensures forall i | 0 <= i < MAX_INODES :: BootTable[i].active == (i < 6)
    ensures forall i | 0 <= i < 6 :: BootTable[i].kind == INODE_DIR && (i !in {0, 2} ==> BootTable[i].Kids() == [])
  {
    hide Lookup, Tree;
    BootTree();
    BootKids(0);
    forall i | 0 <= i < MAX_INODES
      ensures BootTable[i].active == (i < 6)
      ensures i < 6 ==> BootTable[i].kind == INODE_DIR && (i !in {0, 2} ==> BootTable[i].Kids() == [])
    {
      BootEntry(i);
      BootKids(i);
    }
    BootFound(1);
    BootFound(2);
    BootFound(3);
    BootFound(4);
    BootFound(5);
  }

  lemma BootFound(i: int)
    requires 1 <= i < 6
    ensures Lookup(BootTable, BootDirs[i].parent, BootDirs[i].name) == i
  {
    BootTree();
    BootEntry(i);
    hide Shape;
    LookupOwnName(BootTable, 6, i);
  }

  // ---------- runs ----------

  datatype Op = Mk(parent: int, name: Text, kind: int) | Rm(id: int) | Put(id: int, data: Text)

  // What the callers of fs.c pass: names that fit an inode, one of the two kinds, C strings.
  predicate GoodOp(op: Op) {
    match op
    case Mk(_, name, kind) => GoodName(name) && kind in {INODE_FILE, INODE_DIR}
    case Rm(_) => true
    case Put(_, data) => NUL !in data
  }

  function Apply(fs: Fs, op: Op): (Fs, int) {
    match op
    case Mk(parent, name, kind) => Create(fs, parent, name, kind)
    case Rm(id) => Delete(fs, id)
    case Put(id, data) => Write(fs, id, data)
  }

  // The state a run reaches, and the results it has returned.
  function Run(start: Fs, ops: seq<Op>): (r: (Fs, seq<int>))
    ensures |r.1| == |ops|
    decreases |ops|
  {
    if ops == [] then (start, [])
    else
      var (fs, results) := Run(start, ops[..|ops| - 1]);
      var (fs', r) := Apply(fs, ops[|ops| - 1]);
      (fs', results + [r])
  }

  predicate GoodRun(ops: seq<Op>) {
    forall i | 0 <= i < |ops| :: GoodOp(ops[i])
  }

  lemma FreshSlot(fs: Fs)
    requires Inv(fs)
    ensures Owns(fs) && (Valid(fs.table, fs.next) ==> !fs.table[fs.next].Stored())
  {
  }

  lemma StepInv(fs: Fs, op: Op)
    requires Inv(fs) && GoodOp(op)
    ensures Inv(Apply(fs, op).0)
  {
    hide Tree, Owns;
    FreshSlot(fs);
    match op
    case Mk(parent, name, kind) => CreateTree(fs, parent, name, kind); CreateOwns(fs, parent, name, kind);
    case Rm(id) => DeleteTree(fs, id); DeleteOwns(fs, id);
    case Put(id, data) => WriteInv(fs, id, data);
  }

  // In every reachable state the tree is well formed and the used blocks are the contents of the files, one to one.
  lemma {:induction false} RunInv(ops: seq<Op>)
    requires GoodRun(ops)
    ensures Inv(Run(Boot, ops).0)
  {
    if ops == [] {
      BootInv();
    } else {
      var k := |ops| - 1;
      RunInv(ops[..k]);
      StepInv(Run(Boot, ops[..k]).0, ops[k]);
    }
  }

  // ---------- a plain map from file to content ----------

  datatype Content = Nothing | Just(text: Text)

  // What file id should hold by its own history: the data of the last write to it, provided that write succeeded
  // and no successful delete followed; what it held at the start if there was neither.
  function LastText(start: Content, ops: seq<Op>, results: seq<int>, id: int): Content
    requires |results| == |ops|
  {
    if ops == [] then start
    else
      var k := |ops| - 1;
      var before := LastText(start, ops[..k], results[..k], id);
      match ops[k]
      case Put(i, data) => if i != id then before else if results[k] == 0 then Just(data) else Nothing
      case Rm(i) => if i == id && results[k] == 0 then Nothing else before
      case Mk(_, _, _) => before
  }

  function ContentOf(fs: Fs, id: int): Content {
    if id in fs.texts then Just(fs.texts[id]) else Nothing
  }

  // What contents depend on: one block for each file with content, and no inode in use from the counter on.
  ghost predicate Sane(fs: Fs) {
    && |fs.table| == MAX_INODES && 0 <= fs.next <= MAX_INODES
    && Owns(fs)
    && (forall i | 0 <= i < MAX_INODES && fs.table[i].Stored() :: fs.table[i].kind == INODE_FILE)
    && (forall i | fs.next <= i < MAX_INODES :: !fs.table[i].active)
  }

  lemma InvIsSane(fs: Fs)
    requires Inv(fs)
    ensures Sane(fs)
  {
    forall i | 0 <= i < MAX_INODES && fs.table[i].Stored() ensures fs.table[i].kind == INODE_FILE {
      assert Shape(fs.table[i]);
    }
  }

  lemma StepSane(fs: Fs, op: Op)
    requires Sane(fs) && GoodOp(op)
    ensures Sane(Apply(fs, op).0)
  {
    hide Owns, AfterDealloc, AfterAlloc, AllocResult, IndexOf, Lookup;
    match op
    case Mk(parent, name, kind) => CreateOwns(fs, parent, name, kind);
    case Rm(id) => DeleteOwns(fs, id);
    case Put(id, data) => WriteOwns(fs, id, data);
  }

  lemma OnlyFilesStore(fs: Fs, i: int)
    requires Sane(fs)
    ensures i in fs.texts ==> CanWrite(fs, i)
  {
    if i in fs.texts { assert Holds(fs, i); }
  }

  // A write that fails leaves the file without content; so does nothing but a write or a delete of that very file.
  lemma StepContent(fs: Fs, op: Op, id: int)
    requires Sane(fs) && GoodOp(op)
    ensures var (fs', r) := Apply(fs, op);
            ContentOf(fs', id) == match op
              case Put(i, data) => if i != id then ContentOf(fs, id) else if r == 0 then Just(data) else Nothing
              case Rm(i) => if i == id && r == 0 then Nothing else ContentOf(fs, id)
              case Mk(_, _, _) => ContentOf(fs, id)
  {
    hide Owns, Unlinked, CanCreate, Linked, AfterDealloc, AfterAlloc, AllocResult;
    match op
    case Mk(_, _, _) =>
    case Rm(i) =>
      if CanDelete(fs, i) { DroppedText(fs, i); }
    case Put(i, data) =>
      if CanWrite(fs, i) { DroppedText(fs, i); }
      else { OnlyFilesStore(fs, i); }
  }

  // From any sane state, contents are what each file's own history says.
  lemma {:induction false} ContentIsLastText(start: Fs, ops: seq<Op>, id: int)
    requires Sane(start) && GoodRun(ops)
    ensures var (fs, results) := Run(start, ops);
            Sane(fs) && ContentOf(fs, id) == LastText(ContentOf(start, id), ops, results, id)
  {
    if ops != [] {
      hide Sane, GoodOp, Apply, ContentOf;
      var k := |ops| - 1;
      var (fs, results) := Run(start, ops[..k]);
      ContentIsLastText(start, ops[..k], id);
      StepContent(fs, ops[k], id);
      StepSane(fs, ops[k]);
      assert Run(start, ops).1[..k] == results;
    }
  }

  // What fs_read gives back of a file with this content.
  function ReadOf(content: Content): (int, Text) {
    match content
    case Just(text) => (|text| + 1, text)
    case Nothing => (0, [])
  }

  lemma ReadIsContent(fs: Fs, id: int)
    requires Sane(fs)
    ensures Read(fs, id) == if CanWrite(fs, id) then ReadOf(ContentOf(fs, id)) else (-1, [])
  {
    if id in fs.texts { assert Holds(fs, id); }
  }

  // In every reachable state fs_read gives back the last text written, whatever was done to other files since.
  lemma ReadIsLastWrite(ops: seq<Op>, id: int)
    requires GoodRun(ops)
    ensures var (fs, results) := Run(Boot, ops);
            Read(fs, id) == if CanWrite(fs, id) then ReadOf(LastText(Nothing, ops, results, id)) else (-1, [])
  {
    BootInv();
    InvIsSane(Boot);
    ContentIsLastText(Boot, ops, id);
    ReadIsContent(Run(Boot, ops).0, id);
  }

  // ---------- an inode as its user knows it ----------

  // Inode i is in use with the name, type and place it had.
  predicate Intact(t: Table, t': Table, i: int) {
    && Valid(t, i) && Valid(t', i) && t'[i].active
    && t'[i].name == t[i].name && t'[i].kind == t[i].kind && t'[i].parent == t[i].parent
  }

  // No operation touches an inode in use but its own delete, and a create that gives out its id again.
  lemma StepKeepsInode(fs: Fs, op: Op, i: int)
    requires Valid(fs.table, i) && fs.table[i].active && op != Rm(i) && i != fs.next
    ensures Intact(fs.table, Apply(fs, op).0.table, i)
  {
    hide AfterDealloc, AfterAlloc, AllocResult, IndexOf, Lookup;
  }

  lemma {:induction false} RunKeepsInode(start: Fs, ops: seq<Op>, i: int)
    requires Sane(start) && GoodRun(ops) && Valid(start.table, i) && start.table[i].active && Rm(i) !in ops
    ensures var fs := Run(start, ops).0; Sane(fs) && Intact(start.table, fs.table, i)
  {
    if ops != [] {
      hide Owns, GoodOp, Apply;
      var k := |ops| - 1;
      var fs := Run(start, ops[..k]).0;
      RunKeepsInode(start, ops[..k], i);
      assert ops[k] in ops;
      StepSane(fs, ops[k]);
      StepKeepsInode(fs, ops[k], i);
    }
  }

  // ---------- which files and directories there are ----------

  // What there is to say of a file or directory in use.
  datatype Entry = Absent | Entry(name: Text, kind: int, parent: int)

  function EntryOf(t: Table, id: int): Entry {
    if Valid(t, id) && t[id].active then Entry(t[id].name, t[id].kind, t[id].parent) else Absent
  }

  // The entry of id by its own history: as it was created last, unless it was deleted since.
  function LastEntry(start: Entry, ops: seq<Op>, results: seq<int>, id: int): Entry
    requires |results| == |ops|
  {
    if ops == [] then start
    else
      var k := |ops| - 1;
      var before := LastEntry(start, ops[..k], results[..k], id);
      match ops[k]
      case Mk(parent, name, kind) => if id != -1 && results[k] == id then Entry(name, kind, parent) else before
      case Rm(i) => if i == id && results[k] == 0 then Absent else before
      case Put(_, _) => before
  }

  lemma StepEntry(fs: Fs, op: Op, id: int)
    requires Sane(fs)
    ensures var (fs', r) := Apply(fs, op);
            EntryOf(fs'.table, id) == match op
              case Mk(parent, name, kind) =>
                if id != -1 && r == id then Entry(name, kind, parent) else EntryOf(fs.table, id)
              case Rm(i) => if i == id && r == 0 then Absent else EntryOf(fs.table, id)
              case Put(_, _) => EntryOf(fs.table, id)
  {
    hide Owns, AfterDealloc, AfterAlloc, AllocResult, IndexOf, Lookup;
  }

  // The inode table refines a plain map from id to name, type and place.
  lemma {:induction false} EntriesAreLast(start: Fs, ops: seq<Op>, id: int)
    requires Sane(start) && GoodRun(ops)
    ensures var (fs, results) := Run(start, ops);
            EntryOf(fs.table, id) == LastEntry(EntryOf(start.table, id), ops, results, id)
  {
    if ops != [] {
      hide Sane, GoodOp, Apply, EntryOf;
      var k := |ops| - 1;
      var (fs, results) := Run(start, ops[..k]);
      EntriesAreLast(start, ops[..k], id);
      ContentIsLastText(start, ops[..k], id);
      StepEntry(fs, ops[k], id);
      assert Run(start, ops).1[..k] == results;
    }
  }

  // Operation i of a run has created id, and no later one has deleted it.
  predicate MadeAt(ops: seq<Op>, results: seq<int>, id: int, kind: int, i: int)
    requires |results| == |ops|
  {
    && 0 <= i < |ops| && ops[i].Mk? && ops[i].kind == kind && results[i] == id
    && forall j | i < j < |ops| :: !(ops[j] == Rm(id) && results[j] == 0)
  }

  ghost predicate Made(ops: seq<Op>, results: seq<int>, id: int, kind: int)
    requires |results| == |ops|
  {
    id != -1 && exists i :: MadeAt(ops, results, id, kind, i)
  }

  lemma MadeBefore(ops: seq<Op>, results: seq<int>, id: int, kind: int)
    requires |results| == |ops| > 0 && id != -1
    ensures var k := |ops| - 1;
            Made(ops, results, id, kind)
            <==> (ops[k].Mk? && ops[k].kind == kind && results[k] == id)
                 || (!(ops[k] == Rm(id) && results[k] == 0) && Made(ops[..k], results[..k], id, kind))
  {
    var k := |ops| - 1;
    if Made(ops, results, id, kind) {
      var i :| MadeAt(ops, results, id, kind, i);
      if i < k { assert MadeAt(ops[..k], results[..k], id, kind, i); }
    }
    if ops[k].Mk? && ops[k].kind == kind && results[k] == id {
      assert MadeAt(ops, results, id, kind, k);
    }
    if !(ops[k] == Rm(id) && results[k] == 0) && Made(ops[..k], results[..k], id, kind) {
      var i :| MadeAt(ops[..k], results[..k], id, kind, i);
      assert MadeAt(ops, results, id, kind, i);
    }
  }

  // In every run from boot, fs_write is possible for exactly those ids that were returned for a file and not deleted.
  lemma {:induction false} FilesAreMade(ops: seq<Op>, id: int)
    requires GoodRun(ops)
    ensures var (fs, results) := Run(Boot, ops);
            && (CanWrite(fs, id) <==> Made(ops, results, id, INODE_FILE))
            && (id >= fs.next ==> !Made(ops, results, id, INODE_FILE) && !Made(ops, results, id, INODE_DIR))
  {
    if ops == [] {
      BootEntryKind(id);
    } else {
      var k := |ops| - 1;
      var (fs, results) := Run(Boot, ops[..k]);
      FilesAreMade(ops[..k], id);
      RunInv(ops[..k]);
      MadeStep(fs, results, ops, id);
    }
  }

  lemma BootEntryKind(id: int)
    ensures !CanWrite(Boot, id)
  {
    if Valid(BootTable, id) { BootEntry(id); }
  }

  lemma MadeStep(fs: Fs, results: seq<int>, ops: seq<Op>, id: int)
    requires ops != [] && |results| == |ops| - 1 && Inv(fs)
    requires CanWrite(fs, id) <==> Made(ops[..|ops| - 1], results, id, INODE_FILE)
    requires id >= fs.next ==>
               !Made(ops[..|ops| - 1], results, id, INODE_FILE) && !Made(ops[..|ops| - 1], results, id, INODE_DIR)
    ensures var (fs', r) := Apply(fs, ops[|ops| - 1]);
            && (CanWrite(fs', id) <==> Made(ops, results + [r], id, INODE_FILE))
            && (id >= fs'.next ==>
                  !Made(ops, results + [r], id, INODE_FILE) && !Made(ops, results + [r], id, INODE_DIR))
  {
    hide Made, Inv, Sane, Apply;
    var k := |ops| - 1;
    var (fs', r) := Apply(fs, ops[k]);
    assert (results + [r])[..k] == results;
    InvIsSane(fs);
    StepEntry(fs, ops[k], id);
    StepResult(fs, ops[k]);
    if id != -1 {
      MadeBefore(ops, results + [r], id, INODE_FILE);
      MadeBefore(ops, results + [r], id, INODE_DIR);
    } else {
      NoneMade(ops, results + [r]);
    }
  }

  lemma NoneMade(ops: seq<Op>, results: seq<int>)
    requires |results| == |ops|
    ensures !Made(ops, results, -1, INODE_FILE) && !Made(ops, results, -1, INODE_DIR)
  {
  }

  // A create returns -1 or the counter, and moves the counter past it.
  lemma StepResult(fs: Fs, op: Op)
    requires Inv(fs)
    ensures var (fs', r) := Apply(fs, op);
            && fs.next <= fs'.next
            && (op.Mk? ==> r == -1 || (r == fs.next < fs'.next))
  {
    hide Tree, Owns;
  }

  // ---------- inode ids ----------

  function Created(ops: seq<Op>, results: seq<int>): nat
    requires |results| == |ops|
  {
    if ops == [] then 0
    else
      var k := |ops| - 1;
      Created(ops[..k], results[..k]) + if ops[k].Mk? && results[k] != -1 then 1 else 0
  }

  // Ids are handed out one by one and never again: 122 inodes can be created in one boot.
  lemma {:induction false} IdsAreCounted(ops: seq<Op>)
    requires GoodRun(ops)
    ensures var (fs, results) := Run(Boot, ops); fs.next == Created(ops, results) + 6 <= MAX_INODES
  {
    if ops != [] {
      var k := |ops| - 1;
      IdsAreCounted(ops[..k]);
      RunInv(ops[..k]);
      assert Run(Boot, ops).1[..k] == Run(Boot, ops[..k]).1;
    }
  }

  // ---------- when a write fails ----------

  // fs_write on a file fails exactly when no block is large enough once the old content has been given back.
  lemma WriteFails(fs: Fs, id: int, data: Text)
    requires Inv(fs) && CanWrite(fs, id)
    ensures Write(fs, id, data).1 == -1 <==> !CanServe(Dropped(fs, id).chain, |data| + 1)
  {
    DroppedOwns(fs, id);
    AllocComplete(Dropped(fs, id).chain, |data| + 1);
  }

  // A failed write is not without effect: it changes nothing exactly when the file had no content.
  lemma FailedWriteLosesContent(fs: Fs, id: int, data: Text)
    requires Inv(fs) && Write(fs, id, data).1 == -1
    ensures Write(fs, id, data).0 == fs <==> id !in fs.texts
    ensures id !in Write(fs, id, data).0.texts
  {
    InvIsSane(fs);
    OnlyFilesStore(fs, id);
    if CanWrite(fs, id) { DroppedText(fs, id); }
  }

  // Some text makes the write fail in every state: one as long as the data region.
  lemma OverlongWriteFails(fs: Fs, id: int, data: Text)
    requires Inv(fs) && CanWrite(fs, id) && |data| >= DATA_REGION_SIZE
    ensures Write(fs, id, data).1 == -1
  {
    WriteFails(fs, id, data);
    DroppedOwns(fs, id);
    var c := Dropped(fs, id).chain;
    forall b | b in c ensures !b.Fits(|data| + 1) {
      var i :| 0 <= i < |c| && c[i] == b;
      InRegion(c, i);
    }
  }

  lemma HoldsText(fs: Fs, id: int)
    requires Owns(fs) && id in fs.texts
    ensures Holds(fs, id) && Tiled(fs.chain)
  {
  }

  // Rewriting a file with a text no longer than the one it holds succeeds, however fragmented the chain is.
  lemma ShorterRewriteSucceeds(fs: Fs, id: int, data: Text)
    requires Inv(fs) && id in fs.texts && |data| <= |fs.texts[id]|
    ensures Write(fs, id, data).1 == 0
  {
    hide Tree, Owns, Find, AfterDealloc, AfterAlloc, AllocResult;
    InvIsSane(fs);
    OnlyFilesStore(fs, id);
    HoldsText(fs, id);
    var b := OwnedIsLive(fs, id);
    RefitAfterDealloc(fs.chain, fs.table[id].dataOffset, |data| + 1);
  }

  lemma BelowCounter(fs: Fs, i: int)
    requires Inv(fs) && Valid(fs.table, i) && fs.table[i].active
    ensures i < fs.next
  {
  }

  lemma WriteThenRead(fs: Fs, id: int, text: Text)
    requires Inv(fs) && CanWrite(fs, id) && NUL !in text
    ensures Read(Write(fs, id, text).0, id)
         == if CanServe(Dropped(fs, id).chain, |text| + 1) then (|text| + 1, text) else (0, [])
  {
    hide Inv, Sane, Read, CanServe, Dropped;
    var op := Put(id, text);
    InvIsSane(fs);
    BelowCounter(fs, id);
    StepSane(fs, op);
    StepContent(fs, op, id);
    StepKeepsInode(fs, op, id);
    ReadIsContent(Write(fs, id, text).0, id);
    WriteFails(fs, id, text);
  }

  lemma {:induction false} SameNames(t: Table, t': Table, kids: seq<int>, name: Text)
    requires |t'| == |t| && forall i | 0 <= i < |t| :: t'[i].name == t[i].name && t'[i].active == t[i].active
    ensures FirstNamed(t', kids, name) == FirstNamed(t, kids, name)
  {
    if kids != [] {
      SameNames(t, t', kids[1..], name);
    }
  }

  // A write changes no lookup.
  lemma WriteLookup(fs: Fs, id: int, data: Text, d: int, name: Text)
    ensures Lookup(Write(fs, id, data).0.table, d, name) == Lookup(fs.table, d, name)
  {
    hide AfterDealloc, AfterAlloc, AllocResult, FirstNamed;
    if Valid(fs.table, d) {
      SameNames(fs.table, Write(fs, id, data).0.table, fs.table[d].Kids(), name);
    }
  }

  lemma RunOne(start: Fs, ops: seq<Op>, op: Op)
    ensures var (fs, results) := Run(start, ops);
            Run(start, ops + [op]) == (Apply(fs, op).0, results + [Apply(fs, op).1])
  {
    assert (ops + [op])[..|ops|] == ops;
  }

  // Where a file can be created and a block is large enough, it can be created, written, found, read and deleted again.
  lemma FileLife(start: Fs, parent: int, name: Text, data: Text)
    requires Inv(start) && CanCreate(start, parent, name) && GoodName(name)
    requires NUL !in data && CanServe(start.chain, |data| + 1)
    ensures var id := start.next;
            var ops := [Mk(parent, name, INODE_FILE), Put(id, data)];
            var (fs, results) := Run(start, ops);
            var (fs', results') := Run(start, ops + [Rm(id)]);
            && results == [id, 0] && Lookup(fs.table, parent, name) == id && Read(fs, id) == (|data| + 1, data)
            && results' == [id, 0, 0] && Lookup(fs'.table, parent, name) == -1 && Read(fs', id) == (-1, [])
  {
    hide Inv, Create, Write, Delete, Read, Lookup, CanCreate, Run, CanServe;
    var id := start.next;
    var op1, op2, op3 := Mk(parent, name, INODE_FILE), Put(id, data), Rm(id);
    RunNone(start);
    RunOne(start, [], op1);
    RunOne(start, [op1], op2);
    RunOne(start, [op1, op2], op3);
    assert [] + [op1] == [op1] && [op1] + [op2] == [op1, op2];
    FileMade(start, parent, name);
    var fs1 := Create(start, parent, name, INODE_FILE).0;
    StepInv(start, op1);
    WriteFails(fs1, id, data);
    WriteThenRead(fs1, id, data);
    WriteLookup(fs1, id, data, parent, name);
    var fs2 := Write(fs1, id, data).0;
    StepInv(fs1, op2);
    WrittenStays(fs1, id, data);
    FileGone(fs2, id, parent, name);
  }

  lemma RunNone(start: Fs)
    ensures Run(start, []) == (start, [])
  {
  }

  lemma FileMade(fs: Fs, parent: int, name: Text)
    requires Inv(fs) && CanCreate(fs, parent, name) && GoodName(name)
    ensures var (fs', id) := Create(fs, parent, name, INODE_FILE);
            && id == fs.next && CanWrite(fs', id) && 0 < id && Lookup(fs'.table, parent, name) == id
            && Dropped(fs', id).chain == fs.chain
  {
    hide Lookup;
    CreatedSlot(fs, parent, name, INODE_FILE);
    CreateLookup(fs, parent, name, INODE_FILE, parent, name);
  }

  lemma WrittenStays(fs: Fs, id: int, data: Text)
    requires CanWrite(fs, id)
    ensures CanWrite(Write(fs, id, data).0, id) && Write(fs, id, data).1 in {0, -1}
  {
  }

  lemma FileGone(fs: Fs, id: int, parent: int, name: Text)
    requires Inv(fs) && CanWrite(fs, id) && 0 < id && Lookup(fs.table, parent, name) == id
    ensures var (fs', r) := Delete(fs, id);
            r == 0 && Lookup(fs'.table, parent, name) == -1 && Read(fs', id) == (-1, [])
  {
    hide Lookup;
    DeleteSucceeds(fs, id);
    DeleteLookup(fs, id, parent, name);
    DeleteShape(fs, id);
  }

  // ---------- a directory as an ordered list ----------

  lemma {:induction false} IndexOfNew(kids: seq<int>, id: int)
    requires id !in kids
    ensures IndexOf(kids + [id], id) == |kids|
  {
    if kids != [] {
      assert (kids + [id])[1..] == kids[1..] + [id];
      IndexOfNew(kids[1..], id);
    }
  }

  // Removing the child added last restores the children array slot by slot.
  lemma WithThenWithout(n: Inode, id: int)
    requires Shape(n) && n.kind == INODE_DIR && n.childCount < MAX_CHILDREN && id !in n.Kids()
    ensures WithoutChild(WithChild(n, id), id) == n
  {
    hide IndexOf;
    var n1, k := WithChild(n, id), n.childCount;
    assert n1.Kids() == n.Kids() + [id];
    IndexOfNew(n.Kids(), id);
    var c := WithoutChild(n1, id).children;
    assert n1.children[..k] == n.children[..k] && n1.children[k + 1..] == n.children[k + 1..];
    assert n1.children[k + 1..k + 1] == [];
    assert c == n.children[..k] + [-1] + n.children[k + 1..];
    assert n.children[k] == -1;
  }

  // Deleting what was created last gives back the children of the directory, in the same order and slots.
  lemma CreateThenDelete(fs: Fs, parent: int, name: Text, kind: int)
    requires Inv(fs) && GoodName(name) && kind in {INODE_FILE, INODE_DIR} && CanCreate(fs, parent, name)
    ensures var (fs1, id) := Create(fs, parent, name, kind);
            var (fs2, r) := Delete(fs1, id);
            && r == 0 && fs2.chain == fs.chain && fs2.texts == fs.texts
            && (forall i | 0 <= i < |fs.table| && i != id :: fs2.table[i] == fs.table[i])
  {
    hide Owns, Shape, SiblingsDiffer, Lookup, WithoutChild;
    CreateShape(fs, parent, name, kind);
    CreateSucceeds(fs, parent, name, kind);
    var (fs1, id) := Create(fs, parent, name, kind);
    assert Shape(fs.table[parent]);
    assert id in fs.table[parent].Kids() ==> IsChild(fs.table, parent, id);
    WithThenWithout(fs.table[parent], id);
    assert CanDelete(fs1, id);
    assert fs1.table[id].parent == parent;
    assert Unlinked(fs1.table, id)[parent] == fs.table[parent];
  }
}
