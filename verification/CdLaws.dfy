/** Theorems about cd and pwd in whole shell sessions. */
module CdLaws {
  import opened Layout
  import opened Bytes
  import opened Blocks
  import opened StringLaws
  import opened FileModel
  import opened TreeLaws
  import opened FileRuns
  import opened PathLaws
  import opened SchedulerModel
  import opened ShellModel
  import opened ShellLaws

  // ---------- cd and pwd ----------

  lemma ParseCd(name: Text)
    ensures Parse(["cd", name]) == if name == ".." then CdUp else if name == "/" then CdRoot else CdTo(name)
  {
  }

  // cd to one name after the other.
  function CdAll(m: Machine, names: seq<Text>): Machine
    decreases |names|
  {
    if names == [] then m else CdAll(Step(m, Parse(["cd", names[0]]), true), names[1..])
  }

  lemma {:induction false} CdAllFollows(m: Machine, names: seq<Text>)
    requires MachineInv(m) && m.running && AreWords(names, SLASH) && ".." !in names
    requires var id := Follow(m.fs.table, m.cwd, names);
             Valid(m.fs.table, id) && m.fs.table[id].kind == INODE_DIR
    ensures CdAll(m, names) == m.(cwd := Follow(m.fs.table, m.cwd, names))
    decreases |names|
  {
    hide Owns, Orderly, Parse, Shape, SiblingsDiffer;
    if names != [] {
      var t, child := m.fs.table, Lookup(m.fs.table, m.cwd, names[0]);
      LookupValid(t, m.fs.next, m.cwd, names[0]);
      ParseCd(names[0]);
      assert SLASH in "/";
      assert t[child].kind == INODE_DIR by {
        if |names| > 1 { assert Lookup(t, child, names[1..][0]) != -1; }
      }
      var m' := Step(m, Parse(["cd", names[0]]), true);
      assert m' == m.(cwd := child);
      CdAllFollows(m', names[1..]);
    }
  }

  // How far below the root a directory lies.
  ghost function Depth(t: Table, id: int): nat {
    if ParentsBelow(t) && Valid(t, id) then |Components(t, id)| else 0
  }

  // An attached directory below directories whose names have no slash.
  ghost predicate OnWay(t: Table, id: int) {
    && ParentsBelow(t) && LiveDir(t, id)
    && Attached(t, id) && AreWords(Components(t, id), SLASH)
  }

  lemma UpOnWay(t: Table, next: int, id: int)
    requires Tree(t, next) && OnWay(t, id) && id != 0
    ensures OnWay(t, t[id].parent) && Components(t, id) == Components(t, t[id].parent) + [t[id].name]
  {
    hide Shape, SiblingsDiffer;
    assert t[t[id].parent].kind == INODE_DIR;
    assert Attached(t, t[id].parent) && t[t[id].parent].active;
    FirstWords(Components(t, t[id].parent), t[id].name, SLASH);
  }

  lemma FirstWords(words: seq<Text>, w: Text, d: Byte)
    requires AreWords(words + [w], d)
    ensures AreWords(words, d)
  {
    assert forall i | 0 <= i < |words| :: (words + [w])[i] == words[i];
  }

  lemma DownOnWay(t: Table, next: int, d: int, name: Text)
    requires Tree(t, next) && OnWay(t, d) && IsWord(name, SLASH) && LiveDir(t, Lookup(t, d, name))
    ensures OnWay(t, Lookup(t, d, name))
  {
    hide Lookup;
    FoundBelow(t, next, d, name);
  }

  // One cd to a plain name: only the current directory changes, it goes down by at most one level and not at all for
  // "..", and it stays on a way from the root without slashes.
  lemma CdMoves(m: Machine, name: Text)
    requires MachineInv(m) && m.running && IsWord(name, SLASH)
    ensures var t, m' := m.fs.table, Step(m, Parse(["cd", name]), true);
            && m' == m.(cwd := m'.cwd) && MachineInv(m')
            && Depth(t, m'.cwd) <= Depth(t, m.cwd) + (if name == ".." then 0 else 1)
            && (OnWay(t, m.cwd) ==> OnWay(t, m'.cwd))
  {
    hide Owns, Orderly, Parse, Lookup, OnWay;
    assert SLASH in "/";
    ParseCd(name);
    StepKeepsInv(m, Parse(["cd", name]), true);
    LookupValid(m.fs.table, m.fs.next, m.cwd, name);
    assert ParentsBelow(m.fs.table);
    RootOnWay(m.fs.table, m.fs.next);
    if OnWay(m.fs.table, m.cwd) {
      if name == ".." {
        if m.cwd != 0 { UpOnWay(m.fs.table, m.fs.next, m.cwd); }
      } else if EnterDir(m.fs.table, m.cwd, name) != m.cwd {
        DownOnWay(m.fs.table, m.fs.next, m.cwd, name);
      }
    }
  }

  lemma RootOnWay(t: Table, next: int)
    requires Tree(t, next)
    ensures OnWay(t, 0)
  {
  }

  lemma {:induction false} CdAllMoves(m: Machine, names: seq<Text>)
    requires MachineInv(m) && m.running && AreWords(names, SLASH)
    ensures var t, m' := m.fs.table, CdAll(m, names);
            && m' == m.(cwd := m'.cwd) && MachineInv(m')
            && Depth(t, m'.cwd) <= Depth(t, m.cwd) + |names| - (if ".." in names then 1 else 0)
            && (OnWay(t, m.cwd) ==> OnWay(t, m'.cwd))
    decreases |names|
  {
    if names != [] {
      hide MachineInv, Step, Parse, Depth, OnWay, IsWord;
      CdMoves(m, names[0]);
      CdAllMoves(Step(m, Parse(["cd", names[0]]), true), names[1..]);
      assert names == [names[0]] + names[1..];
    }
  }

  // What `cd /` and then `cd` to each component of what pwd has shown leads to.
  function Retraced(m: Machine): Machine
    requires ParentsBelow(m.fs.table) && Valid(m.fs.table, m.cwd)
  {
    CdAll(Step(m, Parse(["cd", "/"]), true), Split(Path(m.fs.table, m.cwd), SLASH))
  }

  // It is where the shell was exactly when the current directory and all above it are active, no name on the way has a
  // slash and none is "..".
  lemma CdRetracesPwd(m: Machine)
    requires MachineInv(m) && m.running
    ensures var t := m.fs.table;
            Retraced(m) == m <==> OnWay(t, m.cwd) && ".." !in Components(t, m.cwd)
  {
    hide Owns, Orderly, Parse, Shape;
    var t, names, m0 := m.fs.table, Split(Path(m.fs.table, m.cwd), SLASH), m.(cwd := 0);
    ParseCd("/");
    SplitWords(Path(t, m.cwd), SLASH);
    RootOnWay(t, m.fs.next);
    CdAllMoves(m0, names);
    if OnWay(t, m.cwd) {
      PathSplits(t, m.cwd);
      PathRoundTrip(t, m.fs.next, m.cwd);
      if ".." !in names { CdAllFollows(m0, names); }
    }
  }

  // ---------- directories named ".." ----------

  // No name on the way from the root is "..".
  ghost predicate NoDots(t: Table, id: int) {
    ParentsBelow(t) && Valid(t, id) && ".." !in Components(t, id)
  }

  // From t to t' the first n inodes stay where they are and keep their names, unless they are deleted.
  ghost predicate KeepsNames(t: Table, t': Table, n: int) {
    && |t'| == |t|
    && forall i | 1 <= i < n && i < |t| :: t'[i].parent == t[i].parent && t'[i].name in {t[i].name, []}
  }

  lemma {:induction false} NoDotsKept(t: Table, t': Table, n: int, id: int)
    requires KeepsNames(t, t', n) && ParentsBelow(t') && NoDots(t, id) && id < n
    ensures NoDots(t', id)
    decreases id
  {
    if id != 0 {
      NoDotsKept(t, t', n, t[id].parent);
    }
  }

  // Inodes from the counter on have no name yet, and lie below the root for now.
  ghost predicate Unborn(t: Table, next: int) {
    forall i | 1 <= i < |t| && next <= i :: t[i].name == [] && t[i].parent == 0
  }

  // Table s comes from an earlier point of the same boot, when the counter was n. Inodes created since then hang below
  // directories that are fine in s, too.
  ghost predicate Earlier(t: Table, s: Table, n: int) {
    && |s| == |t| && ParentsBelow(s)
    && (forall i | 1 <= i < n && i < |t| ::
          s[i].parent == t[i].parent && (t[i].name == s[i].name || t[i].name == [] || s[i].name == []))
    && Unborn(s, n)
    && (forall i | 1 <= i < |t| && n <= i :: NoDots(s, t[i].parent))
  }

  // No name on the way to the current or to the home directory is "..", in RAM and in the saved image.
  ghost predicate Undotted(m: Machine) {
    && HOME_ID < m.fs.next && m.cwd < m.fs.next
    && NoDots(m.fs.table, m.cwd) && NoDots(m.fs.table, HOME_ID) && Unborn(m.fs.table, m.fs.next)
    && (m.image.Image? ==> ImageUndotted(m.fs.table, m.cwd, m.image.fs.table, m.image.fs.next))
  }

  ghost predicate ImageUndotted(t: Table, cwd: int, s: Table, n: int) {
    HOME_ID < n && NoDots(s, cwd) && NoDots(s, HOME_ID) && Earlier(t, s, n)
  }

  // What one operation does to names and places.
  lemma OpNames(fs: Fs, op: Op)
    requires Inv(fs) && GoodOp(op) && Unborn(fs.table, fs.next)
    ensures var fs' := Apply(fs, op).0;
            && KeepsNames(fs.table, fs'.table, fs.next) && fs.next <= fs'.next && Unborn(fs'.table, fs'.next)
            && (forall i | fs.next <= i < |fs.table| ::
                  fs'.table[i].parent == if op.Mk? && i < fs'.next then op.parent else 0)
  {
    hide Owns, Shape, SiblingsDiffer, Linked, Unlinked, AfterDealloc, AfterAlloc, AllocResult, Lookup;
    match op
    case Mk(parent, name, kind) => if CanCreate(fs, parent, name) { CreateShape(fs, parent, name, kind); }
    case Rm(id) => if CanDelete(fs, id) { DeleteNames(fs, id); BelowCounter(fs, id); }
    case Put(id, data) =>
  }

  lemma FsStepKeepsUndotted(m: Machine, op: Op)
    requires m.running && MachineInv(m) && Undotted(m) && GoodOp(op) && (op.Mk? ==> op.parent == m.cwd)
    ensures Undotted(m.(fs := Apply(m.fs, op).0))
  {
    hide Owns, Orderly, Shape, Apply, NoDots;
    var t, fs' := m.fs.table, Apply(m.fs, op).0;
    OpNames(m.fs, op);
    FsStepGrows(m.fs, op);
    NoDotsKept(t, fs'.table, m.fs.next, m.cwd);
    NoDotsKept(t, fs'.table, m.fs.next, HOME_ID);
    if m.image.Image? { EarlierKept(t, fs'.table, m.cwd, m.image.fs.table, m.image.fs.next, m.fs.next); }
  }

  lemma EarlierKept(t: Table, t': Table, cwd: int, s: Table, n: int, next: int)
    requires ImageUndotted(t, cwd, s, n) && n <= next && KeepsNames(t, t', next)
    requires forall i | next <= i < |t| :: t'[i].parent in {cwd, 0}
    ensures ImageUndotted(t', cwd, s, n)
  {
    RootUndotted(s);
    hide NoDots;
  }

  lemma RootUndotted(t: Table)
    requires ParentsBelow(t) && |t| > 0
    ensures NoDots(t, 0)
  {
  }

  // A child that is entered has another name than "..", in the image as well if it was there.
  lemma EnterUndotted(m: Machine, name: Text)
    requires m.running && MachineInv(m) && Undotted(m) && name != ".."
    ensures Undotted(m.(cwd := EnterDir(m.fs.table, m.cwd, name)))
  {
    hide Owns, Orderly, Shape, SiblingsDiffer, Lookup, Earlier;
    var t, c := m.fs.table, EnterDir(m.fs.table, m.cwd, name);
    if c != m.cwd {
      FoundBelow(t, m.fs.next, m.cwd, name);
      BelowCounter(m.fs, c);
      NameInUse(m.fs, c);
      if m.image.Image? { EnterEarlier(t, m.cwd, m.image.fs.table, m.image.fs.next, c); }
    }
  }

  lemma EnterEarlier(t: Table, cwd: int, s: Table, n: int, c: int)
    requires ImageUndotted(t, cwd, s, n) && 0 < c < |t| && t[c].parent == cwd && t[c].name !in {"..", []}
    ensures NoDots(s, c)
  {
    RootUndotted(s);
    if c < n {
      assert s[c].parent == cwd && s[c].name in {t[c].name, []};
    } else {
      assert s[c].parent == 0 && s[c].name == [];
    }
  }

  lemma NameInUse(fs: Fs, i: int)
    requires Inv(fs) && Valid(fs.table, i) && fs.table[i].active
    ensures fs.table[i].name != []
  {
    assert Shape(fs.table[i]);
  }

  lemma UpUndotted(m: Machine)
    requires m.running && MachineInv(m) && Undotted(m)
    ensures Undotted(m.(cwd := ParentOf(m.fs.table, m.cwd)))
  {
    hide Owns, Orderly, Shape;
    assert ParentsBelow(m.fs.table);
    RootUndotted(m.fs.table);
    if m.image.Image? { RootUndotted(m.image.fs.table); }
  }

  lemma LoadUndotted(m: Machine)
    requires MachineInv(m) && m.running && Undotted(m)
    ensures Undotted(Restored(m))
  {
    hide Owns, Orderly, Shape;
    if m.image.Image? {
      hide NoDots;
      EarlierSelf(m.image.fs.table, m.image.fs.next);
    }
  }

  lemma EarlierSelf(t: Table, n: int)
    requires ParentsBelow(t) && |t| > 0 && Unborn(t, n)
    ensures Earlier(t, t, n)
  {
    RootUndotted(t);
  }

  // `cd ..` goes to the parent, so a directory of that name is never entered.
  lemma StepKeepsUndotted(m: Machine, cmd: Command, disk: bool)
    requires m.running && MachineInv(m) && Undotted(m) && GoodCommand(cmd) && cmd != CdTo("..") && !cmd.Halt?
    ensures Undotted(Step(m, cmd, disk))
  {
    hide Inv, MachineInv, NoDots, Unborn, Earlier, Lookup;
    match cmd
    case Mkdir(name) => FsStepKeepsUndotted(m, Mk(m.cwd, name, INODE_DIR));
    case Touch(name) => FsStepKeepsUndotted(m, Mk(m.cwd, name, INODE_FILE));
    case Fill(name, content) => FsStepKeepsUndotted(m, Put(Lookup(m.fs.table, m.cwd, name), content));
    case Remove(name) => FsStepKeepsUndotted(m, Rm(Lookup(m.fs.table, m.cwd, name)));
    case CdUp => UpUndotted(m);
    case CdTo(name) => EnterUndotted(m, name);
    case CdRoot => RootsUndotted(m);
    case Save => SaveUndotted(m);
    case Load => LoadUndotted(m);
    case _ =>
  }

  lemma RootsUndotted(m: Machine)
    requires m.running && MachineInv(m) && Undotted(m)
    ensures NoDots(m.fs.table, 0) && (m.image.Image? ==> NoDots(m.image.fs.table, 0))
  {
    RootUndotted(m.fs.table);
    if m.image.Image? { RootUndotted(m.image.fs.table); }
  }

  lemma SaveUndotted(m: Machine)
    requires m.running && MachineInv(m) && Undotted(m)
    ensures Earlier(m.fs.table, m.fs.table, m.fs.next)
  {
    assert ParentsBelow(m.fs.table);
    EarlierSelf(m.fs.table, m.fs.next);
  }

  lemma NeverToDots(tokens: seq<Text>)
    ensures Parse(tokens) != CdTo("..")
  {
  }

  lemma TurnKeepsUndotted(m: Machine, input: Input)
    requires m.running && MachineInv(m) && Undotted(m) && GoodInput(input)
    ensures var m' := Turn(m, input); m'.running ==> Undotted(m')
  {
    var cmd := CommandOf(input);
    hide MachineInv, Undotted, Parse, Split, Trim, GoodCommand;
    NeverToDots(Split(Trim(input.line), BLANK));
    if !cmd.Halt? {
      StepKeepsUndotted(m, cmd, input.disk);
      TickKeepsUndotted(Step(m, cmd, input.disk));
    }
  }

  lemma TickKeepsUndotted(m: Machine)
    ensures Undotted(AfterTick(m)) == Undotted(m)
  {
  }

  lemma BootUndotted()
    ensures Undotted(BootMachine)
  {
    BootInv();
    hide Owns, Shape;
    forall i | 1 <= i < |BootTable| && 6 <= i ensures BootTable[i].name == [] && BootTable[i].parent == 0 {
      BootEntry(i);
    }
    BootEntry(2);
    BootEntry(3);
    assert Components(BootTable, 3) == ["home", CURRENT_USER];
  }

  lemma {:induction false} SessionUndotted(inputs: seq<Input>)
    requires forall i | 0 <= i < |inputs| :: GoodInput(inputs[i])
    ensures var m := Session(BootMachine, inputs); m.running ==> Undotted(m)
    decreases |inputs|
  {
    if inputs == [] {
      BootUndotted();
    } else {
      hide Undotted, GoodInput, Turn;
      var k := |inputs| - 1;
      var m := Session(BootMachine, inputs[..k]);
      SessionUndotted(inputs[..k]);
      SessionInv(inputs[..k]);
      if m.running { TurnKeepsUndotted(m, inputs[k]); } else { StoppedTurn(m, inputs[k]); }
    }
  }

  // ---------- cd and pwd in sessions ----------

  // Here cd retraces pwd exactly when the current directory is attached and no name on the way has a slash.
  ghost predicate Retraces(m: Machine) {
    && ParentsBelow(m.fs.table) && Valid(m.fs.table, m.cwd)
    && (Retraced(m) == m <==> OnWay(m.fs.table, m.cwd))
  }

  // After every session, loads and removed directories included.
  lemma SessionRetraces(inputs: seq<Input>)
    requires forall i | 0 <= i < |inputs| :: GoodInput(inputs[i])
    ensures var m := Session(BootMachine, inputs); m.running ==> Retraces(m)
  {
    hide GoodInput, Session, Retraced, OnWay;
    var m := Session(BootMachine, inputs);
    SessionInv(inputs);
    SessionUndotted(inputs);
    if m.running { CdRetracesPwd(m); }
  }

  // ---------- sessions without slashes ----------

  // Creating with a slash-free name, deleting and writing keep all names slash-free.
  lemma FsStepKeepsSlashFree(fs: Fs, op: Op)
    requires Inv(fs) && SlashFree(fs.table) && (op.Mk? ==> SLASH !in op.name)
    ensures SlashFree(Apply(fs, op).0.table)
  {
    hide Owns;
    match op
    case Mk(parent, name, kind) => if CanCreate(fs, parent, name) { CreateShape(fs, parent, name, kind); }
    case Rm(id) => if CanDelete(fs, id) { DeleteKeepsSlashFree(fs, id); }
    case Put(id, data) =>
  }

  lemma DeleteKeepsSlashFree(fs: Fs, id: int)
    requires Tree(fs.table, fs.next) && CanDelete(fs, id) && SlashFree(fs.table)
    ensures SlashFree(Unlinked(fs.table, id))
  {
    DeleteShape(fs, id);
    WithoutChildKids(fs.table[fs.table[id].parent], id);
  }

  // A command that gives no name with a slash in it to a new inode.
  predicate PlainCommand(cmd: Command) {
    cmd.Mkdir? || cmd.Touch? ==> SLASH !in cmd.name
  }

  lemma StepKeepsSlashFree(m: Machine, cmd: Command, disk: bool)
    requires m.running && MachineInv(m) && SlashFree(m.fs.table) && PlainCommand(cmd) && !cmd.Load? && !cmd.Halt?
    ensures SlashFree(Step(m, cmd, disk).fs.table)
  {
    hide Inv, SlashFree, Lookup;
    match cmd
    case Mkdir(name) => FsStepKeepsSlashFree(m.fs, Mk(m.cwd, name, INODE_DIR));
    case Touch(name) => FsStepKeepsSlashFree(m.fs, Mk(m.cwd, name, INODE_FILE));
    case Fill(name, content) => FsStepKeepsSlashFree(m.fs, Put(Lookup(m.fs.table, m.cwd, name), content));
    case Remove(name) => FsStepKeepsSlashFree(m.fs, Rm(Lookup(m.fs.table, m.cwd, name)));
    case _ =>
  }

  // RAM and the saved image have no name with a slash.
  ghost predicate Slashless(m: Machine) {
    SlashFree(m.fs.table) && (m.image.Image? ==> SlashFree(m.image.fs.table))
  }

  lemma StepKeepsSlashless(m: Machine, cmd: Command, disk: bool)
    requires m.running && MachineInv(m) && Slashless(m) && PlainCommand(cmd) && !cmd.Halt?
    ensures Slashless(Step(m, cmd, disk))
  {
    hide Inv, MachineInv, SlashFree, Lookup;
    if !cmd.Load? { StepKeepsSlashFree(m, cmd, disk); }
  }

  lemma TurnKeepsSlashless(m: Machine, input: Input)
    requires m.running && MachineInv(m) && Slashless(m) && PlainCommand(CommandOf(input))
    ensures var m' := Turn(m, input); m'.running ==> Slashless(m')
  {
    var cmd := CommandOf(input);
    hide MachineInv, SlashFree, Parse, Split, Trim, PlainCommand;
    if !cmd.Halt? {
      StepKeepsSlashless(m, cmd, input.disk);
    }
  }

  lemma {:induction false} SessionKeepsSlashFree(inputs: seq<Input>)
    requires forall i | 0 <= i < |inputs| :: GoodInput(inputs[i]) && PlainCommand(CommandOf(inputs[i]))
    ensures var m := Session(BootMachine, inputs); m.running ==> Slashless(m)
    decreases |inputs|
  {
    hide Slashless, PlainCommand, CommandOf, GoodInput, Turn, MachineInv;
    if inputs == [] {
      BootSlashless();
    } else {
      var k := |inputs| - 1;
      var m := Session(BootMachine, inputs[..k]);
      SessionKeepsSlashFree(inputs[..k]);
      SessionInv(inputs[..k]);
      if m.running { TurnKeepsSlashless(m, inputs[k]); } else { StoppedTurn(m, inputs[k]); }
    }
  }

  lemma BootSlashless()
    ensures Slashless(BootMachine)
  {
    forall i | 1 <= i < |BootTable| && BootTable[i].active ensures SLASH !in BootTable[i].name {
      BootEntry(i);
    }
  }

  // At the end of every session that leaves the home directory alone, loads only images with the current directory and
  // puts no slash into a name, `cd /` and `cd` along pwd lead back to the same directory.
  lemma TameSessionRetraces(inputs: seq<Input>)
    requires TameSession(BootMachine, inputs)
    requires forall i | 0 <= i < |inputs| :: GoodInput(inputs[i]) && PlainCommand(CommandOf(inputs[i]))
    ensures var m := Session(BootMachine, inputs);
            m.running ==> ParentsBelow(m.fs.table) && Valid(m.fs.table, m.cwd) && Retraced(m) == m
  {
    hide GoodInput, PlainCommand, TameSession, Session, Retraced;
    var m := Session(BootMachine, inputs);
    SessionInv(inputs);
    SessionRetraces(inputs);
    TameSessionKeepsCwd(inputs);
    SessionKeepsSlashFree(inputs);
    if m.running {
      RootedAttached(m.fs.table, m.fs.next, m.cwd);
      ComponentsAreNames(m.fs.table, m.fs.next, m.cwd);
    }
  }

  // ---------- names with a slash ----------

  // mkdir a/b ; cd a/b: pwd shows /home/chandan/a/b, which does not lead back.
  lemma SlashIsNotRetraced()
    ensures var m1 := Step(BootMachine, Mkdir("a/b"), true);
            var m2 := Step(m1, CdTo("a/b"), true);
            && ParentsBelow(m2.fs.table) && Valid(m2.fs.table, m2.cwd)
            && Components(m2.fs.table, m2.cwd) == ["home", CURRENT_USER, "a/b"]
            && Retraced(m2) != m2
  {
    hide Inv, MachineInv, Lookup, Retraced, Create, OnWay;
    var fs := Create(Boot, HOME_ID, "a/b", INODE_DIR).0;
    SlashDir(fs);
    var m1, m2 := BootMachine.(fs := fs), BootMachine.(fs := fs, cwd := 6);
    BootOrderly();
    SoundAt(m2);
    assert Step(m1, CdTo("a/b"), true) == m2;
    CdRetracesPwd(m2);
    assert Components(fs.table, 6)[2] == "a/b" && "a/b"[1] == SLASH;
    NotOnWay(fs.table, 6, 2);
  }

  lemma SoundAt(m: Machine)
    requires Inv(m.fs) && m.cwd == 6 && m.procs == BootProcs && m.ticks == 0 && m.image == NoImage
    ensures MachineInv(m) && ParentsBelow(m.fs.table) && Valid(m.fs.table, 6)
  {
    BootOrderly();
  }

  lemma NotOnWay(t: Table, id: int, k: int)
    requires ParentsBelow(t) && Valid(t, id) && 0 <= k < |Components(t, id)| && SLASH in Components(t, id)[k]
    ensures !OnWay(t, id)
  {
  }

  lemma SlashDir(fs: Fs)
    requires fs == Create(Boot, HOME_ID, "a/b", INODE_DIR).0
    ensures Inv(fs) && Valid(fs.table, 6) && ParentsBelow(fs.table)
    ensures fs.table[6].kind == INODE_DIR && Lookup(fs.table, HOME_ID, "a/b") == 6
    ensures Components(fs.table, 6) == ["home", CURRENT_USER, "a/b"]
  {
    BootInv();
    BootKids(HOME_ID);
    BootEntry(HOME_ID);
    BootEntry(2);
    CreateShape(Boot, HOME_ID, "a/b", INODE_DIR);
    StepInv(Boot, Mk(HOME_ID, "a/b", INODE_DIR));
    hide Owns, Shape, Create, Lookup;
    LookupOwnName(fs.table, fs.next, 6);
    WayToSlash(fs.table);
  }

  lemma WayToSlash(t: Table)
    requires ParentsBelow(t) && |t| > 6 && t[6].parent == 3 && t[3].parent == 2 && t[2].parent == 0
    requires t[2].name == "home" && t[3].name == CURRENT_USER && t[6].name == "a/b"
    ensures Components(t, 6) == ["home", CURRENT_USER, "a/b"]
  {
    assert Components(t, 2) == ["home"];
    assert Components(t, 3) == ["home", CURRENT_USER];
  }

  // A create that finds room and no child of that name.
  lemma MadeDir(fs: Fs, parent: int, name: Text) returns (fs': Fs)
    requires Tree(fs.table, fs.next) && GoodName(name) && LiveDir(fs.table, parent)
    requires |fs.table[parent].Kids()| < MAX_CHILDREN && fs.next < MAX_INODES
    requires forall k | k in fs.table[parent].Kids() :: Valid(fs.table, k) && fs.table[k].name != name
    ensures fs' == Create(fs, parent, name, INODE_DIR).0 && fs'.next == fs.next + 1 && |fs'.table| == |fs.table|
    ensures Tree(fs'.table, fs'.next)
    ensures fs'.table[fs.next] == NewInode(fs.next, name, INODE_DIR, parent) && fs'.table[fs.next].Kids() == []
    ensures fs'.table[parent].name == fs.table[parent].name && fs'.table[parent].parent == fs.table[parent].parent
    ensures LiveDir(fs'.table, parent) && fs'.table[parent].Kids() == fs.table[parent].Kids() + [fs.next]
    ensures forall i | 0 <= i < |fs.table| && i != parent && i != fs.next :: fs'.table[i] == fs.table[i]
  {
    hide Lookup, Shape, SiblingsDiffer;
    fs' := Create(fs, parent, name, INODE_DIR).0;
    CreateSucceeds(fs, parent, name, INODE_DIR);
    CreateShape(fs, parent, name, INODE_DIR);
    CreateTree(fs, parent, name, INODE_DIR);
  }

  // mkdir a, inside it mkdir b, and beside a mkdir a/b: two directories have the path /a/b, which leads to one of them.
  lemma SlashCollides()
    ensures var f1 := Create(Boot, 0, "a", INODE_DIR).0;
            var f2 := Create(f1, 6, "b", INODE_DIR).0;
            var t := Create(f2, 0, "a/b", INODE_DIR).0.table;
            && ParentsBelow(t) && |t| == MAX_INODES && Attached(t, 7) && Attached(t, 8)
            && Path(t, 7) == Path(t, 8) && Follow(t, 0, Split(Path(t, 8), SLASH)) == 7
  {
    hide Create, Tree, Split, Lookup, Path;
    BootRoot();
    var f1 := Beside(Boot);
    var f2 := MadeDir(f1, 6, "b");
    assert f2.table[0] == f1.table[0] && f2.table[6].parent == 0 && f2.table[6].name == "a";
    var f3 := MadeDir(f2, 0, "a/b");
    assert f3.table[6] == f2.table[6] && f3.table[7] == f2.table[7];
    SamePath(f3.table, f3.next);
  }

  // None of the directories of a fresh boot has a name that begins with an a.
  predicate OtherLetters(t: Table) {
    forall i | 1 <= i < 6 && i < |t| :: t[i].name != [] && t[i].name[0] != 'a'
  }

  lemma Beside(fs: Fs) returns (fs': Fs)
    requires Tree(fs.table, fs.next) && fs.next == 6 && |fs.table| == MAX_INODES && LiveDir(fs.table, 0)
    requires fs.table[0].Kids() == [1, 2, 4, 5]
    requires OtherLetters(fs.table)
    ensures fs' == Create(fs, 0, "a", INODE_DIR).0 && Tree(fs'.table, fs'.next) && fs'.next == 7
    ensures |fs'.table| == MAX_INODES && LiveDir(fs'.table, 0) && LiveDir(fs'.table, 6)
    ensures fs'.table[0].Kids() == [1, 2, 4, 5, 6] && fs'.table[6] == NewInode(6, "a", INODE_DIR, 0)
    ensures fs'.table[6].Kids() == []
    ensures OtherLetters(fs'.table)
  {
    hide Create, Tree;
    fs' := MadeDir(fs, 0, "a");
  }

  lemma BootLetter(i: int)
    requires 1 <= i < 6
    ensures Boot.table[i].name != [] && Boot.table[i].name[0] != 'a'
  {
    BootEntry(i);
  }

  lemma BootRoot()
    ensures Tree(Boot.table, 6) && LiveDir(Boot.table, 0) && Boot.table[0].Kids() == [1, 2, 4, 5]
    ensures OtherLetters(Boot.table)
  {
    BootInv();
    BootKids(0);
    BootEntry(0);
    hide Tree;
    forall i | 1 <= i < 6 ensures Boot.table[i].name != [] && Boot.table[i].name[0] != 'a' {
      BootLetter(i);
    }
  }

  lemma SamePath(t: Table, next: int)
    requires Tree(t, next) && |t| > 8 && LiveDir(t, 0) && t[6].active && t[7].active && t[8].active
    requires t[6].parent == 0 && t[7].parent == 6 && t[8].parent == 0
    requires t[6].name == "a" && t[7].name == "b" && t[8].name == "a/b"
    ensures ParentsBelow(t) && Attached(t, 7) && Attached(t, 8)
    ensures Path(t, 7) == Path(t, 8) && Follow(t, 0, Split(Path(t, 8), SLASH)) == 7
  {
    hide Tree, Split, Lookup, Follow;
    Upward(t, next);
    assert Components(t, 0) == [] && Path(t, 0) == [SLASH];
    assert Components(t, 6) == ["a"] && Path(t, 6) == [SLASH] + "a";
    assert Components(t, 7) == ["a", "b"] && Path(t, 7) == Path(t, 6) + [SLASH] + "b";
    assert Path(t, 8) == [SLASH] + "a/b";
    assert Attached(t, 0) && Attached(t, 6);
    PathRoundTrip(t, next, 7);
  }
}
