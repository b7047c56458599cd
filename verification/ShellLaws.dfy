/** Theorems about whole shell sessions. */
module ShellLaws {
  import opened Layout
  import opened Bytes
  import opened Blocks
  import opened StringLaws
  import opened FileModel
  import opened TreeLaws
  import opened FileRuns
  import opened SchedulerModel
  import opened ShellModel

  // ---------- an active current directory ----------

  function CommandOf(input: Input): Command { Parse(Split(Trim(input.line), BLANK)) }

  // This turn does not remove the home directory, and loads only an image that has the current directory.
  predicate Tame(m: Machine, input: Input) {
    var cmd := CommandOf(input);
    && !(cmd.Remove? && Lookup(m.fs.table, m.cwd, cmd.name) == HOME_ID)
    && (cmd.Load? && input.disk && m.image.Image? ==> LiveDir(m.image.fs.table, m.cwd))
  }

  predicate TameSession(start: Machine, inputs: seq<Input>)
    decreases |inputs|
  {
    inputs == [] ||
    (TameSession(start, inputs[..|inputs| - 1]) && Tame(Session(start, inputs[..|inputs| - 1]), inputs[|inputs| - 1]))
  }

  // The current directory and the home directory are in place, in the saved image as well.
  ghost predicate Homely(m: Machine) {
    && ActiveCwd(m) && LiveDir(m.fs.table, HOME_ID)
    && (m.image.Image? ==> Rooted(m.image.fs.table) && LiveDir(m.image.fs.table, HOME_ID))
  }

  lemma FsStepKeepsHome(m: Machine, op: Op)
    requires m.running && MachineInv(m) && LiveDir(m.fs.table, HOME_ID) && op != Rm(HOME_ID)
    ensures LiveDir(Apply(m.fs, op).0.table, HOME_ID)
  {
    hide Inv, Apply;
    BelowCounter(m.fs, HOME_ID);
    StepKeepsInode(m.fs, op, HOME_ID);
  }

  lemma StepKeepsHome(m: Machine, cmd: Command, disk: bool)
    requires m.running && MachineInv(m) && Homely(m) && !cmd.Halt?
    requires cmd.Remove? ==> Lookup(m.fs.table, m.cwd, cmd.name) != HOME_ID
    ensures LiveDir(Step(m, cmd, disk).fs.table, HOME_ID)
  {
    hide Inv, MachineInv;
    match cmd
    case Mkdir(name) => FsStepKeepsHome(m, Mk(m.cwd, name, INODE_DIR));
    case Touch(name) => FsStepKeepsHome(m, Mk(m.cwd, name, INODE_FILE));
    case Fill(name, content) => FsStepKeepsHome(m, Put(Lookup(m.fs.table, m.cwd, name), content));
    case Remove(name) => FsStepKeepsHome(m, Rm(Lookup(m.fs.table, m.cwd, name)));
    case _ =>
  }

  lemma TameStep(m: Machine, input: Input)
    requires m.running && MachineInv(m) && Homely(m) && GoodInput(input) && Tame(m, input) && !CommandOf(input).Halt?
    ensures Homely(Step(m, CommandOf(input), input.disk))
  {
    var cmd := CommandOf(input);
    hide MachineInv, Parse, Split, Trim, Rooted, LiveDir, Lookup, Create, FillFile, RemoveChild;
    StepKeepsActiveCwd(m, cmd, input.disk);
    StepKeepsHome(m, cmd, input.disk);
  }

  lemma TameTurn(m: Machine, input: Input)
    requires m.running && MachineInv(m) && Homely(m) && GoodInput(input) && Tame(m, input)
    ensures var m' := Turn(m, input); m'.running ==> Homely(m')
  {
    var cmd := CommandOf(input);
    hide MachineInv, ActiveCwd, Parse, Split, Trim, Homely, Tame;
    if !cmd.Halt? {
      TameStep(m, input);
      TickKeepsHomely(Step(m, cmd, input.disk));
    }
  }

  lemma TickKeepsHomely(m: Machine)
    ensures Homely(AfterTick(m)) == Homely(m)
  {
  }

  lemma BootHomely()
    ensures Homely(BootMachine)
  {
    BootInv();
    BootEntry(HOME_ID);
  }

  // As long as the home directory is not removed and every image loaded has the directory the shell is in, the current
  // directory is an active directory and every active inode is reachable from the root.
  lemma {:induction false} TameSessionKeepsCwd(inputs: seq<Input>)
    requires TameSession(BootMachine, inputs) && forall i | 0 <= i < |inputs| :: GoodInput(inputs[i])
    ensures var m := Session(BootMachine, inputs); m.running ==> Homely(m)
    decreases |inputs|
  {
    if inputs == [] {
      BootHomely();
    } else {
      hide Homely, Tame, Turn;
      var k := |inputs| - 1;
      var m := Session(BootMachine, inputs[..k]);
      TameSessionKeepsCwd(inputs[..k]);
      SessionInv(inputs[..k]);
      if m.running { TameTurn(m, inputs[k]); } else { StoppedTurn(m, inputs[k]); }
    }
  }

  predicate NeverLoads(inputs: seq<Input>) {
    forall i | 0 <= i < |inputs| :: !CommandOf(inputs[i]).Load?
  }

  lemma TurnKeepsDirCwd(m: Machine, input: Input)
    requires m.running && MachineInv(m) && DirCwd(m) && GoodInput(input) && !CommandOf(input).Load?
    ensures var m' := Turn(m, input); m'.running ==> DirCwd(m')
  {
    var cmd := CommandOf(input);
    hide MachineInv, Parse, Split, Trim, GoodCommand;
    if !cmd.Halt? {
      StepKeepsDirCwd(m, cmd, input.disk);
    }
  }

  // As long as no image is loaded, the current directory is an id that has been handed out, of directory type, whatever
  // is removed.
  lemma {:induction false} SessionKeepsDirCwd(inputs: seq<Input>)
    requires NeverLoads(inputs) && forall i | 0 <= i < |inputs| :: GoodInput(inputs[i])
    ensures var m := Session(BootMachine, inputs); m.running ==> DirCwd(m)
    decreases |inputs|
  {
    if inputs == [] {
      BootEntry(HOME_ID);
    } else {
      var k := |inputs| - 1;
      var m := Session(BootMachine, inputs[..k]);
      SessionKeepsDirCwd(inputs[..k]);
      SessionInv(inputs[..k]);
      if m.running { TurnKeepsDirCwd(m, inputs[k]); }
    }
  }

  // ---------- and how it can be lost ----------

  // cd .. ; rm chandan ; cd ; touch x: the file x is created in a deleted directory.
  lemma RemovedHomeIsEntered()
    ensures var m1 := Step(BootMachine, CdUp, true);
            var m2 := Step(m1, Remove(CURRENT_USER), true);
            var m3 := Step(m2, CdHome, true);
            var m4 := Step(m3, Touch("x"), true);
            && MachineInv(m4) && !m4.fs.table[m4.cwd].active && m4.fs.table[6].active && !Rooted(m4.fs.table)
  {
    hide MachineInv, Lookup, Delete, Create, Rooted;
    HomePlace();
    var m1 := BootMachine.(cwd := 2);
    var m2 := m1.(fs := Delete(Boot, HOME_ID).0);
    var m3 := m2.(cwd := HOME_ID);
    var m4 := m3.(fs := Create(m3.fs, HOME_ID, "x", INODE_FILE).0);
    assert Step(BootMachine, CdUp, true) == m1;
    assert Step(m1, Remove(CURRENT_USER), true) == m2;
    assert Step(m2, CdHome, true) == m3 && Step(m3, Touch("x"), true) == m4;
    StepKeepsInv(BootMachine, CdUp, true);
    StepKeepsInv(m1, Remove(CURRENT_USER), true);
    StepKeepsInv(m2, CdHome, true);
    StepKeepsInv(m3, Touch("x"), true);
    Orphan(m2.fs, m4.fs);
  }

  lemma HomePlace()
    ensures MachineInv(BootMachine) && BootTable[HOME_ID].parent == 2 && Lookup(BootTable, 2, CURRENT_USER) == HOME_ID
  {
    BootInv();
    BootOrderly();
    BootEntry(HOME_ID);
    hide Owns, Shape;
    LookupOwnName(BootTable, 6, HOME_ID);
  }

  lemma Orphan(fs: Fs, fs': Fs)
    requires fs == Delete(Boot, HOME_ID).0 && fs' == Create(fs, HOME_ID, "x", INODE_FILE).0
    ensures |fs'.table| == MAX_INODES && !fs'.table[HOME_ID].active && fs'.table[6].active && !Rooted(fs'.table)
  {
    HomeDeleted(fs);
    hide Tree, CanCreate, Linked, Delete;
    CreateShape(fs, HOME_ID, "x", INODE_FILE);
  }

  lemma HomeDeleted(fs: Fs)
    requires fs == Delete(Boot, HOME_ID).0
    ensures fs.next == 6 && |fs.table| == MAX_INODES && Tree(fs.table, 6)
    ensures CanCreate(fs, HOME_ID, "x") && !fs.table[HOME_ID].active
  {
    BootInv();
    BootKids(HOME_ID);
    BootEntry(HOME_ID);
    BootEntry(2);
    hide Owns;
    assert CanDelete(Boot, HOME_ID);
    DeleteShape(Boot, HOME_ID);
    DeleteTree(Boot, HOME_ID);
  }

  // ---------- write and cat ----------

  lemma ParseWrite(name: Text, words: seq<Text>)
    requires words != []
    ensures Parse(["write", name] + words) == Fill(name, Join(words, BLANK))
  {
    assert (["write", name] + words)[2..] == words;
  }

  // After a write of some words to a file, cat shows them joined by single blanks, and they can be told apart again;
  // if no block is large enough once the old content has been given back, cat shows an empty file.
  lemma WriteThenCat(m: Machine, name: Text, words: seq<Text>)
    requires m.running && MachineInv(m) && words != [] && AreWords(words, BLANK) && NUL !in Join(words, BLANK)
    requires CanWrite(m.fs, Lookup(m.fs.table, m.cwd, name))
    ensures var id, text := Lookup(m.fs.table, m.cwd, name), Join(words, BLANK);
            && Read(Step(m, Parse(["write", name] + words), true).fs, id)
               == (if CanServe(Dropped(m.fs, id).chain, |text| + 1) then (|text| + 1, text) else (0, []))
            && Split(text, BLANK) == words
  {
    hide Parse, Split, Join, Lookup, Dropped, Inv, Read, Write, CanServe;
    ParseWrite(name, words);
    SplitJoin(words, BLANK);
    var id, text := Lookup(m.fs.table, m.cwd, name), Join(words, BLANK);
    assert Step(m, Parse(["write", name] + words), true).fs == Write(m.fs, id, text).0;
    WriteThenRead(m.fs, id, text);
  }

  // ---------- the uptime task ----------

  // Slot 0 has counted every dispatched command so far.
  predicate UptimeCounts(m: Machine) {
    |m.procs| == MAX_PROCESSES && m.procs[0] == Process(0, PROC_RUNNING, m.ticks)
  }

  // The number of turns that dispatched a command.
  function Dispatched(start: Machine, inputs: seq<Input>): nat
    decreases |inputs|
  {
    if inputs == [] then 0
    else
      var k := |inputs| - 1;
      var m := Session(start, inputs[..k]);
      Dispatched(start, inputs[..k]) + if m.running && Split(Trim(inputs[k].line), BLANK) != [] then 1 else 0
  }

  // The system ticks once for every command dispatched; until the machine stops or loads older counts, so does the
  // uptime task.
  lemma {:induction false} UptimeIsDispatched(inputs: seq<Input>)
    ensures var m := Session(BootMachine, inputs);
            && m.ticks == Dispatched(BootMachine, inputs)
            && (m.running && NeverLoads(inputs) ==> UptimeCounts(m))
    decreases |inputs|
  {
    if inputs != [] {
      var k := |inputs| - 1;
      UptimeIsDispatched(inputs[..k]);
      var m := Session(BootMachine, inputs[..k]);
      UptimeTurn(m, inputs[k]);
    }
  }

  lemma UptimeTurn(m: Machine, input: Input)
    ensures var m' := Turn(m, input);
            && m'.ticks == m.ticks + (if m.running && Split(Trim(input.line), BLANK) != [] then 1 else 0)
            && (m'.running && !CommandOf(input).Load? && UptimeCounts(m) ==> m.running && UptimeCounts(m'))
  {
    hide Parse, Trim, Lookup, Create, Delete, Write;
  }
}
