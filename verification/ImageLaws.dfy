/** What save and load keep: within one boot, and across boots. */
module ImageLaws {
  import opened Layout
  import opened Bytes
  import opened FileModel
  import opened TreeLaws
  import opened OwnershipLaws
  import opened FileRuns
  import opened SchedulerModel
  import opened ShellModel

  // ---------- save and load ----------

  // Commands given one after the other.
  function Obey(m: Machine, cmds: seq<(Command, bool)>): Machine
    decreases |cmds|
  {
    if cmds == [] then m else AfterTick(Step(Obey(m, cmds[..|cmds| - 1]), cmds[|cmds| - 1].0, cmds[|cmds| - 1].1))
  }

  // No second save, and the machine is not stopped.
  predicate Between(cmd: Command) { !cmd.Save? && !cmd.Exit? && !cmd.Halt? && GoodCommand(cmd) }

  lemma {:induction false} ObeyKeepsImage(m: Machine, cmds: seq<(Command, bool)>)
    requires m.running && MachineInv(m) && forall i | 0 <= i < |cmds| :: Between(cmds[i].0)
    ensures var m' := Obey(m, cmds); m'.running && MachineInv(m') && m'.image == m.image && m.fs.next <= m'.fs.next
    decreases |cmds|
  {
    if cmds != [] {
      hide Inv, MachineInv, Step, AfterTick, Between;
      var k := |cmds| - 1;
      ObeyKeepsImage(m, cmds[..k]);
      BetweenStep(Obey(m, cmds[..k]), cmds[k].0, cmds[k].1);
    }
  }

  lemma BetweenStep(m: Machine, cmd: Command, disk: bool)
    requires m.running && MachineInv(m) && Between(cmd)
    ensures var m' := AfterTick(Step(m, cmd, disk));
            m'.running && MachineInv(m') && m'.image == m.image && m.fs.next <= m'.fs.next
  {
    hide Inv, MachineInv, Step;
    StepKeepsInv(m, cmd, disk);
    TickKeepsInv(Step(m, cmd, disk));
    CounterGrows(m, cmd, disk);
  }

  lemma CounterGrows(m: Machine, cmd: Command, disk: bool)
    requires m.running && MachineInv(m) && Between(cmd)
    ensures m.fs.next <= Step(m, cmd, disk).fs.next && Step(m, cmd, disk).image == m.image && Step(m, cmd, disk).running
  {
    hide Inv, MachineInv;
  }

  // Whatever is done between save and load, load brings back the file system and the process table that were saved, well
  // formed; and the ids given out afterwards are not in use in it.
  lemma {:induction false} SaveThenLoad(m: Machine, cmds: seq<(Command, bool)>, m1: Machine, m2: Machine)
    requires m.running && MachineInv(m) && forall i | 0 <= i < |cmds| :: Between(cmds[i].0)
    requires m1 == Obey(Step(m, Save, true), cmds) && m2 == Step(m1, Load, true)
    ensures MachineInv(m2)
    ensures m2.fs.table == m.fs.table && m2.fs.chain == m.fs.chain && m2.fs.texts == m.fs.texts && m2.procs == m.procs
    ensures m.fs.next <= m2.fs.next && forall i | m2.fs.next <= i < |m2.fs.table| :: !m2.fs.table[i].active
  {
    hide Inv, MachineInv, Obey, Between;
    StepKeepsInv(m, Save, true);
    ObeyKeepsImage(Step(m, Save, true), cmds);
    StepKeepsInv(m1, Load, true);
    NewIdsUnused(m2);
  }

  lemma NewIdsUnused(m: Machine)
    requires m.running && MachineInv(m)
    ensures forall i | m.fs.next <= i < |m.fs.table| :: !m.fs.table[i].active
  {
    hide Owns, Orderly;
  }

  // ---------- an image from another boot ----------

  // File or directory i is as it was: in use, the same name, type and place, the same content.
  ghost predicate Unharmed(fs: Fs, fs': Fs, i: int) {
    && Intact(fs.table, fs'.table, i)
    && fs'.table[i].dataOffset == fs.table[i].dataOffset && fs'.table[i].dataSize == fs.table[i].dataSize
    && ContentOf(fs', i) == ContentOf(fs, i)
  }

  // The counter is not part of an image. A create over a loaded image leaves everything in it unharmed exactly when the
  // id that is given out next is not in use there.
  lemma CreateAfterLoad(m: Machine, fs: Fs, parent: int, name: Text, kind: int)
    requires m.image.Image? && Inv(m.image.fs) && 0 < m.fs.next <= MAX_INODES
    requires fs == Step(m, Load, true).fs && CanCreate(fs, parent, name)
    ensures var fs' := Create(fs, parent, name, kind).0;
            (forall i | 0 <= i < MAX_INODES && fs.table[i].active :: Unharmed(fs, fs', i))
            <==> !fs.table[fs.next].active
  {
    hide Owns, Shape, SiblingsDiffer;
    var fs' := Create(fs, parent, name, kind).0;
    if fs.table[fs.next].active {
      TakenName(m.image.fs, fs.next, parent, name);
    } else {
      forall i | 0 <= i < MAX_INODES && fs.table[i].active ensures Unharmed(fs, fs', i) {
        StepKeepsInode(fs, Mk(parent, name, kind), i);
      }
    }
  }

  // An inode in use has another name than one that can be created, or lies in another directory.
  lemma TakenName(fs: Fs, i: int, parent: int, name: Text)
    requires Inv(fs) && 0 < i < MAX_INODES && fs.table[i].active
    requires Valid(fs.table, parent) && Lookup(fs.table, parent, name) == -1
    ensures !(fs.table[i].parent == parent && fs.table[i].name == name)
  {
    hide Owns, Shape, SiblingsDiffer, Lookup;
    LookupExact(fs.table, fs.next, parent, name);
  }

  predicate AllBelow(t: Table, next: int) {
    forall i | 0 <= i < |t| && t[i].active :: i < next
  }

  // If the counter has passed everything in use in the image, then whatever is done after the load, each of its files
  // and directories is there until it is removed itself, and holds what was last written to it.
  lemma LoadedSurvives(m: Machine, fs: Fs, ops: seq<Op>, i: int)
    requires m.image.Image? && Inv(m.image.fs) && AllBelow(m.image.fs.table, m.fs.next) && 0 < m.fs.next <= MAX_INODES
    requires fs == Step(m, Load, true).fs && GoodRun(ops)
    requires Valid(fs.table, i) && fs.table[i].active && Rm(i) !in ops
    ensures var (fs', results) := Run(fs, ops);
            var content := LastText(ContentOf(fs, i), ops, results, i);
            && Intact(fs.table, fs'.table, i)
            && ContentOf(fs', i) == content
            && Read(fs', i) == if fs.table[i].kind == INODE_FILE then ReadOf(content) else (-1, [])
  {
    LoadedIsSane(m);
    hide Inv, Sane, GoodOp, Run, LastText, Read, Step, AllBelow;
    RunKeepsInode(fs, ops, i);
    ContentIsLastText(fs, ops, i);
    ReadIsContent(Run(fs, ops).0, i);
  }

  lemma LoadedIsSane(m: Machine)
    requires m.image.Image? && Inv(m.image.fs) && AllBelow(m.image.fs.table, m.fs.next) && 0 < m.fs.next <= MAX_INODES
    ensures Sane(Step(m, Load, true).fs)
  {
    hide Tree, Owns;
    InvIsSane(m.image.fs);
    OwnsFrame(m.image.fs, Step(m, Load, true).fs);
  }

  // touch a, save, reboot, load, touch b: the id of a is given out again, and a is gone.
  lemma RebootLosesFile()
    ensures var fs := FileModel.Create(Boot, HOME_ID, "a", INODE_FILE).0;
            var m := Step(BootMachine.(image := Image(fs, BootProcs)), Load, true);
            var m' := Step(m, Touch("b"), true);
            && Inv(fs) && !AllBelow(m.fs.table, m.fs.next)
            && Lookup(m.fs.table, HOME_ID, "a") == 6
            && Lookup(m'.fs.table, HOME_ID, "a") == -1 && m'.fs.table[HOME_ID].Kids() == [6, 6]
  {
    hide Inv, Linked, Lookup;
    var fs := FileModel.Create(Boot, HOME_ID, "a", INODE_FILE).0;
    FirstFile(fs);
    assert fs.table[6].active;
    TwiceLinked(fs.table);
  }

  lemma FirstFile(fs: Fs)
    requires fs == FileModel.Create(Boot, HOME_ID, "a", INODE_FILE).0
    ensures Inv(fs) && |fs.table| == MAX_INODES && fs.table[HOME_ID].kind == INODE_DIR
    ensures |fs.table[HOME_ID].children| == MAX_CHILDREN && fs.table[HOME_ID].Kids() == [6]
    ensures fs.table[HOME_ID].childCount == 1 && fs.table[6] == NewInode(6, "a", INODE_FILE, HOME_ID)
  {
    BootInv();
    BootKids(HOME_ID);
    BootEntry(HOME_ID);
    CreateShape(Boot, HOME_ID, "a", INODE_FILE);
    StepInv(Boot, Mk(HOME_ID, "a", INODE_FILE));
    hide Owns;
    assert Shape(fs.table[HOME_ID]);
  }

  lemma TwiceLinked(t: Table)
    requires |t| == MAX_INODES && t[HOME_ID].kind == INODE_DIR && |t[HOME_ID].children| == MAX_CHILDREN
    requires t[HOME_ID].Kids() == [6] && t[6] == NewInode(6, "a", INODE_FILE, HOME_ID)
    ensures Lookup(t, HOME_ID, "a") == 6 && Lookup(t, HOME_ID, "b") == -1
    ensures var t' := Linked(t, 6, "b", INODE_FILE, HOME_ID);
            Lookup(t', HOME_ID, "a") == -1 && t'[HOME_ID].Kids() == [6, 6]
  {
    var t' := Linked(t, 6, "b", INODE_FILE, HOME_ID);
    assert t'[HOME_ID].Kids() == t[HOME_ID].Kids() + [6];
    FirstNamedFinds(t, [6], "a");
    FirstNamedFinds(t, [6], "b");
    FirstNamedFinds(t', [6, 6], "a");
    assert 6 in [6] && 6 in [6, 6];
  }
}
