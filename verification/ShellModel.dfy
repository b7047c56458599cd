/**
 core/commands.c and core/shell.c on values: a command is a step of a machine that holds the file system, the current
 directory, the process table, the tick counter and the disk image of `save`.
 */
module ShellModel {
  import opened Layout
  import opened Bytes
  import opened Blocks
  import opened StringLaws
  import opened FileModel
  import opened TreeLaws
  import opened OwnershipLaws
  import opened FileRuns
  import opened SchedulerModel

  const HOME_ID := 3

  // ---------- commands ----------

  // What a command line asks for. Nop: commands that change no state, usage errors, unknown commands.
  datatype Command =
    | Nop
    | Mkdir(name: Text)
    | Touch(name: Text)
    | Fill(name: Text, content: Text)
    | Remove(name: Text)
    | CdHome
    | CdUp
    | CdRoot
    | CdTo(name: Text)
    | Save
    | Load
    | Exit
    | Halt

  const BLANK: Byte := ' '

  // The ways to call cd.
  function CdCommand(tokens: seq<Text>): Command {
    if |tokens| < 2 then CdHome
    else if tokens[1] == ".." then CdUp
    else if tokens[1] == "/" then CdRoot
    else CdTo(tokens[1])
  }

  // command_dispatch together with the argument checks of each command.
  function Parse(tokens: seq<Text>): Command {
    if tokens == [] || |tokens[0]| == 0 || |tokens[0]| > 32 then Nop
    else if tokens[0] == "mkdir" then if |tokens| < 2 then Nop else Mkdir(tokens[1])
    else if tokens[0] == "touch" then if |tokens| < 2 then Nop else Touch(tokens[1])
    else if tokens[0] == "exit" then Exit
    else if tokens[0] == "write" then if |tokens| < 3 then Nop else Fill(tokens[1], Join(tokens[2..], BLANK))
    else if tokens[0] == "rm" then if |tokens| < 2 then Nop else Remove(tokens[1])
    else if tokens[0] == "cd" then CdCommand(tokens)
    else if tokens[0] == "save" then Save
    else if tokens[0] == "load" then Load
    else if tokens[0] == "halt" then Halt
    else Nop
  }

  // ---------- the machine ----------

  datatype Image = NoImage | Image(fs: Fs, procs: Procs)

  datatype Machine = Machine(fs: Fs, cwd: int, procs: Procs, ticks: int, image: Image, running: bool)

  // The image file does not exist at boot.
  const BootMachine: Machine := Machine(Boot, HOME_ID, BootProcs, 0, NoImage, true)

  function ParentOf(t: Table, cwd: int): int {
    if Valid(t, cwd) && t[cwd].parent != -1 then t[cwd].parent else 0
  }

  function EnterDir(t: Table, cwd: int, name: Text): int {
    var id := Lookup(t, cwd, name);
    if id == -1 || !Valid(t, id) || t[id].kind != INODE_DIR then cwd else id
  }

  function FillFile(fs: Fs, cwd: int, name: Text, content: Text): Fs {
    var id := Lookup(fs.table, cwd, name);
    if id == -1 || !Valid(fs.table, id) || fs.table[id].kind != INODE_FILE then fs else Write(fs, id, content).0
  }

  function RemoveChild(fs: Fs, cwd: int, name: Text): Fs {
    var id := Lookup(fs.table, cwd, name);
    if id == -1 then fs else Delete(fs, id).0
  }

  // What load brings back: everything in RAM. The inode counter lives outside RAM and keeps its value.
  function Restored(m: Machine): Machine {
    if m.image.NoImage? then m
    else m.(fs := m.image.fs.(next := m.fs.next), procs := m.image.procs)
  }

  function WipedTable(): Table { seq(MAX_INODES, _ => Blank) }

  function WipedProcs(): Procs { seq(MAX_PROCESSES, _ => Process(0, 0, 0)) }

  // memory_init: RAM is zeroed but for one free block.
  function Wiped(m: Machine): Machine {
    m.(fs := Fs(WipedTable(), m.fs.next, InitialChain, map[]), procs := WipedProcs(), running := false)
  }

  // disk: whether opening the image file succeeds.
  function Step(m: Machine, cmd: Command, disk: bool): Machine {
    match cmd
    case Nop => m
    case Mkdir(name) => m.(fs := Create(m.fs, m.cwd, name, INODE_DIR).0)
    case Touch(name) => m.(fs := Create(m.fs, m.cwd, name, INODE_FILE).0)
    case Fill(name, content) => m.(fs := FillFile(m.fs, m.cwd, name, content))
    case Remove(name) => m.(fs := RemoveChild(m.fs, m.cwd, name))
    case CdHome => m.(cwd := HOME_ID)
    case CdUp => m.(cwd := ParentOf(m.fs.table, m.cwd))
    case CdRoot => m.(cwd := 0)
    case CdTo(name) => m.(cwd := EnterDir(m.fs.table, m.cwd, name))
    case Save => if disk then m.(image := Image(m.fs, m.procs)) else m
    case Load => if disk then Restored(m) else m
    case Exit => m.(running := false)
    case Halt => Wiped(m)
  }

  // scheduler_tick runs after every dispatched command, exit and halt included.
  function AfterTick(m: Machine): Machine {
    m.(procs := Tick(m.procs), ticks := m.ticks + 1)
  }

  datatype Input = Input(line: Text, disk: bool)

  // One turn of the loop of shell_run.
  function Turn(m: Machine, input: Input): Machine {
    var line := Trim(input.line);
    if !m.running || line == [] then m
    else
      var tokens := Split(line, BLANK);
      if tokens == [] then m else AfterTick(Step(m, Parse(tokens), input.disk))
  }

  function Session(start: Machine, inputs: seq<Input>): Machine
    decreases |inputs|
  {
    if inputs == [] then start else Turn(Session(start, inputs[..|inputs| - 1]), inputs[|inputs| - 1])
  }

  // Names that fit an inode, contents that are C strings.
  predicate GoodCommand(cmd: Command) {
    match cmd
    case Mkdir(name) => GoodName(name)
    case Touch(name) => GoodName(name)
    case Fill(_, content) => NUL !in content
    case _ => true
  }

  predicate GoodInput(input: Input) { GoodCommand(Parse(Split(Trim(input.line), BLANK))) }

  // ---------- what every session keeps ----------

  ghost predicate ImageOk(image: Image, next: int, ticks: int) {
    image.Image? ==> Inv(image.fs) && image.fs.next <= next && Orderly(image.procs, ticks)
  }

  ghost predicate Sound(m: Machine) {
    && Inv(m.fs) && Valid(m.fs.table, m.cwd)
    && Orderly(m.procs, m.ticks)
    && ImageOk(m.image, m.fs.next, m.ticks)
  }

  // What halt leaves: RAM as memory_init makes it.
  predicate Halted(m: Machine) {
    !m.running && m.fs == Fs(WipedTable(), m.fs.next, InitialChain, map[]) && m.procs == WipedProcs() && 0 <= m.ticks
  }

  // Everything is well formed, stopped by exit or not, unless halt has wiped it.
  ghost predicate MachineInv(m: Machine) {
    Sound(m) || Halted(m)
  }

  // A larger counter is as good: the slots it skips are never created ones.
  lemma CounterMayGrow(fs: Fs, next: int)
    requires Inv(fs) && fs.next <= next <= MAX_INODES
    ensures Inv(fs.(next := next))
  {
    var fs' := fs.(next := next);
    OwnsFrame(fs, fs');
  }

  lemma FsStepGrows(fs: Fs, op: Op)
    requires Inv(fs) && GoodOp(op)
    ensures Inv(Apply(fs, op).0) && fs.next <= Apply(fs, op).0.next <= MAX_INODES
  {
    StepInv(fs, op);
  }

  lemma LookupValid(t: Table, next: int, d: int, name: Text)
    requires Tree(t, next)
    ensures Lookup(t, d, name) == -1 || IsChild(t, d, Lookup(t, d, name))
  {
    if Valid(t, d) { LookupExact(t, next, d, name); }
  }

  lemma StepKeepsInv(m: Machine, cmd: Command, disk: bool)
    requires m.running && MachineInv(m) && GoodCommand(cmd)
    ensures MachineInv(Step(m, cmd, disk))
  {
    hide Owns;
    match cmd
    case Mkdir(name) => FsStepGrows(m.fs, Mk(m.cwd, name, INODE_DIR));
    case Touch(name) => FsStepGrows(m.fs, Mk(m.cwd, name, INODE_FILE));
    case Fill(name, content) => FsStepGrows(m.fs, Put(Lookup(m.fs.table, m.cwd, name), content));
    case Remove(name) => FsStepGrows(m.fs, Rm(Lookup(m.fs.table, m.cwd, name)));
    case Load => if disk && m.image.Image? { CounterMayGrow(m.image.fs, m.fs.next); }
    case CdUp => assert ParentsBelow(m.fs.table);
    case CdTo(name) => LookupValid(m.fs.table, m.fs.next, m.cwd, name);
    case _ =>
  }

  lemma TickKeepsInv(m: Machine)
    requires MachineInv(m)
    ensures MachineInv(AfterTick(m))
  {
    hide Inv;
    if Sound(m) {
      TickOrderly(m.procs, m.ticks);
    } else {
      assert Tick(WipedProcs()) == WipedProcs();
    }
  }

  // After every session the tree, the ownership of blocks and the saved image are well formed, loads included, unless
  // it ended with halt.
  lemma {:induction false} SessionInv(inputs: seq<Input>)
    requires forall i | 0 <= i < |inputs| :: GoodInput(inputs[i])
    ensures MachineInv(Session(BootMachine, inputs))
    decreases |inputs|
  {
    if inputs == [] {
      BootInv();
      BootOrderly();
    } else {
      var k := |inputs| - 1;
      SessionInv(inputs[..k]);
      TurnKeepsInv(Session(BootMachine, inputs[..k]), inputs[k]);
    }
  }

  lemma TurnKeepsInv(m: Machine, input: Input)
    requires MachineInv(m) && GoodInput(input)
    ensures MachineInv(Turn(m, input))
  {
    var line := Trim(input.line);
    if m.running && line != [] && Split(line, BLANK) != [] {
      var cmd := Parse(Split(line, BLANK));
      hide MachineInv, Parse;
      StepKeepsInv(m, cmd, input.disk);
      TickKeepsInv(Step(m, cmd, input.disk));
    }
  }

  lemma StoppedTurn(m: Machine, input: Input)
    requires !m.running
    ensures Turn(m, input) == m
  {
  }

  // ---------- the current directory ----------

  // The current directory is an id handed out before, of directory type; so is the home directory.
  predicate DirCwd(m: Machine) {
    && |m.fs.table| == MAX_INODES && HOME_ID < m.fs.next <= MAX_INODES && m.fs.table[HOME_ID].kind == INODE_DIR
    && 0 <= m.cwd < m.fs.next && m.fs.table[m.cwd].kind == INODE_DIR
  }

  // Creating, deleting and writing never change the type of an inode that exists.
  lemma KindsKept(fs: Fs, op: Op, i: int)
    requires Inv(fs) && 0 <= i < fs.next
    ensures var fs' := Apply(fs, op).0;
            |fs'.table| == |fs.table| && fs'.table[i].kind == fs.table[i].kind
  {
    hide Owns, Linked, Unlinked, AfterDealloc, AfterAlloc, AllocResult;
    match op
    case Mk(parent, name, kind) => if CanCreate(fs, parent, name) { CreateShape(fs, parent, name, kind); }
    case Rm(id) => if CanDelete(fs, id) { DeleteShape(fs, id); WithoutChildKids(fs.table[fs.table[id].parent], id); }
    case Put(id, data) =>
  }

  lemma FsStepKeepsDirCwd(m: Machine, op: Op)
    requires MachineInv(m) && m.running && DirCwd(m) && GoodOp(op)
    ensures DirCwd(m.(fs := Apply(m.fs, op).0))
  {
    FsStepGrows(m.fs, op);
    KindsKept(m.fs, op, m.cwd);
    KindsKept(m.fs, op, HOME_ID);
  }

  // No command but load (and halt) can make the current directory anything but a directory.
  lemma StepKeepsDirCwd(m: Machine, cmd: Command, disk: bool)
    requires m.running && MachineInv(m) && DirCwd(m) && GoodCommand(cmd) && !cmd.Load? && !cmd.Halt?
    ensures DirCwd(Step(m, cmd, disk))
  {
    hide Owns, DirCwd;
    match cmd
    case Mkdir(name) => FsStepKeepsDirCwd(m, Mk(m.cwd, name, INODE_DIR));
    case Touch(name) => FsStepKeepsDirCwd(m, Mk(m.cwd, name, INODE_FILE));
    case Fill(name, content) => FsStepKeepsDirCwd(m, Put(Lookup(m.fs.table, m.cwd, name), content));
    case Remove(name) => FsStepKeepsDirCwd(m, Rm(Lookup(m.fs.table, m.cwd, name)));
    case _ => MoveKeepsDirCwd(m, cmd, disk);
  }

  lemma MoveKeepsDirCwd(m: Machine, cmd: Command, disk: bool)
    requires m.running && MachineInv(m) && DirCwd(m)
    requires cmd.Nop? || cmd.CdHome? || cmd.CdUp? || cmd.CdRoot? || cmd.CdTo? || cmd.Save? || cmd.Exit?
    ensures DirCwd(Step(m, cmd, disk))
  {
    hide Owns;
    match cmd
    case CdUp =>
      assert ParentsBelow(m.fs.table);
      assert m.cwd != 0 ==> m.fs.table[m.fs.table[m.cwd].parent].kind == INODE_DIR;
    case CdTo(name) => LookupValid(m.fs.table, m.fs.next, m.cwd, name);
    case _ =>
  }

  predicate LiveDir(t: Table, id: int) {
    Valid(t, id) && t[id].active && t[id].kind == INODE_DIR
  }

  // The current directory is an active directory, and no active inode has lost its parent.
  ghost predicate ActiveCwd(m: Machine) {
    Rooted(m.fs.table) && LiveDir(m.fs.table, m.cwd)
  }

  // What can be checked before a command: a bare cd needs the home directory; load needs an image whose own tree is
  // rooted and has the directory the shell is in.
  ghost predicate KeepsCwd(m: Machine, cmd: Command, disk: bool) {
    match cmd
    case CdHome => LiveDir(m.fs.table, HOME_ID)
    case Load => disk && m.image.Image? ==> Rooted(m.image.fs.table) && LiveDir(m.image.fs.table, m.cwd)
    case Halt => false
    case _ => true
  }

  lemma CreateKeepsCwd(m: Machine, name: Text, kind: int)
    requires m.running && MachineInv(m) && ActiveCwd(m) && GoodName(name) && kind in {INODE_FILE, INODE_DIR}
    ensures ActiveCwd(m.(fs := Create(m.fs, m.cwd, name, kind).0))
  {
    CreateRooted(m.fs, m.cwd, name, kind);
    if CanCreate(m.fs, m.cwd, name) { CreateShape(m.fs, m.cwd, name, kind); }
  }

  lemma FillKeepsCwd(m: Machine, name: Text, content: Text)
    requires m.running && MachineInv(m) && ActiveCwd(m) && NUL !in content
    ensures ActiveCwd(m.(fs := FillFile(m.fs, m.cwd, name, content)))
  {
    hide Owns, Tree, Rooted, Lookup, AfterDealloc, AfterAlloc, AllocResult;
    var id := Lookup(m.fs.table, m.cwd, name);
    WriteInv(m.fs, id, content);
  }

  lemma RemoveKeepsCwd(m: Machine, name: Text)
    requires m.running && MachineInv(m) && ActiveCwd(m)
    ensures ActiveCwd(m.(fs := RemoveChild(m.fs, m.cwd, name)))
  {
    var id := Lookup(m.fs.table, m.cwd, name);
    LookupValid(m.fs.table, m.fs.next, m.cwd, name);
    DeleteRooted(m.fs, id);
    if id != -1 && CanDelete(m.fs, id) {
      DeleteShape(m.fs, id);
      WithoutChildKids(m.fs.table[m.cwd], id);
    }
  }

  // rm cannot delete the current directory or one above it; a step loses the current directory exactly when a bare cd
  // finds the home directory deleted, when load brings back a state without it, or when halt wipes everything.
  lemma StepKeepsActiveCwd(m: Machine, cmd: Command, disk: bool)
    requires m.running && MachineInv(m) && ActiveCwd(m) && GoodCommand(cmd)
    ensures ActiveCwd(Step(m, cmd, disk)) <==> KeepsCwd(m, cmd, disk)
  {
    hide Owns, Orderly;
    match cmd
    case Mkdir(name) => CreateKeepsCwd(m, name, INODE_DIR);
    case Touch(name) => CreateKeepsCwd(m, name, INODE_FILE);
    case Fill(name, content) => FillKeepsCwd(m, name, content);
    case Remove(name) => RemoveKeepsCwd(m, name);
    case CdUp =>
      assert ParentsBelow(m.fs.table);
      assert m.cwd != 0 ==> m.fs.table[m.fs.table[m.cwd].parent].kind == INODE_DIR;
    case CdTo(name) => LookupValid(m.fs.table, m.fs.next, m.cwd, name);
    case _ =>
  }
}
