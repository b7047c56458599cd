/** core/scheduler.c on values: sixteen process slots and a tick counter. */
module SchedulerModel {
  import opened Layout

  const PROC_SLEEPING := 0
  const PROC_RUNNING := 1

  // The task name is written and listed by the source but decides nothing; it is not part of the model.
  datatype Process = Process(pid: int, status: int, ticks: int)

  type Procs = seq<Process>

  const Empty: Process := Process(-1, PROC_SLEEPING, 0)

  function FreeSlot(procs: Procs, i: nat := 0): (k: nat)
    requires i <= |procs|
    ensures i <= k <= |procs| && (forall j | i <= j < k :: procs[j].pid != -1) && (k < |procs| ==> procs[k].pid == -1)
    decreases |procs| - i
  {
    if i == |procs| || procs[i].pid == -1 then i else FreeSlot(procs, i + 1)
  }

  function Spawn(procs: Procs): (Procs, int) {
    var k := FreeSlot(procs);
    if k == |procs| then (procs, -1) else (procs[k := Process(k, PROC_RUNNING, 0)], k as int)
  }

  function Kill(procs: Procs, pid: int): Procs {
    if 0 <= pid < |procs| && procs[pid].pid != -1 then procs[pid := Empty] else procs
  }

  function Ticked(p: Process): Process {
    if p.pid != -1 && p.status == PROC_RUNNING then p.(ticks := p.ticks + 1) else p
  }

  function Tick(procs: Procs): Procs {
    seq(|procs|, i requires 0 <= i < |procs| => Ticked(procs[i]))
  }

  const Vacant: Procs := seq(MAX_PROCESSES, _ => Empty)

  // scheduler_init: the table is emptied and "uptime" takes slot 0.
  const BootProcs: Procs := Vacant[0 := Process(0, PROC_RUNNING, 0)]

  // Live slot i has pid i and runs; no process has been ticked more often than the system.
  predicate Orderly(procs: Procs, ticks: int) {
    && |procs| == MAX_PROCESSES && 0 <= ticks
    && forall i | 0 <= i < |procs| ::
         && procs[i].pid in {-1, i}
         && (procs[i].pid == i ==> procs[i].status == PROC_RUNNING)
         && 0 <= procs[i].ticks <= ticks
  }

  lemma BootOrderly()
    ensures Orderly(BootProcs, 0) && Spawn(Vacant) == (BootProcs, 0)
    ensures forall i | 0 <= i < |BootProcs| :: BootProcs[i] == if i == 0 then Process(0, 1, 0) else Process(-1, 0, 0)
  {
    assert Vacant[0].pid == -1;
  }

  lemma SpawnOrderly(procs: Procs, ticks: int)
    requires Orderly(procs, ticks)
    ensures var (procs', pid) := Spawn(procs);
            && Orderly(procs', ticks)
            && (pid == -1 <==> forall i | 0 <= i < |procs| :: procs[i].pid != -1)
            && (pid != -1 ==> 0 <= pid < |procs| && procs'[pid].pid == pid)
  {
  }

  lemma TickOrderly(procs: Procs, ticks: int)
    requires Orderly(procs, ticks)
    ensures Orderly(Tick(procs), ticks + 1)
  {
  }

  // What the three operations do to one slot.
  lemma SlotMeaning(procs: Procs, pid: int, i: int)
    requires 0 <= i < |procs|
    ensures var (procs', slot) := Spawn(procs);
            && |procs'| == |procs|
            && (slot == i ==> procs[i].pid == -1 && procs'[i].pid == i && procs'[i].status == 1 && procs'[i].ticks == 0)
            && (slot != i ==> procs'[i] == procs[i])
            && (i < slot ==> procs[i].pid != -1)
    ensures |Kill(procs, pid)| == |procs|
    ensures Kill(procs, pid)[i] == if i == pid && procs[i].pid != -1 then Process(-1, 0, 0) else procs[i]
    ensures |Tick(procs)| == |procs| && Tick(procs)[i].pid == procs[i].pid && Tick(procs)[i].status == procs[i].status
    ensures Tick(procs)[i].ticks == procs[i].ticks + if procs[i].pid != -1 && procs[i].status == 1 then 1 else 0
  {
  }

  // ---------- runs of the scheduler ----------

  datatype SchedOp = DoSpawn | DoKill(pid: int) | DoTick

  datatype Sched = Sched(procs: Procs, ticks: int)

  function SchedStep(s: Sched, op: SchedOp): Sched {
    match op
    case DoSpawn => s.(procs := Spawn(s.procs).0)
    case DoKill(pid) => s.(procs := Kill(s.procs, pid))
    case DoTick => Sched(Tick(s.procs), s.ticks + 1)
  }

  function SchedRun(start: Sched, ops: seq<SchedOp>): Sched
    decreases |ops|
  {
    if ops == [] then start else SchedStep(SchedRun(start, ops[..|ops| - 1]), ops[|ops| - 1])
  }

  // The tick count of the system when slot i was last taken.
  function SpawnedAt(start: Sched, ops: seq<SchedOp>, i: int): int
    decreases |ops|
  {
    if ops == [] then start.ticks
    else
      var k := |ops| - 1;
      var s := SchedRun(start, ops[..k]);
      if ops[k].DoSpawn? && FreeSlot(s.procs) == i then s.ticks else SpawnedAt(start, ops[..k], i)
  }

  // The ticks of a live process are the system ticks since it was spawned.
  lemma {:induction false} TicksSinceSpawn(start: Sched, ops: seq<SchedOp>, i: int)
    requires Orderly(start.procs, start.ticks) && 0 <= i < MAX_PROCESSES
    requires start.procs[i].pid != -1 ==> start.procs[i].ticks == 0
    ensures var s := SchedRun(start, ops);
            && Orderly(s.procs, s.ticks)
            && (s.procs[i].pid != -1 ==> s.procs[i].ticks == s.ticks - SpawnedAt(start, ops, i))
    decreases |ops|
  {
    if ops != [] {
      var k := |ops| - 1;
      var s := SchedRun(start, ops[..k]);
      TicksSinceSpawn(start, ops[..k], i);
      match ops[k]
      case DoSpawn => SpawnOrderly(s.procs, s.ticks);
      case DoKill(pid) =>
      case DoTick => TickOrderly(s.procs, s.ticks);
    }
  }
}
