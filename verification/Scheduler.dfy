/** core/scheduler.c over the bytes of RAM. */
module Scheduler {
  import opened Layout
  import opened Bytes
  import opened Memory
  import opened StringLib
  import opened SchedulerModel

  // Offsets of the fields of struct Process.
  const P_PID := 0
  const P_NAME := 4
  const P_STATUS := 20
  const P_TICKS := 24

  function ProcAddr(i: int): int { PROCESS_TABLE_OFFSET + i * PROCESS_ENTRY_SIZE }

  predicate ProcSlot(i: int) { 0 <= i < MAX_PROCESSES }

  function ProcAt(s: seq<Byte>, i: int): Process
    requires |s| == RAM_SIZE && ProcSlot(i)
  {
    Process(IntAt(s, ProcAddr(i) + P_PID), IntAt(s, ProcAddr(i) + P_STATUS), IntAt(s, ProcAddr(i) + P_TICKS))
  }

  function ProcsOf(s: seq<Byte>): Procs
    requires |s| == RAM_SIZE
  {
    seq(MAX_PROCESSES, i requires 0 <= i < MAX_PROCESSES => ProcAt(s, i))
  }

  lemma ProcFrame(s: seq<Byte>, t: seq<Byte>, i: int)
    requires |s| == RAM_SIZE && ProcSlot(i) && Agree(s, t, ProcAddr(i), ProcAddr(i) + PROCESS_ENTRY_SIZE)
    ensures ProcAt(t, i) == ProcAt(s, i)
  {
  }

  lemma ProcsFrame(s: seq<Byte>, t: seq<Byte>)
    requires |s| == RAM_SIZE && Agree(s, t, PROCESS_TABLE_OFFSET, DATA_REGION_OFFSET)
    ensures ProcsOf(t) == ProcsOf(s)
  {
    forall i | 0 <= i < MAX_PROCESSES ensures ProcAt(t, i) == ProcAt(s, i) {
      ProcFrame(s, t, i);
    }
  }

  // A change inside one process slot changes that process at most.
  lemma ProcWrite(s: seq<Byte>, t: seq<Byte>, i: int)
    requires |s| == RAM_SIZE && ProcSlot(i) && AgreeOutside(s, t, ProcAddr(i), ProcAddr(i) + PROCESS_ENTRY_SIZE)
    ensures ProcsOf(t) == ProcsOf(s)[i := ProcAt(t, i)]
    ensures AgreeOutside(s, t, PROCESS_TABLE_OFFSET, DATA_REGION_OFFSET)
  {
    forall j | 0 <= j < MAX_PROCESSES && j != i ensures ProcAt(t, j) == ProcAt(s, j) {
      ProcFrame(s, t, j);
    }
  }

  class Scheduler {
    const mem: VirtualRam
    var globalTicks: int

    constructor (mem: VirtualRam)
      ensures this.mem == mem
    {
      this.mem := mem;
      globalTicks := 0;
    }

    ghost function Procs(): Procs
      requires mem.ram.Length == RAM_SIZE
      reads mem.ram
    {
      ProcsOf(mem.ram[..])
    }

    ghost predicate Valid()
      reads this, mem.ram
    {
      mem.ram.Length == RAM_SIZE && Orderly(Procs(), globalTicks)
    }

    function GetField(i: int, f: int): int
      requires mem.ram.Length == RAM_SIZE && ProcSlot(i) && 0 <= f <= P_TICKS
      reads mem.ram
    {
      IntAt(mem.ram[..], ProcAddr(i) + f)
    }

    // The four assignments to one process. The name is written and not read back.
    method SetProcess(i: int, pid: int, name: Text, status: int, ticks: int)
      requires mem.ram.Length == RAM_SIZE && ProcSlot(i) && |name| < P_STATUS - P_NAME && NUL !in name
      requires MIN_INT <= pid <= MAX_INT && MIN_INT <= status <= MAX_INT && MIN_INT <= ticks <= MAX_INT
      modifies mem.ram
      ensures Procs() == old(Procs())[i := Process(pid, status, ticks)]
      ensures AgreeOutside(old(mem.ram[..]), mem.ram[..], PROCESS_TABLE_OFFSET, DATA_REGION_OFFSET)
    {
      ghost var s := mem.ram[..];
      PutInt(mem.ram, ProcAddr(i) + P_PID, pid);
      ghost var s1 := mem.ram[..];
      CStrLit(name);
      StrCpy(mem.ram, ProcAddr(i) + P_NAME, Lit(name), 0);
      KeepInt(s1, mem.ram[..], ProcAddr(i) + P_PID);
      hide CStr, IntAt;
      ghost var s2 := mem.ram[..];
      PutInt(mem.ram, ProcAddr(i) + P_STATUS, status);
      KeepInt(s2, mem.ram[..], ProcAddr(i) + P_PID);
      ghost var s3 := mem.ram[..];
      PutInt(mem.ram, ProcAddr(i) + P_TICKS, ticks);
      KeepInt(s3, mem.ram[..], ProcAddr(i) + P_PID);
      KeepInt(s3, mem.ram[..], ProcAddr(i) + P_STATUS);
      ProcWrite(s, mem.ram[..], i);
    }

    method SetTicks(i: int, ticks: int)
      requires mem.ram.Length == RAM_SIZE && ProcSlot(i) && MIN_INT <= ticks <= MAX_INT
      modifies mem.ram
      ensures Procs() == old(Procs())[i := old(Procs())[i].(ticks := ticks)]
      ensures AgreeOutside(old(mem.ram[..]), mem.ram[..], PROCESS_TABLE_OFFSET, DATA_REGION_OFFSET)
    {
      ghost var s := mem.ram[..];
      PutInt(mem.ram, ProcAddr(i) + P_TICKS, ticks);
      KeepInt(s, mem.ram[..], ProcAddr(i) + P_PID);
      KeepInt(s, mem.ram[..], ProcAddr(i) + P_STATUS);
      hide IntAt;
      ProcWrite(s, mem.ram[..], i);
    }

    method Init()
      requires mem.ram.Length == RAM_SIZE
      modifies this, mem.ram
      ensures Valid() && globalTicks == 0 && Procs() == BootProcs
      ensures AgreeOutside(old(mem.ram[..]), mem.ram[..], PROCESS_TABLE_OFFSET, DATA_REGION_OFFSET)
    {
      hide ProcsOf, Orderly;
      globalTicks := 0;
      var i := 0;
      RowsOf(mem.ram[..]);
      while i < MAX_PROCESSES
        invariant 0 <= i <= MAX_PROCESSES && |Procs()| == MAX_PROCESSES && globalTicks == 0
        invariant forall j | 0 <= j < i :: Procs()[j] == Empty
        invariant AgreeOutside(old(mem.ram[..]), mem.ram[..], PROCESS_TABLE_OFFSET, DATA_REGION_OFFSET)
      {
        SetProcess(i, -1, "", PROC_SLEEPING, 0);
        i := i + 1;
      }
      assert Procs() == Vacant;
      BootOrderly();
      VacantOrderly();
      var pid := Spawn("uptime");
    }

    method Spawn(name: Text) returns (pid: int)
      requires Valid() && |name| < P_STATUS - P_NAME && NUL !in name
      modifies mem.ram
      ensures Valid() && (Procs(), pid) == SchedulerModel.Spawn(old(Procs()))
      ensures AgreeOutside(old(mem.ram[..]), mem.ram[..], PROCESS_TABLE_OFFSET, DATA_REGION_OFFSET)
    {
      hide IntAt, Orderly;
      ghost var procs := Procs();
      SpawnOrderly(procs, globalTicks);
      var i := 0;
      while i < MAX_PROCESSES
        invariant 0 <= i <= MAX_PROCESSES && mem.ram[..] == old(mem.ram[..])
        invariant FreeSlot(procs) == FreeSlot(procs, i)
      {
        if GetField(i, P_PID) == -1 {
          SetProcess(i, i, name, PROC_RUNNING, 0);
          return i;
        }
        i := i + 1;
      }
      pid := -1;
    }

    method Kill(pid: int)
      requires Valid()
      modifies mem.ram
      ensures Valid() && Procs() == SchedulerModel.Kill(old(Procs()), pid)
      ensures AgreeOutside(old(mem.ram[..]), mem.ram[..], PROCESS_TABLE_OFFSET, DATA_REGION_OFFSET)
    {
      hide IntAt;
      if !ProcSlot(pid) {
        return;
      }
      if GetField(pid, P_PID) == -1 {
        return;
      }
      SetProcess(pid, -1, "", PROC_SLEEPING, 0);
    }

    // Counters are assumed not to run over; nothing else is asked of the table.
    method Tick()
      requires mem.ram.Length == RAM_SIZE && globalTicks < MAX_INT
      requires forall i | 0 <= i < MAX_PROCESSES :: Procs()[i].ticks < MAX_INT
      modifies this, mem.ram
      ensures globalTicks == old(globalTicks) + 1 && Procs() == SchedulerModel.Tick(old(Procs()))
      ensures AgreeOutside(old(mem.ram[..]), mem.ram[..], PROCESS_TABLE_OFFSET, DATA_REGION_OFFSET)
    {
      hide IntAt, ProcsOf;
      ghost var procs := Procs();
      RowsOf(mem.ram[..]);
      globalTicks := globalTicks + 1;
      var i := 0;
      while i < MAX_PROCESSES
        invariant 0 <= i <= MAX_PROCESSES == |Procs()| == |procs| && globalTicks == old(globalTicks) + 1
        invariant forall j | 0 <= j < i :: Procs()[j] == Ticked(procs[j])
        invariant forall j | i <= j < MAX_PROCESSES :: Procs()[j] == procs[j]
        invariant AgreeOutside(old(mem.ram[..]), mem.ram[..], PROCESS_TABLE_OFFSET, DATA_REGION_OFFSET)
      {
        RowsOf(mem.ram[..]);
        if GetField(i, P_PID) != -1 && GetField(i, P_STATUS) == PROC_RUNNING {
          assert procs[i].ticks < MAX_INT;
          SetTicks(i, GetField(i, P_TICKS) + 1);
        }
        i := i + 1;
      }
      assert Procs() == SchedulerModel.Tick(procs);
    }
  }

  lemma KeepInt(s: seq<Byte>, t: seq<Byte>, o: int)
    requires 0 <= o && o + 4 <= |s| && Agree(s, t, o, o + 4)
    ensures IntAt(t, o) == IntAt(s, o)
  {
  }

  lemma RowsOf(s: seq<Byte>)
    requires |s| == RAM_SIZE
    ensures |ProcsOf(s)| == MAX_PROCESSES && forall i | 0 <= i < MAX_PROCESSES :: ProcsOf(s)[i] == ProcAt(s, i)
  {
  }

  lemma VacantOrderly()
    ensures Orderly(Vacant, 0)
  {
  }
}
