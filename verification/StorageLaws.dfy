/** How much of the data region the stored texts take. */
module StorageLaws {
  import opened Layout
  import opened Bytes
  import opened Blocks
  import opened AllocatorLaws
  import opened FileModel
  import opened OwnershipLaws
  import opened FileRuns

  // The sum of data_size over all files with content.
  function DataTotal(t: Table): int {
    if t == [] then 0 else (if t[0].Stored() then t[0].dataSize else 0) + DataTotal(t[1..])
  }

  // The number of files with content.
  function StoredCount(t: Table): nat {
    if t == [] then 0 else (if t[0].Stored() then 1 else 0) + StoredCount(t[1..])
  }

  lemma {:induction false} TotalsUpdate(t: Table, i: int, n: Inode)
    requires Valid(t, i) && t[i].Stored() && !n.Stored()
    ensures DataTotal(t[i := n]) == DataTotal(t) - t[i].dataSize
    ensures StoredCount(t[i := n]) == StoredCount(t) - 1
    decreases i
  {
    if i == 0 {
      assert t[0 := n][1..] == t[1..];
    } else {
      assert t[i := n][1..] == t[1..][i - 1 := n];
      TotalsUpdate(t[1..], i - 1, n);
    }
  }

  lemma {:induction false} NoTotals(t: Table)
    requires forall i | 0 <= i < |t| :: !t[i].Stored()
    ensures DataTotal(t) == 0 && StoredCount(t) == 0
  {
    if t != [] {
      NoTotals(t[1..]);
    }
  }

  lemma NothingStored(fs: Fs)
    requires Owns(fs) && forall i | 0 <= i < |fs.table| :: !fs.table[i].Stored()
    ensures Used(fs.chain) == 0
  {
    assert forall i | i in fs.texts :: Holds(fs, i);
    assert forall b | b in UsedBlocks(fs.chain) :: HasOwner(fs, b);
    assert UsedBlocks(fs.chain) == {};
    NoneUsed(fs.chain);
  }

  // memory_used lies between the total data_size and that total plus one header per file with content.
  lemma {:induction false} UsedIsBounded(fs: Fs)
    requires Owns(fs)
    ensures DataTotal(fs.table) <= Used(fs.chain) <= DataTotal(fs.table) + BLOCK_HEADER_SIZE * StoredCount(fs.table)
    decreases |fs.texts.Keys|
  {
    if id :| 0 <= id < |fs.table| && fs.table[id].Stored() {
      var b := OwnedIsLive(fs, id);
      DeallocUsed(fs.chain, fs.table[id].dataOffset);
      DroppedOwns(fs, id);
      var d := Dropped(fs, id);
      assert d.texts.Keys == fs.texts.Keys - {id};
      UsedIsBounded(d);
      TotalsUpdate(fs.table, id, d.table[id]);
    } else {
      NothingStored(fs);
      NoTotals(fs.table);
    }
  }

  // Internal fragmentation is bounded in every reachable state.
  lemma RunUsedIsBounded(ops: seq<Op>)
    requires GoodRun(ops)
    ensures var fs := Run(Boot, ops).0;
            DataTotal(fs.table) <= Used(fs.chain) <= DataTotal(fs.table) + BLOCK_HEADER_SIZE * StoredCount(fs.table)
  {
    RunInv(ops);
    UsedIsBounded(Run(Boot, ops).0);
  }

  // No block leaks: once no file holds content, memory_used is zero.
  lemma RunNothingStoredNothingUsed(ops: seq<Op>)
    requires GoodRun(ops)
    ensures var fs := Run(Boot, ops).0;
            (forall i | 0 <= i < |fs.table| :: !fs.table[i].Stored()) ==> Used(fs.chain) == 0
  {
    RunInv(ops);
    var fs := Run(Boot, ops).0;
    if forall i | 0 <= i < |fs.table| :: !fs.table[i].Stored() {
      NothingStored(fs);
    }
  }

  // ---------- when writes cannot fail ----------

  // The bytes a write asks for: the text, its NUL and a header.
  function Cost(op: Op): nat {
    if op.Put? then |op.data| + 1 + BLOCK_HEADER_SIZE else 0
  }

  function Traffic(ops: seq<Op>): nat {
    if ops == [] then 0 else Traffic(ops[..|ops| - 1]) + Cost(ops[|ops| - 1])
  }

  lemma DroppedRoom(fs: Fs, id: int, room: int)
    requires Owns(fs) && Valid(fs.table, id) && fs.table[id].active && RoomAtEnd(fs.chain, room)
    ensures RoomAtEnd(Dropped(fs, id).chain, room) && Tiled(Dropped(fs, id).chain)
  {
    hide RoomAtEnd;
    if fs.table[id].dataOffset != -1 {
      var b := OwnedIsLive(fs, id);
      DeallocRoom(fs.chain, fs.table[id].dataOffset, room);
      DeallocTiled(fs.chain, fs.table[id].dataOffset);
    }
  }

  lemma WriteRoom(fs: Fs, id: int, data: Text, room: int)
    requires Owns(fs) && RoomAtEnd(fs.chain, room) && |data| + 1 + BLOCK_HEADER_SIZE < room
    ensures var (fs', r) := Write(fs, id, data);
            && (CanWrite(fs, id) ==> r == 0)
            && RoomAtEnd(fs'.chain, room - (|data| + 1 + BLOCK_HEADER_SIZE))
  {
    if CanWrite(fs, id) {
      hide Owns, Tiled, AfterAlloc, AllocResult, Dropped;
      DroppedRoom(fs, id, room);
      AllocRoom(Dropped(fs, id).chain, |data| + 1, room);
    }
  }

  lemma StepRoom(fs: Fs, op: Op, room: int)
    requires Inv(fs) && RoomAtEnd(fs.chain, room) && Cost(op) < room
    ensures RoomAtEnd(Apply(fs, op).0.chain, room - Cost(op))
  {
    hide Tree, Owns, RoomAtEnd, Write;
    match op
    case Mk(_, _, _) =>
    case Rm(id) => if CanDelete(fs, id) { DroppedRoom(fs, id, room); }
    case Put(id, data) => WriteRoom(fs, id, data, room);
  }

  lemma NoOps(start: Fs)
    ensures Run(start, []).0 == start && Traffic([]) == 0
  {
  }

  lemma LastOp(start: Fs, ops: seq<Op>)
    requires ops != []
    ensures var before, op := ops[..|ops| - 1], ops[|ops| - 1];
            && Run(start, ops).0 == Apply(Run(start, before).0, op).0
            && Traffic(ops) == Traffic(before) + Cost(op)
  {
  }

  lemma {:induction false} RunRoom(start: Fs, ops: seq<Op>, room: int)
    requires Inv(start) && GoodRun(ops) && RoomAtEnd(start.chain, room) && Traffic(ops) < room
    ensures var fs := Run(start, ops).0; Inv(fs) && RoomAtEnd(fs.chain, room - Traffic(ops))
  {
    hide Inv, RoomAtEnd, GoodOp, Apply, Cost, Run, Traffic;
    if ops == [] {
      NoOps(start);
    } else {
      var before, op := ops[..|ops| - 1], ops[|ops| - 1];
      LastOp(start, ops);
      RunRoom(start, before, room);
      StepInv(Run(start, before).0, op);
      StepRoom(Run(start, before).0, op, room - Traffic(before));
    }
  }

  // Until the texts written since boot, with their headers, add up to the data region, no write to a file fails.
  lemma EarlyWritesSucceed(ops: seq<Op>, id: int, data: Text)
    requires GoodRun(ops + [Put(id, data)])
    requires Traffic(ops + [Put(id, data)]) < DATA_REGION_SIZE - BLOCK_HEADER_SIZE
    ensures var fs := Run(Boot, ops).0; CanWrite(fs, id) ==> Write(fs, id, data).1 == 0
  {
    hide Tree, Owns, Write, Apply, Run, Traffic, GoodOp;
    var all := ops + [Put(id, data)];
    assert all[..|ops|] == ops;
    assert forall i | 0 <= i < |ops| :: ops[i] == all[i];
    LastOp(Boot, all);
    BootInv();
    var room := DATA_REGION_SIZE - BLOCK_HEADER_SIZE;
    RunRoom(Boot, ops, room);
    WriteRoom(Run(Boot, ops).0, id, data, room - Traffic(ops));
  }
}
