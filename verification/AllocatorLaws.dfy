/** What the first-fit allocator of libs/memory.c guarantees, for every tiled chain and every run. */
module AllocatorLaws {
  import opened Layout
  import opened Blocks

  // ---------- reading a chain around one block ----------

  // The chain and the effect of a successful alloc, in terms of the blocks before and after the chosen one.
  lemma AllocParts(c: Chain, n: int) returns (left: Chain, b: Block, right: Chain)
    requires Tiled(c) && AllocResult(c, n) != NULL
    ensures n > 0 && b.Fits(n) && c == left + [b] + right && |left| == FirstFit(c, n)
    ensures AfterAlloc(c, n) == left + Carve(b, n) + right && AllocResult(c, n) == b.Payload()
  {
    var k := FirstFit(c, n);
    left, b, right := c[..k], c[k], c[k + 1..];
  }

  function Absorbed(b: Block, right: Chain): Chain {
    if right != [] && right[0].free
    then [Block(b.offset, b.size + BLOCK_HEADER_SIZE + right[0].size, true)] + right[1..]
    else [b.(free := true)] + right
  }

  lemma DeallocParts(left: Chain, b: Block, right: Chain)
    requires Tiled(left + [b] + right)
    ensures AfterDealloc(left + [b] + right, b.Payload()) == left + Absorbed(b, right)
  {
    hide Spans, Find;
    var c := left + [b] + right;
    assert c[|left|] == b;
    FindAt(c, |left|);
    assert c[..|left|] == left;
    assert c[|left| + 1..] == right;
  }

  lemma FindParts(c: Chain, p: int) returns (left: Chain, b: Block, right: Chain)
    requires Live(c, p)
    ensures c == left + [b] + right && b == c[Find(c, p)] && b.Payload() == p && !b.free && |left| == Find(c, p)
  {
    var k := Find(c, p);
    left, b, right := c[..k], c[k], c[k + 1..];
  }

  // ---------- completeness and isolation of alloc ----------

  // alloc fails exactly when no block of the chain can hold the request.
  lemma AllocComplete(c: Chain, n: int)
    requires Tiled(c)
    ensures AllocResult(c, n) == NULL <==> n <= 0 || !CanServe(c, n)
    ensures AllocResult(c, n) == NULL ==> AfterAlloc(c, n) == c
  {
    var k := FirstFit(c, n);
    if k < |c| {
      assert c[k] in c;
      InRegion(c, k);
    }
  }

  // The granted bytes lie inside one used block of the new chain and meet no other block, header included.
  lemma GrantIsolated(c: Chain, n: int)
    requires Tiled(c) && AllocResult(c, n) != NULL
    ensures var c', p, k := AfterAlloc(c, n), AllocResult(c, n), FirstFit(c, n);
            && k < |c'| && !c'[k].free && c'[k].Payload() == p && n <= c'[k].size <= n + BLOCK_HEADER_SIZE
            && forall i | 0 <= i < |c'| && i != k :: c'[i].End() <= p - BLOCK_HEADER_SIZE || p + n <= c'[i].offset
  {
    var c', k := AfterAlloc(c, n), FirstFit(c, n);
    AllocTiled(c, n);
    forall i | 0 <= i < |c'| && i != k
      ensures c'[i].End() <= c'[k].offset || c'[k].End() <= c'[i].offset
    {
      if i < k { Ordered(c', i, k); } else { Ordered(c', k, i); }
    }
  }

  // ---------- the set of used blocks ----------

  lemma SameStartSameBlock(c: Chain, a: Block, b: Block)
    requires Tiled(c) && a in c && b in c && a.offset == b.offset
    ensures a == b
  {
    var i :| 0 <= i < |c| && c[i] == a;
    var j :| 0 <= j < |c| && c[j] == b;
    FindAt(c, i);
    FindAt(c, j);
  }

  // A pointer may be freed exactly when a used block starts there.
  lemma LiveIsUsed(c: Chain, b: Block)
    requires Tiled(c) && b in UsedBlocks(c)
    ensures Live(c, b.Payload()) && c[Find(c, b.Payload())] == b
  {
    var i :| 0 <= i < |c| && c[i] == b;
    FindAt(c, i);
  }

  // A successful alloc adds one used block, at an address no used block had, of n to n + 12 bytes.
  lemma AllocUsedBlocks(c: Chain, n: int)
    requires Tiled(c) && AllocResult(c, n) != NULL
    ensures var g := Granted(c[FirstFit(c, n)], n);
            && UsedBlocks(AfterAlloc(c, n)) == UsedBlocks(c) + {g}
            && g.Payload() == AllocResult(c, n) && n <= g.size <= n + BLOCK_HEADER_SIZE
            && forall b | b in UsedBlocks(c) :: b.offset != g.offset
  {
    var left, b, right := AllocParts(c, n);
    assert c[|left|] == b;
    forall x | x in UsedBlocks(c) ensures x.offset != b.offset {
      if x.offset == b.offset { SameStartSameBlock(c, x, b); }
    }
  }

  lemma UsedBlocksAppend(a: Chain, b: Chain)
    ensures UsedBlocks(a + b) == UsedBlocks(a) + UsedBlocks(b)
  {
  }

  lemma AbsorbedUsedBlocks(b: Block, right: Chain)
    ensures UsedBlocks(Absorbed(b, right)) == UsedBlocks(right)
  {
    if right != [] && right[0].free {
      assert right == [right[0]] + right[1..];
    }
  }

  // No other block of the chain equals the one at index i.
  lemma OnlyOnce(c: Chain, i: nat, j: nat)
    requires Tiled(c) && i < |c| && j < |c| && i != j
    ensures c[i] != c[j]
  {
    if i < j { Ordered(c, i, j); } else { Ordered(c, j, i); }
  }

  // dealloc of a live pointer removes its block from the used ones and touches no other.
  lemma {:induction false} DeallocUsedBlocks(c: Chain, p: int)
    requires Tiled(c) && Live(c, p)
    ensures UsedBlocks(AfterDealloc(c, p)) == UsedBlocks(c) - {c[Find(c, p)]}
  {
    hide Tiled, AfterDealloc, Absorbed;
    var left, b, right := FindParts(c, p);
    DeallocParts(left, b, right);
    UsedBlocksAppend(left, Absorbed(b, right));
    AbsorbedUsedBlocks(b, right);
    UsedBlocksAppend(left, [b] + right);
    UsedBlocksAppend([b], right);
    assert c == left + ([b] + right);
    forall x | x in left ensures x != b {
      var i :| 0 <= i < |left| && left[i] == x;
      OnlyOnce(c, i, |left|);
    }
    forall x | x in right ensures x != b {
      var i :| 0 <= i < |right| && right[i] == x;
      OnlyOnce(c, |left|, |left| + 1 + i);
    }
  }

  lemma UsedCons(b: Block, rest: Chain)
    ensures Used([b] + rest) == (if b.free then 0 else b.size) + Used(rest)
  {
    assert ([b] + rest)[1..] == rest;
  }

  // dealloc lowers memory_used by the size of the freed block.
  lemma DeallocUsed(c: Chain, p: int)
    requires Tiled(c) && Live(c, p)
    ensures Used(AfterDealloc(c, p)) == Used(c) - c[Find(c, p)].size
  {
    hide Tiled, AfterDealloc, Used, Absorbed;
    var left, b, right := FindParts(c, p);
    DeallocParts(left, b, right);
    UsedAppend(left, Absorbed(b, right));
    UsedAppend(left, [b] + right);
    assert c == left + ([b] + right);
    UsedAbsorbed(b, right);
  }

  lemma UsedAbsorbed(b: Block, right: Chain)
    requires !b.free
    ensures Used(Absorbed(b, right)) == Used([b] + right) - b.size
  {
    hide Used;
    var m := Absorbed(b, right);
    UsedCons(b, right);
    UsedCons(m[0], m[1..]);
    assert m == [m[0]] + m[1..];
    if right != [] && right[0].free {
      UsedCons(right[0], right[1..]);
      assert right == [right[0]] + right[1..];
    }
  }

  lemma {:induction false} NoneUsed(c: Chain)
    requires UsedBlocks(c) == {}
    ensures Used(c) == 0
  {
    if c != [] {
      assert c[0] in c;
      assert c[0] in UsedBlocks(c) <==> !c[0].free;
      assert forall b | b in UsedBlocks(c[1..]) :: b in UsedBlocks(c);
      NoneUsed(c[1..]);
    }
  }

  // ---------- dealloc never takes capacity away ----------

  lemma AbsorbedServes(b: Block, right: Chain, m: int)
    requires CanServe(right, m) || b.Fits(m)
    requires b.size >= 0 && (right != [] ==> right[0].size >= 0)
    ensures CanServe(Absorbed(b, right), m)
  {
    assert Absorbed(b, right)[0] in Absorbed(b, right);
    if b.Fits(m) {
      assert Absorbed(b, right)[0].Fits(m);
    } else {
      var x :| x in right && x.Fits(m);
      if right[0].free {
        assert x == right[0] || x in right[1..];
        assert x in right[1..] ==> x in Absorbed(b, right);
        assert right[0].Fits(m) ==> Absorbed(b, right)[0].Fits(m);
      } else {
        assert x in Absorbed(b, right);
      }
    }
  }

  lemma DeallocMonotone(c: Chain, p: int, m: int)
    requires Tiled(c) && Live(c, p) && CanServe(c, m)
    ensures CanServe(AfterDealloc(c, p), m)
  {
    var left, b, right := FindParts(c, p);
    DeallocParts(left, b, right);
    InRegion(c, |left|);
    if right != [] { InRegion(c, |left| + 1); assert c[|left| + 1] == right[0]; }
    var x :| x in c && x.Fits(m);
    if x in left {
      assert x in AfterDealloc(c, p);
    } else {
      assert x in right;
      AbsorbedServes(b, right, m);
      var y :| y in Absorbed(b, right) && y.Fits(m);
      assert y in AfterDealloc(c, p);
    }
  }

  // Whatever block is freed, a request no larger than it can be served at once.
  lemma RefitAfterDealloc(c: Chain, p: int, n: int)
    requires Tiled(c) && Live(c, p) && 0 < n <= c[Find(c, p)].size
    ensures AllocResult(AfterDealloc(c, p), n) != NULL
  {
    var left, b, right := FindParts(c, p);
    DeallocParts(left, b, right);
    DeallocTiled(c, p);
    if right != [] { InRegion(c, |left| + 1); assert c[|left| + 1] == right[0]; }
    var y := Absorbed(b, right)[0];
    assert y.Fits(n) && y in AfterDealloc(c, p);
    AllocComplete(AfterDealloc(c, p), n);
  }

  // ---------- the free block at the end ----------

  predicate RoomAtEnd(c: Chain, room: int) {
    c != [] && c[|c| - 1].free && c[|c| - 1].size >= room
  }

  // An alloc takes at most the request and one header from the end of the region.
  lemma AllocRoom(c: Chain, n: int, room: int)
    requires Tiled(c) && RoomAtEnd(c, room) && 0 < n && n + BLOCK_HEADER_SIZE < room
    ensures AllocResult(c, n) != NULL && RoomAtEnd(AfterAlloc(c, n), room - n - BLOCK_HEADER_SIZE)
  {
    hide Spans;
    assert c[|c| - 1].Fits(n) && c[|c| - 1] in c;
    AllocComplete(c, n);
    var left, b, right := AllocParts(c, n);
    assert if right == [] then b == c[|c| - 1] else right[|right| - 1] == c[|c| - 1];
  }

  lemma DeallocRoom(c: Chain, p: int, room: int)
    requires Tiled(c) && Live(c, p) && RoomAtEnd(c, room)
    ensures RoomAtEnd(AfterDealloc(c, p), room)
  {
    var left, b, right := FindParts(c, p);
    InRegion(c, |left|);
    DeallocParts(left, b, right);
    assert right != [] && right[|right| - 1] == c[|c| - 1];
  }

  // ---------- alloc followed at once by dealloc ----------

  predicate MergesBack(c: Chain, n: int) {
    var k := FirstFit(c, n);
    k + 1 < |c| && !Splits(c[k], n) && c[k + 1].free
  }

  lemma FreeCons(b: Block, rest: Chain)
    ensures Free([b] + rest) == (if b.free then b.size else 0) + Free(rest)
  {
    assert ([b] + rest)[1..] == rest;
  }

  lemma FreeAbsorbed(left: Chain, b: Block, right: Chain)
    requires b.free && right != [] && right[0].free
    ensures Free(left + Absorbed(b, right)) - Free(left + ([b] + right)) == BLOCK_HEADER_SIZE
  {
    FreeAppend(left, Absorbed(b, right));
    FreeAppend(left, [b] + right);
    FreeCons(b, right);
    FreeCons(Absorbed(b, right)[0], right[1..]);
  }

  lemma SplitThenDealloc(left: Chain, b: Block, right: Chain, n: int)
    requires b.free && Splits(b, n) && Tiled(left + Carve(b, n) + right)
    ensures AfterDealloc(left + Carve(b, n) + right, b.Payload()) == left + ([b] + right)
  {
    var m := Carve(b, n);
    var rest := [m[1]] + right;
    assert left + m + right == left + [m[0]] + rest;
    DeallocParts(left, m[0], rest);
    assert rest[1..] == right;
    assert Absorbed(m[0], rest) == [b] + right;
  }

  lemma WholeThenDealloc(left: Chain, b: Block, right: Chain, n: int)
    requires b.free && !Splits(b, n) && Tiled(left + Carve(b, n) + right)
    ensures AfterDealloc(left + Carve(b, n) + right, b.Payload()) == left + Absorbed(b, right)
  {
    DeallocParts(left, Granted(b, n), right);
    assert Absorbed(Granted(b, n), right) == Absorbed(b, right);
  }

  // The pair restores the chain, unless an unsplit block has a free successor: then one header is reclaimed.
  lemma AllocThenDealloc(c: Chain, n: int)
    requires Tiled(c) && AllocResult(c, n) != NULL
    ensures var d := AfterDealloc(AfterAlloc(c, n), AllocResult(c, n));
            && (!MergesBack(c, n) ==> d == c)
            && Free(d) - Free(c) == (if MergesBack(c, n) then BLOCK_HEADER_SIZE else 0)
  {
    AllocTiled(c, n);
    var left, b, right := AllocParts(c, n);
    assert left + ([b] + right) == c;
    assert c[|left|] == b;
    assert right != [] ==> c[|left| + 1] == right[0];
    if Splits(b, n) {
      SplitThenDealloc(left, b, right, n);
    } else {
      WholeThenDealloc(left, b, right, n);
      if right != [] && right[0].free {
        FreeAbsorbed(left, b, right);
      } else {
        assert Absorbed(b, right) == [b] + right;
      }
    }
  }

  // ---------- one-sided coalescing ----------

  predicate Apart(a: Chain, b: Chain) {
    a != [] && b != [] ==> !(a[|a| - 1].free && b[0].free)
  }

  lemma {:induction false} NoAdjacentFreeAppend(a: Chain, b: Chain)
    ensures NoAdjacentFree(a + b) <==> NoAdjacentFree(a) && NoAdjacentFree(b) && Apart(a, b)
  {
    if a == [] {
      assert a + b == b;
    } else {
      assert (a + b)[1..] == a[1..] + b;
      NoAdjacentFreeAppend(a[1..], b);
    }
  }

  lemma NoAdjacentFreeAround(left: Chain, b: Block, right: Chain)
    ensures NoAdjacentFree(left + [b] + right)
       <==> NoAdjacentFree(left) && NoAdjacentFree(right) && Apart(left, [b]) && Apart([b], right)
  {
    NoAdjacentFreeAppend(left, [b]);
    NoAdjacentFreeAppend(left + [b], right);
  }

  // Freeing a block leaves two free neighbours exactly when its predecessor was free.
  lemma DeallocAdjacency(c: Chain, p: int)
    requires Tiled(c) && NoAdjacentFree(c) && Live(c, p)
    ensures var k := Find(c, p);
            NoAdjacentFree(AfterDealloc(c, p)) <==> !(k > 0 && c[k - 1].free)
  {
    var left, b, right := FindParts(c, p);
    DeallocParts(left, b, right);
    NoAdjacentFreeAround(left, b, right);
    var m := Absorbed(b, right);
    NoAdjacentFreeAppend(left, m);
    NoAdjacentFreeAround([], m[0], m[1..]);
    assert m == [] + [m[0]] + m[1..];
    assert left != [] ==> left[|left| - 1] == c[|left| - 1];
  }

  // Two small blocks freed in the order they were allocated stay unmerged.
  lemma FifoLeavesAdjacentFree()
    ensures var c1 := AfterAlloc(InitialChain, 1);
            var c2 := AfterAlloc(c1, 1);
            var p, q := AllocResult(InitialChain, 1), AllocResult(c1, 1);
            Live(c2, p) && Live(AfterDealloc(c2, p), q) && !NoAdjacentFree(AfterDealloc(AfterDealloc(c2, p), q))
  {
    var o := DATA_REGION_OFFSET;
    var c1 := AfterAlloc(InitialChain, 1);
    assert c1 == [Block(o, 1, false), Block(o + 13, DATA_REGION_SIZE - 25, true)];
    var c2 := AfterAlloc(c1, 1);
    assert FirstFit(c1, 1) == 1;
    assert c2 == [Block(o, 1, false), Block(o + 13, 1, false), Block(o + 26, DATA_REGION_SIZE - 38, true)];
    var p, q := AllocResult(InitialChain, 1), AllocResult(c1, 1);
    assert p == o + 12 && q == o + 25;
    assert Find(c2, p) == 0;
    var c3 := AfterDealloc(c2, p);
    assert c3 == [Block(o, 1, true), Block(o + 13, 1, false), Block(o + 26, DATA_REGION_SIZE - 38, true)];
    assert Find(c3, q) == 1;
    var c4 := AfterDealloc(c3, q);
    assert c4 == [Block(o, 1, true), Block(o + 13, DATA_REGION_SIZE - 25, true)];
  }

  // ---------- properly nested runs ----------

  datatype NestedOp = Push(n: int) | Pop

  // Runs alloc for each Push and dealloc of the pointer obtained last for each Pop; a Pop with nothing held is skipped.
  function NestedRun(c: Chain, held: seq<int>, ops: seq<NestedOp>): (Chain, seq<int>)
    decreases |ops|
  {
    if ops == [] then (c, held)
    else match ops[0]
      case Push(n) => NestedRun(AfterAlloc(c, n), held + [AllocResult(c, n)], ops[1..])
      case Pop =>
        if held == [] then NestedRun(c, held, ops[1..])
        else NestedRun(AfterDealloc(c, held[|held| - 1]), held[..|held| - 1], ops[1..])
  }

  // Frees all held pointers, latest first.
  function Unwind(c: Chain, held: seq<int>): Chain
    decreases |held|
  {
    if held == [] then c else Unwind(AfterDealloc(c, held[|held| - 1]), held[..|held| - 1])
  }

  // No two free neighbours now, nor at any point while the held pointers are freed.
  predicate Tidy(c: Chain, held: seq<int>)
    decreases |held|
  {
    && Tiled(c)
    && NoAdjacentFree(c)
    && (held != [] ==> Tidy(AfterDealloc(c, held[|held| - 1]), held[..|held| - 1]))
  }

  lemma DeallocNull(c: Chain)
    requires Tiled(c)
    ensures AfterDealloc(c, NULL) == c
  {
    var k := Find(c, NULL);
    if k < |c| {
      InRegion(c, k);
    }
  }

  lemma AllocKeepsNoAdjacentFree(c: Chain, n: int)
    requires Tiled(c) && NoAdjacentFree(c) && AllocResult(c, n) != NULL
    ensures NoAdjacentFree(AfterAlloc(c, n)) && !MergesBack(c, n)
  {
    var left, b, right := AllocParts(c, n);
    assert c[|left|] == b;
    assert right != [] ==> c[|left| + 1] == right[0];
    NoAdjacentFreeAround(left, b, right);
    var m := Carve(b, n);
    if Splits(b, n) {
      assert AfterAlloc(c, n) == left + [m[0]] + ([m[1]] + right);
      NoAdjacentFreeAppend([m[1]], right);
      NoAdjacentFreeAround(left, m[0], [m[1]] + right);
    } else {
      NoAdjacentFreeAround(left, m[0], right);
    }
  }

  lemma PushTidy(c: Chain, held: seq<int>, n: int)
    requires Tidy(c, held)
    ensures var c', held' := AfterAlloc(c, n), held + [AllocResult(c, n)];
            Tidy(c', held') && Unwind(c', held') == Unwind(c, held)
  {
    var c', p := AfterAlloc(c, n), AllocResult(c, n);
    AllocTiled(c, n);
    if p == NULL {
      AllocComplete(c, n);
      DeallocNull(c');
    } else {
      AllocKeepsNoAdjacentFree(c, n);
      AllocThenDealloc(c, n);
    }
    var held' := held + [p];
    assert held'[..|held'| - 1] == held;
  }

  lemma {:induction false} NestedRunUnwinds(c: Chain, held: seq<int>, ops: seq<NestedOp>)
    requires Tidy(c, held)
    ensures var (c', held') := NestedRun(c, held, ops);
            Tidy(c', held') && Unwind(c', held') == Unwind(c, held)
    decreases |ops|
  {
    if ops != [] {
      match ops[0]
      case Push(n) =>
        PushTidy(c, held, n);
        NestedRunUnwinds(AfterAlloc(c, n), held + [AllocResult(c, n)], ops[1..]);
      case Pop =>
        if held == [] {
          NestedRunUnwinds(c, held, ops[1..]);
        } else {
          NestedRunUnwinds(AfterDealloc(c, held[|held| - 1]), held[..|held| - 1], ops[1..]);
        }
    }
  }

  // Nested runs of any length and depth never leave two free neighbours; freeing what is still held gives back
  // the chain of the start, and a run that has freed everything has restored it already.
  lemma NestedRunRestores(c: Chain, ops: seq<NestedOp>)
    requires Tiled(c) && NoAdjacentFree(c)
    ensures var (c', held) := NestedRun(c, [], ops);
            && Tiled(c') && NoAdjacentFree(c') && Unwind(c', held) == c
            && (held == [] ==> c' == c)
  {
    NestedRunUnwinds(c, [], ops);
  }
}
