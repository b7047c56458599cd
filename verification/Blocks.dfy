/**
 The block chain of libs/memory.c as a sequence of blocks in address order, with the effect of `alloc` and
 `dealloc` on it as functions. Class `Memory.VirtualRam` runs the C code over bytes and is proved to have these effects.
 */
module Blocks {
  import opened Layout

  datatype Block = Block(offset: int, size: int, free: bool) {
    function Payload(): int { offset + BLOCK_HEADER_SIZE }

    function End(): int { offset + BLOCK_HEADER_SIZE + size }

    predicate Fits(n: int) { free && size >= n }
  }

  type Chain = seq<Block>

  // The blocks of c follow one another without gap or overlap from address lo to address hi; none is empty.
  predicate Spans(c: Chain, lo: int, hi: int) {
    if c == [] then lo == hi
    else c[0].offset == lo && c[0].size >= 1 && Spans(c[1..], c[0].End(), hi)
  }

  predicate Tiled(c: Chain) {
    Spans(c, DATA_REGION_OFFSET, RAM_SIZE)
  }

  const InitialChain: Chain := [Block(DATA_REGION_OFFSET, DATA_REGION_SIZE - BLOCK_HEADER_SIZE, true)]

  // ---------- alloc ----------

  // The index of the first block from i on that can hold n bytes; |c| if there is none.
  function FirstFit(c: Chain, n: int, i: nat := 0): (k: nat)
    requires i <= |c|
    ensures i <= k <= |c|
    ensures forall j | i <= j < k :: !c[j].Fits(n)
    ensures k < |c| ==> c[k].Fits(n)
    decreases |c| - i
  {
    if i == |c| || c[i].Fits(n) then i else FirstFit(c, n, i + 1)
  }

  // A free block of size at least n is cut only when a header and one byte are left over.
  predicate Splits(b: Block, n: int) { b.size - n >= BLOCK_HEADER_SIZE + 1 }

  function Granted(b: Block, n: int): Block {
    Block(b.offset, if Splits(b, n) then n else b.size, false)
  }

  function Carve(b: Block, n: int): Chain {
    var g := Granted(b, n);
    if Splits(b, n) then [g, Block(g.End(), b.size - n - BLOCK_HEADER_SIZE, true)] else [g]
  }

  function AfterAlloc(c: Chain, n: int): Chain {
    var k := FirstFit(c, n);
    if n <= 0 || k == |c| then c else c[..k] + Carve(c[k], n) + c[k + 1..]
  }

  function AllocResult(c: Chain, n: int): int {
    var k := FirstFit(c, n);
    if n <= 0 || k == |c| then NULL else c[k].Payload()
  }

  // ---------- dealloc ----------

  // The index of the first block whose payload starts at p; |c| if there is none.
  function Find(c: Chain, p: int, i: nat := 0): (k: nat)
    requires i <= |c|
    ensures i <= k <= |c|
    ensures forall j | i <= j < k :: c[j].Payload() != p
    ensures k < |c| ==> c[k].Payload() == p
    decreases |c| - i
  {
    if i == |c| || c[i].Payload() == p then i else Find(c, p, i + 1)
  }

  predicate Live(c: Chain, p: int) {
    var k := Find(c, p);
    k < |c| && !c[k].free
  }

  // Frees block i; its successor, if free, is absorbed. The predecessor is never looked at.
  function Release(c: Chain, i: nat): Chain
    requires i < |c|
  {
    var b, rest := c[i], c[i + 1..];
    if rest != [] && rest[0].free
    then c[..i] + [Block(b.offset, b.size + BLOCK_HEADER_SIZE + rest[0].size, true)] + rest[1..]
    else c[..i] + [b.(free := true)] + rest
  }

  // What dealloc may be given: null, a pointer it rejects as out of range, or the payload start of some block.
  predicate Acceptable(c: Chain, p: int) {
    || p == NULL
    || !(DATA_REGION_OFFSET <= p - BLOCK_HEADER_SIZE <= RAM_SIZE - BLOCK_HEADER_SIZE)
    || Find(c, p) < |c|
  }

  function AfterDealloc(c: Chain, p: int): Chain {
    var k := Find(c, p);
    if k < |c| then Release(c, k) else c
  }

  // ---------- accounting ----------

  function Used(c: Chain): int {
    if c == [] then 0 else (if c[0].free then 0 else c[0].size) + Used(c[1..])
  }

  function Free(c: Chain): int {
    if c == [] then 0 else (if c[0].free then c[0].size else 0) + Free(c[1..])
  }

  function UsedBlocks(c: Chain): set<Block> {
    set b | b in c && !b.free
  }

  // Some block can hold n bytes.
  predicate CanServe(c: Chain, n: int) {
    exists b | b in c :: b.Fits(n)
  }

  predicate NoAdjacentFree(c: Chain) {
    |c| >= 2 ==> !(c[0].free && c[1].free) && NoAdjacentFree(c[1..])
  }

  // ---------- order ----------

  lemma {:induction false} SpansAppend(a: Chain, b: Chain, lo: int, mid: int, hi: int)
    requires Spans(a, lo, mid) && Spans(b, mid, hi)
    ensures Spans(a + b, lo, hi)
  {
    if a == [] {
      assert a + b == b;
    } else {
      assert (a + b)[1..] == a[1..] + b;
      SpansAppend(a[1..], b, a[0].End(), mid, hi);
    }
  }

  // Cuts a chain before and after its block i.
  lemma {:induction false} SpansCut(c: Chain, i: nat, lo: int, hi: int)
    requires Spans(c, lo, hi) && i < |c|
    ensures Spans(c[..i], lo, c[i].offset) && Spans(c[i + 1..], c[i].End(), hi)
    ensures c[i].size >= 1 && lo <= c[i].offset && c[i].End() <= hi
    ensures i + 1 < |c| ==> c[i].End() == c[i + 1].offset
    ensures i + 1 == |c| ==> c[i].End() == hi
    decreases i
  {
    if i == 0 {
      SpansUp(c[1..], c[0].End(), hi);
    } else {
      SpansCut(c[1..], i - 1, c[0].End(), hi);
      assert c[..i][1..] == c[1..][..i - 1];
      assert c[1..][i..] == c[i + 1..];
    }
  }

  lemma {:induction false} SpansUp(c: Chain, lo: int, hi: int)
    requires Spans(c, lo, hi)
    ensures lo <= hi
  {
    if c != [] {
      SpansUp(c[1..], c[0].End(), hi);
    }
  }

  lemma {:induction false} Ordered(c: Chain, i: nat, j: nat)
    requires Tiled(c) && i < j < |c|
    ensures c[i].size >= 1 && c[i].End() <= c[j].offset
    decreases j
  {
    SpansCut(c, j - 1, DATA_REGION_OFFSET, RAM_SIZE);
    if i < j - 1 {
      Ordered(c, i, j - 1);
    }
  }

  lemma InRegion(c: Chain, i: nat)
    requires Tiled(c) && i < |c|
    ensures DATA_REGION_OFFSET <= c[i].offset && c[i].End() <= RAM_SIZE && c[i].size >= 1
    ensures i + 1 < |c| ==> c[i].End() == c[i + 1].offset
    ensures i + 1 == |c| ==> c[i].End() == RAM_SIZE
  {
    SpansCut(c, i, DATA_REGION_OFFSET, RAM_SIZE);
  }

  lemma FindAt(c: Chain, i: nat)
    requires Tiled(c) && i < |c|
    ensures Find(c, c[i].Payload()) == i
  {
    var k := Find(c, c[i].Payload());
    if k < i {
      Ordered(c, k, i);
    }
  }

  // ---------- tiling ----------

  lemma InitialTiled()
    ensures Tiled(InitialChain) && NoAdjacentFree(InitialChain) && UsedBlocks(InitialChain) == {}
  {
  }

  // Blocks i..j of a tiling may be replaced by any blocks that cover the same addresses.
  lemma Replace(c: Chain, i: nat, j: nat, mid: Chain)
    requires Tiled(c) && i < j <= |c|
    requires Spans(mid, c[i].offset, c[j - 1].End())
    ensures Tiled(c[..i] + mid + c[j..])
  {
    SpansCut(c, i, DATA_REGION_OFFSET, RAM_SIZE);
    SpansCut(c, j - 1, DATA_REGION_OFFSET, RAM_SIZE);
    SpansAppend(c[..i], mid, DATA_REGION_OFFSET, c[i].offset, c[j - 1].End());
    SpansAppend(c[..i] + mid, c[j..], DATA_REGION_OFFSET, c[j - 1].End(), RAM_SIZE);
  }

  lemma AllocTiled(c: Chain, n: int)
    requires Tiled(c)
    ensures Tiled(AfterAlloc(c, n))
  {
    var k := FirstFit(c, n);
    if n > 0 && k < |c| {
      InRegion(c, k);
      Replace(c, k, k + 1, Carve(c[k], n));
    }
  }

  lemma DeallocTiled(c: Chain, p: int)
    requires Tiled(c) && Acceptable(c, p)
    ensures Tiled(AfterDealloc(c, p))
  {
    var k := Find(c, p);
    if k < |c| {
      InRegion(c, k);
      if k + 1 < |c| && c[k + 1].free {
        InRegion(c, k + 1);
        assert c[k + 1..][1..] == c[k + 2..];
        Replace(c, k, k + 2, [Block(c[k].offset, c[k].size + BLOCK_HEADER_SIZE + c[k + 1].size, true)]);
      } else {
        Replace(c, k, k + 1, [c[k].(free := true)]);
      }
    }
  }

  // ---------- conservation ----------

  lemma {:induction false} UsedAppend(a: Chain, b: Chain)
    ensures Used(a + b) == Used(a) + Used(b)
  {
    if a == [] {
      assert a + b == b;
    } else {
      assert (a + b)[1..] == a[1..] + b;
      UsedAppend(a[1..], b);
    }
  }

  lemma {:induction false} FreeAppend(a: Chain, b: Chain)
    ensures Free(a + b) == Free(a) + Free(b)
  {
    if a == [] {
      assert a + b == b;
    } else {
      assert (a + b)[1..] == a[1..] + b;
      FreeAppend(a[1..], b);
    }
  }

  lemma {:induction false} SpanSum(c: Chain, lo: int, hi: int)
    requires Spans(c, lo, hi)
    ensures Used(c) + Free(c) + BLOCK_HEADER_SIZE * |c| == hi - lo
  {
    if c != [] {
      SpanSum(c[1..], c[0].End(), hi);
    }
  }

  // Every byte of the data region is used payload, free payload or header.
  lemma Conservation(c: Chain)
    requires Tiled(c)
    ensures Used(c) + Free(c) + BLOCK_HEADER_SIZE * |c| == DATA_REGION_SIZE
  {
    SpanSum(c, DATA_REGION_OFFSET, RAM_SIZE);
  }
}
