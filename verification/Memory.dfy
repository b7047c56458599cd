/** libs/memory.c: the allocator over the bytes of VIRTUAL_RAM. */
module Memory {
  import opened Layout
  import opened Bytes
  import opened Blocks

  predicate InBounds(v: int, low: int, high: int) { low <= v <= high }

  // The bytes at b.offset are the header of b, with this next_offset.
  predicate Header(s: seq<Byte>, b: Block, next: int) {
    && 0 <= b.offset && b.offset + BLOCK_HEADER_SIZE <= |s|
    && IntAt(s, b.offset) == b.size
    && IntAt(s, b.offset + 4) == (if b.free then 1 else 0)
    && IntAt(s, b.offset + 8) == next
  }

  // The next_offset field of block i.
  function Next(c: Chain, i: nat): int
    requires i < |c|
  {
    if i + 1 < |c| then c[i + 1].offset else -1
  }

  // The bytes of s hold chain c.
  predicate Describes(s: seq<Byte>, c: Chain) {
    && |s| == RAM_SIZE
    && Tiled(c)
    && forall i | 0 <= i < |c| :: Header(s, c[i], Next(c, i))
  }

  lemma HeaderFrame(s: seq<Byte>, t: seq<Byte>, b: Block, next: int)
    requires Header(s, b, next) && Agree(s, t, b.offset, b.offset + BLOCK_HEADER_SIZE)
    ensures Header(t, b, next)
  {
  }

  lemma {:induction false} DescribesFrame(s: seq<Byte>, t: seq<Byte>, c: Chain)
    requires Describes(s, c) && Agree(s, t, DATA_REGION_OFFSET, RAM_SIZE)
    ensures Describes(t, c)
  {
    hide Spans, IntAt;
    forall i | 0 <= i < |c| ensures Header(t, c[i], Next(c, i)) {
      InRegion(c, i);
      HeaderFrame(s, t, c[i], Next(c, i));
    }
  }

  // Rewriting the payload of one block does not disturb the chain.
  lemma PayloadFrame(s: seq<Byte>, t: seq<Byte>, c: Chain, k: nat)
    requires Describes(s, c) && k < |c| && AgreeOutside(s, t, c[k].Payload(), c[k].End())
    ensures Describes(t, c)
  {
    forall i | 0 <= i < |c| ensures Header(t, c[i], Next(c, i)) {
      InRegion(c, i);
      InRegion(c, k);
      if i < k { Ordered(c, i, k); }
      if k < i { Ordered(c, k, i); }
      HeaderFrame(s, t, c[i], Next(c, i));
    }
  }

  // What alloc has written once it has chosen block b.
  predicate Granting(s: seq<Byte>, t: seq<Byte>, b: Block, n: int, next: int) {
    var g := Granted(b, n);
    && |s| == |t|
    && (if Splits(b, n)
        then Header(t, g, g.End()) && Header(t, Block(g.End(), b.size - n - BLOCK_HEADER_SIZE, true), next)
        else Header(t, g, next))
    && forall p | 0 <= p < |s| && !(b.offset <= p < b.Payload())
                  && !(Splits(b, n) && g.End() <= p < g.End() + BLOCK_HEADER_SIZE) :: t[p] == s[p]
  }

  lemma GrantingOutside(s: seq<Byte>, t: seq<Byte>, b: Block, n: int, next: int)
    requires Granting(s, t, b, n, next) && 0 < n <= b.size
    ensures AgreeOutside(s, t, b.offset, b.End())
  {
  }

  // Headers outside block k survive a change confined to block k.
  lemma OtherHeader(s: seq<Byte>, t: seq<Byte>, c: Chain, k: nat, i: nat)
    requires Describes(s, c) && k < |c| && i < |c| && i != k
    requires AgreeOutside(s, t, c[k].offset, c[k].End())
    ensures Header(t, c[i], Next(c, i))
  {
    InRegion(c, i);
    if i < k { Ordered(c, i, k); } else { Ordered(c, k, i); }
    HeaderFrame(s, t, c[i], Next(c, i));
  }

  // The one or two blocks alloc puts in place of the chosen one.
  lemma AllocNewBlocks(c: Chain, n: int)
    requires Tiled(c) && AllocResult(c, n) != NULL
    ensures var k, c' := FirstFit(c, n), AfterAlloc(c, n);
            var g := Granted(c[k], n);
            && |c'| >= |c|
            && c'[k] == g
            && (if Splits(c[k], n)
                then |c'| == |c| + 1 && Next(c', k) == g.End() && Next(c', k + 1) == Next(c, k)
                     && c'[k + 1] == Block(g.End(), c[k].size - n - BLOCK_HEADER_SIZE, true)
                else |c'| == |c| && Next(c', k) == Next(c, k))
  {
  }

  // Every other block keeps its fields.
  lemma AllocOldBlock(c: Chain, n: int, i: nat) returns (j: nat)
    requires Tiled(c) && AllocResult(c, n) != NULL
    requires i < |AfterAlloc(c, n)|
    requires i != FirstFit(c, n) && !(Splits(c[FirstFit(c, n)], n) && i == FirstFit(c, n) + 1)
    ensures j < |c| && j != FirstFit(c, n)
    ensures AfterAlloc(c, n)[i] == c[j] && Next(AfterAlloc(c, n), i) == Next(c, j)
  {
    var k := FirstFit(c, n);
    j := if i < k then i else i - (|AfterAlloc(c, n)| - |c|);
  }

  lemma AllocHeader(s: seq<Byte>, t: seq<Byte>, c: Chain, n: int, i: nat)
    requires Describes(s, c) && AllocResult(c, n) != NULL
    requires Granting(s, t, c[FirstFit(c, n)], n, Next(c, FirstFit(c, n)))
    requires i < |AfterAlloc(c, n)|
    ensures var c' := AfterAlloc(c, n); Header(t, c'[i], Next(c', i))
  {
    var k := FirstFit(c, n);
    if i == k || (Splits(c[k], n) && i == k + 1) {
      AllocNewBlocks(c, n);
    } else {
      var j := AllocOldBlock(c, n, i);
      GrantingOutside(s, t, c[k], n, Next(c, k));
      OtherHeader(s, t, c, k, j);
    }
  }

  lemma AllocDescribes(s: seq<Byte>, t: seq<Byte>, c: Chain, n: int)
    requires Describes(s, c) && AllocResult(c, n) != NULL
    requires Granting(s, t, c[FirstFit(c, n)], n, Next(c, FirstFit(c, n)))
    ensures Describes(t, AfterAlloc(c, n))
  {
    AllocTiled(c, n);
    var c' := AfterAlloc(c, n);
    forall i | 0 <= i < |c'| ensures Header(t, c'[i], Next(c', i)) {
      AllocHeader(s, t, c, n, i);
    }
  }

  // What dealloc has written to the header of block k.
  predicate Releasing(s: seq<Byte>, t: seq<Byte>, c: Chain, k: nat)
    requires k < |c|
  {
    var b := Release(c, k)[k];
    && Header(t, b, Next(Release(c, k), k))
    && AgreeOutside(s, t, c[k].offset, c[k].Payload())
  }

  lemma DeallocOldBlock(c: Chain, k: nat, i: nat) returns (j: nat)
    requires k < |c| && i < |Release(c, k)| && i != k
    ensures j < |c| && j != k
    ensures Release(c, k)[i] == c[j] && Next(Release(c, k), i) == Next(c, j)
  {
    var c' := Release(c, k);
    if i < k {
      j := i;
      assert c'[k].offset == c[k].offset;
    } else {
      var d := |c| - |c'|;
      j := i + d;
      assert c'[k + 1..] == c[k + 1 + d..];
      assert c'[i] == c'[k + 1..][i - k - 1];
      if i + 1 < |c'| { assert c'[i + 1] == c'[k + 1..][i - k]; }
    }
  }

  // The block that dealloc leaves at position k.
  lemma Released(c: Chain, k: nat)
    requires k < |c|
    ensures var c', b := Release(c, k), c[k];
            k < |c'| && if k + 1 < |c| && c[k + 1].free
                        then c'[k] == Block(b.offset, b.size + BLOCK_HEADER_SIZE + c[k + 1].size, true)
                             && Next(c', k) == Next(c, k + 1)
                        else c'[k] == b.(free := true) && Next(c', k) == Next(c, k)
  {
  }

  lemma DeallocHeader(s: seq<Byte>, t: seq<Byte>, c: Chain, k: nat, i: nat)
    requires Describes(s, c) && k < |c| && Releasing(s, t, c, k)
    requires i < |Release(c, k)|
    ensures var c' := Release(c, k); Header(t, c'[i], Next(c', i))
  {
    InRegion(c, k);
    if i != k {
      var j := DeallocOldBlock(c, k, i);
      OtherHeader(s, t, c, k, j);
    }
  }

  lemma DeallocDescribes(s: seq<Byte>, t: seq<Byte>, c: Chain, p: int)
    requires Describes(s, c) && Live(c, p) && Releasing(s, t, c, Find(c, p))
    ensures Describes(t, AfterDealloc(c, p))
  {
    var k, c' := Find(c, p), AfterDealloc(c, p);
    DeallocTiled(c, p);
    forall i | 0 <= i < |c'| ensures Header(t, c'[i], Next(c', i)) {
      DeallocHeader(s, t, c, k, i);
    }
  }

  class VirtualRam {
    const ram: array<Byte>
    // The blocks whose headers lie in ram.
    ghost var chain: Chain

    constructor ()
      ensures fresh(ram) && ram.Length == RAM_SIZE
    {
      ram := new Byte[RAM_SIZE];
    }

    ghost predicate Valid()
      reads this, ram
    {
      ram.Length == RAM_SIZE && Describes(ram[..], chain)
    }

    function GetInt(o: int): int
      requires 0 <= o && o + 4 <= ram.Length
      reads ram
    {
      IntAt(ram[..], o)
    }

    // block->size = size
    method SetSize(size: int, ghost b: Block, ghost next: int, offset: int)
      requires Header(ram[..], b, next) && offset == b.offset && MIN_INT <= size <= MAX_INT
      modifies ram
      ensures Header(ram[..], b.(size := size), next)
      ensures AgreeOutside(old(ram[..]), ram[..], b.offset, b.Payload())
    {
      PutInt(ram, offset, size);
    }

    // block->is_free = free
    method SetFree(free: bool, ghost b: Block, ghost next: int, offset: int)
      requires Header(ram[..], b, next) && offset == b.offset
      modifies ram
      ensures Header(ram[..], b.(free := free), next)
      ensures AgreeOutside(old(ram[..]), ram[..], b.offset, b.Payload())
    {
      PutInt(ram, offset + 4, if free then 1 else 0);
    }

    // block->next_offset = next
    method SetNext(next: int, ghost b: Block, ghost next0: int, offset: int)
      requires Header(ram[..], b, next0) && offset == b.offset && MIN_INT <= next <= MAX_INT
      modifies ram
      ensures Header(ram[..], b, next)
      ensures AgreeOutside(old(ram[..]), ram[..], b.offset, b.Payload())
    {
      PutInt(ram, offset + 8, next);
    }

    // Fills in all three fields of a header written over payload bytes.
    method NewHeader(offset: int, size: int, free: bool, next: int)
      requires 0 <= offset && offset + BLOCK_HEADER_SIZE <= ram.Length
      requires MIN_INT <= size <= MAX_INT && MIN_INT <= next <= MAX_INT
      modifies ram
      ensures Header(ram[..], Block(offset, size, free), next)
      ensures AgreeOutside(old(ram[..]), ram[..], offset, offset + BLOCK_HEADER_SIZE)
    {
      PutInt(ram, offset, size);
      PutInt(ram, offset + 4, if free then 1 else 0);
      PutInt(ram, offset + 8, next);
    }

    // memory_init
    method Init()
      requires ram.Length == RAM_SIZE
      modifies this, ram
      ensures Valid() && chain == InitialChain
      ensures forall p | 0 <= p < DATA_REGION_OFFSET :: ram[p] == NUL
    {
      var i := 0;
      while i < RAM_SIZE
        invariant 0 <= i <= RAM_SIZE
        invariant forall p | 0 <= p < i :: ram[p] == NUL
      {
        ram[i] := NUL;
        i := i + 1;
      }
      NewHeader(DATA_REGION_OFFSET, DATA_REGION_SIZE - BLOCK_HEADER_SIZE, true, -1);
      chain := InitialChain;
      InitialTiled();
    }

    // Walks from block k to its successor.
    lemma Step(k: nat)
      requires Valid() && k < |chain|
      ensures var o := chain[k].offset;
              && InBounds(o, DATA_REGION_OFFSET, RAM_SIZE - 1) && o + BLOCK_HEADER_SIZE + 1 <= RAM_SIZE
              && GetInt(o) == chain[k].size
              && (GetInt(o + 4) != 0 <==> chain[k].free)
              && GetInt(o + 8) == Next(chain, k)
    {
      InRegion(chain, k);
    }

    // The walk starts at the first block.
    lemma FirstOffset()
      requires Valid()
      ensures Tiled(chain) && |chain| > 0 && chain[0].offset == DATA_REGION_OFFSET
    {
    }

    method Alloc(size: int) returns (ptr: int)
      requires Valid() && MIN_INT <= size <= MAX_INT
      modifies this, ram
      ensures Valid()
      ensures chain == AfterAlloc(old(chain), size) && ptr == AllocResult(old(chain), size)
      ensures ptr == NULL ==> ram[..] == old(ram[..])
      ensures ptr != NULL ==> var k := FirstFit(old(chain), size);
                              Granting(old(ram[..]), ram[..], old(chain)[k], size, Next(old(chain), k))
    {
      hide IntAt;
      if size <= 0 {
        return NULL;
      }
      var offset := DATA_REGION_OFFSET;
      ghost var k := 0;
      while offset != -1 && InBounds(offset, DATA_REGION_OFFSET, RAM_SIZE - 1)
        invariant k <= |chain|
        invariant offset == if k < |chain| then chain[k].offset else -1
        invariant FirstFit(chain, size) == FirstFit(chain, size, k)
        invariant chain == old(chain) && ram[..] == old(ram[..])
        decreases |chain| - k
      {
        Step(k);
        if GetInt(offset + 4) != 0 && GetInt(offset) >= size {
          ptr := Grant(offset, size, k);
          return;
        }
        offset := GetInt(offset + 8);
        k := k + 1;
      }
      if k < |chain| { Step(k); }
      ptr := NULL;
    }

    // The part of alloc that follows the search: split if possible, mark used, return the payload.
    method Grant(offset: int, size: int, ghost k: nat) returns (ptr: int)
      requires Valid() && size > 0
      requires k < |chain| && k == FirstFit(chain, size) && offset == chain[k].offset
      modifies this, ram
      ensures Valid()
      ensures chain == AfterAlloc(old(chain), size) && ptr == AllocResult(old(chain), size) != NULL
      ensures Granting(old(ram[..]), ram[..], old(chain)[k], size, Next(old(chain), k))
    {
      hide IntAt, Tiled, AfterAlloc;
      Step(k);
      InRegion(chain, k);
      ghost var s0, b, next := ram[..], chain[k], Next(chain, k);
      var remaining := GetInt(offset) - size;
      if remaining >= BLOCK_HEADER_SIZE + 1 {
        Split(offset, size, remaining, b, next);
        ghost var s1, n := ram[..], Block(b.Payload() + size, b.size - size - BLOCK_HEADER_SIZE, true);
        SetFree(false, b.(size := size), n.offset, offset);
        HeaderFrame(s1, ram[..], n, next);
      } else {
        SetFree(false, b, next, offset);
      }
      AllocDescribes(s0, ram[..], chain, size);
      chain := AfterAlloc(chain, size);
      ptr := offset + BLOCK_HEADER_SIZE;
    }

    // Cuts block b after its first size bytes; the remainder becomes a free block of its own.
    method Split(offset: int, size: int, remaining: int, ghost b: Block, ghost next: int)
      requires Header(ram[..], b, next) && offset == b.offset && b.End() <= ram.Length == RAM_SIZE
      requires size > 0 && remaining == b.size - size >= BLOCK_HEADER_SIZE + 1
      modifies ram
      ensures Header(ram[..], b.(size := size), b.Payload() + size)
      ensures Header(ram[..], Block(b.Payload() + size, b.size - size - BLOCK_HEADER_SIZE, true), next)
      ensures forall p | 0 <= p < ram.Length && !(b.offset <= p < b.Payload())
                         && !(b.Payload() + size <= p < b.Payload() + size + BLOCK_HEADER_SIZE) :: ram[p] == old(ram[p])
    {
      hide IntAt;
      ghost var s0, n := ram[..], Block(b.Payload() + size, b.size - size - BLOCK_HEADER_SIZE, true);
      var newOffset := offset + BLOCK_HEADER_SIZE + size;
      NewHeader(newOffset, remaining - BLOCK_HEADER_SIZE, true, GetInt(offset + 8));
      ghost var s1 := ram[..];
      HeaderFrame(s0, s1, b, next);
      SetSize(size, b, next, offset);
      SetNext(newOffset, b.(size := size), next, offset);
      HeaderFrame(s1, ram[..], n, next);
    }

    method Dealloc(ptr: int)
      requires Valid()
      requires ptr == NULL || !InBounds(ptr - BLOCK_HEADER_SIZE, DATA_REGION_OFFSET, RAM_SIZE - BLOCK_HEADER_SIZE)
               || Live(chain, ptr)
      modifies this, ram
      ensures Valid() && chain == AfterDealloc(old(chain), ptr)
      ensures if Live(old(chain), ptr) then Releasing(old(ram[..]), ram[..], old(chain), Find(old(chain), ptr))
              else ram[..] == old(ram[..])
    {
      hide IntAt, Tiled, Release;
      ghost var k := Find(chain, ptr);
      if k < |chain| { Step(k); InRegion(chain, k); }
      if ptr == NULL {
        return;
      }
      var headerOffset := ptr - BLOCK_HEADER_SIZE;
      if !InBounds(headerOffset, DATA_REGION_OFFSET, RAM_SIZE - BLOCK_HEADER_SIZE) {
        return;
      }
      ghost var s0 := ram[..];
      SetFree(true, chain[k], Next(chain, k), headerOffset);
      Released(chain, k);
      if k + 1 < |chain| {
        InRegion(chain, k + 1);
        HeaderFrame(s0, ram[..], chain[k + 1], Next(chain, k + 1));
      }
      var next := GetInt(headerOffset + 8);
      if next != -1 {
        Coalesce(headerOffset, next, chain, k);
      }
      DeallocDescribes(s0, ram[..], chain, ptr);
      chain := AfterDealloc(chain, ptr);
    }

    // The end of dealloc: block k has just been marked free; absorb its successor if that is free too.
    method Coalesce(offset: int, next: int, ghost c: Chain, ghost k: nat)
      requires Tiled(c) && k + 1 < |c| && offset == c[k].offset && next == c[k + 1].offset
      requires Header(ram[..], c[k].(free := true), next) && Header(ram[..], c[k + 1], Next(c, k + 1))
      modifies ram
      ensures Releasing(old(ram[..]), ram[..], c, k)
    {
      hide IntAt, Tiled, Release;
      ghost var s0, freed, n, next1 := ram[..], c[k].(free := true), c[k + 1], Next(c, k + 1);
      InRegion(c, k);
      InRegion(c, k + 1);
      Released(c, k);
      if k + 2 < |c| { InRegion(c, k + 2); }
      if GetInt(next + 4) != 0 {
        SetSize(GetInt(offset) + BLOCK_HEADER_SIZE + GetInt(next), freed, next, offset);
        HeaderFrame(s0, ram[..], n, next1);
        SetNext(GetInt(next + 8), freed.(size := c[k].size + BLOCK_HEADER_SIZE + n.size), next, offset);
      }
    }

    // memory_used
    method MemoryUsed() returns (used: int)
      requires Valid()
      ensures used == Used(chain) && 0 <= used <= DATA_REGION_SIZE
    {
      hide IntAt, Describes, Spans;
      FirstOffset();
      var offset := DATA_REGION_OFFSET;
      used := 0;
      ghost var k := 0;
      while offset != -1 && InBounds(offset, DATA_REGION_OFFSET, RAM_SIZE - 1)
        invariant k <= |chain|
        invariant offset == if k < |chain| then chain[k].offset else -1
        invariant used + Used(chain[k..]) == Used(chain)
        decreases |chain| - k
      {
        Step(k);
        assert chain[k..][1..] == chain[k + 1..];
        if GetInt(offset + 4) == 0 {
          used := used + GetInt(offset);
        }
        offset := GetInt(offset + 8);
        k := k + 1;
      }
      if k < |chain| { Step(k); }
      Bounded(chain, DATA_REGION_OFFSET, RAM_SIZE);
    }

    // memory_free
    method MemoryFree() returns (freeBytes: int)
      requires Valid()
      ensures freeBytes == Free(chain) && 0 <= freeBytes <= DATA_REGION_SIZE
    {
      hide IntAt, Describes, Spans;
      FirstOffset();
      var offset := DATA_REGION_OFFSET;
      freeBytes := 0;
      ghost var k := 0;
      while offset != -1 && InBounds(offset, DATA_REGION_OFFSET, RAM_SIZE - 1)
        invariant k <= |chain|
        invariant offset == if k < |chain| then chain[k].offset else -1
        invariant freeBytes + Free(chain[k..]) == Free(chain)
        decreases |chain| - k
      {
        Step(k);
        assert chain[k..][1..] == chain[k + 1..];
        if GetInt(offset + 4) != 0 {
          freeBytes := freeBytes + GetInt(offset);
        }
        offset := GetInt(offset + 8);
        k := k + 1;
      }
      if k < |chain| { Step(k); }
      Bounded(chain, DATA_REGION_OFFSET, RAM_SIZE);
    }
  }

  lemma {:induction false} Bounded(c: Chain, lo: int, hi: int)
    requires Spans(c, lo, hi)
    ensures 0 <= Used(c) && 0 <= Free(c) && Used(c) + Free(c) <= hi - lo
  {
    if c != [] {
      Bounded(c[1..], c[0].End(), hi);
    }
  }
}
