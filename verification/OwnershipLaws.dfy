/** Files with content and used blocks correspond one to one, whatever is created, written and deleted. */
module OwnershipLaws {
  import opened Layout
  import opened Bytes
  import opened Blocks
  import opened AllocatorLaws
  import opened FileModel
  import opened TreeLaws

  // ---------- frames ----------

  // The same content in the same place.
  ghost predicate SameData(n: Inode, n': Inode) {
    n.Stored() == n'.Stored() && (n.Stored() ==> n.dataOffset == n'.dataOffset && n.dataSize == n'.dataSize)
  }

  // Ownership reads nothing of the table but where content lies.
  lemma {:induction false} OwnsFrame(fs: Fs, fs': Fs)
    requires Owns(fs) && fs'.chain == fs.chain && fs'.texts == fs.texts && |fs'.table| == |fs.table|
    requires forall i | 0 <= i < |fs.table| :: SameData(fs.table[i], fs'.table[i])
    ensures Owns(fs')
  {
    hide Tiled, UsedBlocks;
    forall i | i in fs'.texts
      ensures Holds(fs', i) && HasBlock(fs', i) && DataPtr(fs'.table, i) == DataPtr(fs.table, i)
    {
      assert Holds(fs, i) && HasBlock(fs, i);
      var b :| Backed(fs, i, b);
      assert Backed(fs', i, b);
    }
    forall b | b in UsedBlocks(fs'.chain) ensures HasOwner(fs', b) {
      assert HasOwner(fs, b);
      var i :| i in fs.texts && Backed(fs, i, b);
      assert Holds(fs, i) && Backed(fs', i, b);
    }
  }

  lemma PtrsFrame(t: Table, t': Table, ids: set<int>, all: set<int>)
    requires PtrsDiffer(t, all) && ids <= all
    requires forall i | i in ids :: DataPtr(t', i) == DataPtr(t, i)
    ensures PtrsDiffer(t', ids)
  {
  }

  lemma PtrsExtend(t: Table, ids: set<int>, id: int)
    requires PtrsDiffer(t, ids) && forall i | i in ids :: DataPtr(t, i) != DataPtr(t, id)
    ensures PtrsDiffer(t, ids + {id})
  {
  }

  lemma CreateOwns(fs: Fs, parent: int, name: Text, kind: int)
    requires Owns(fs) && (Valid(fs.table, fs.next) ==> !fs.table[fs.next].Stored())
    ensures Owns(Create(fs, parent, name, kind).0)
  {
    if CanCreate(fs, parent, name) {
      OwnsFrame(fs, Create(fs, parent, name, kind).0);
    }
  }

  // ---------- giving a block back ----------

  // The pointer of a file with content may be passed to dealloc.
  lemma OwnedIsLive(fs: Fs, i: int) returns (b: Block)
    requires Owns(fs) && i in fs.texts
    ensures Backed(fs, i, b) && Live(fs.chain, fs.table[i].dataOffset)
    ensures fs.chain[Find(fs.chain, fs.table[i].dataOffset)] == b
  {
    assert Holds(fs, i) && HasBlock(fs, i);
    b :| Backed(fs, i, b);
    LiveIsUsed(fs.chain, b);
  }

  lemma DroppedBlocks(fs: Fs, id: int) returns (b: Block)
    requires Owns(fs) && id in fs.texts
    ensures var d := Dropped(fs, id);
            && Backed(fs, id, b) && UsedBlocks(d.chain) == UsedBlocks(fs.chain) - {b} && Tiled(d.chain)
            && d.texts == fs.texts - {id} && |d.table| == |fs.table| && !d.table[id].Stored()
            && forall i | 0 <= i < |fs.table| && i != id :: d.table[i] == fs.table[i]
  {
    b := OwnedIsLive(fs, id);
    assert Holds(fs, id);
    DeallocUsedBlocks(fs.chain, fs.table[id].dataOffset);
    DeallocTiled(fs.chain, fs.table[id].dataOffset);
  }

  lemma DroppedHolds(fs: Fs, id: int, i: int)
    requires Owns(fs) && id in fs.texts && i in fs.texts && i != id
    ensures var d := Dropped(fs, id); Holds(d, i) && HasBlock(d, i) && d.table[i] == fs.table[i]
  {
    hide Owns, Dropped, UsedBlocks, Backed;
    var b := DroppedBlocks(fs, id);
    var c := NotShared(fs, id, i, b);
    StillBacked(fs, Dropped(fs, id), i, c);
  }

  // Two files never lie in the same block.
  lemma NotShared(fs: Fs, id: int, i: int, b: Block) returns (c: Block)
    requires Owns(fs) && id in fs.texts && i in fs.texts && i != id && Backed(fs, id, b)
    ensures Holds(fs, id) && Holds(fs, i) && Backed(fs, i, c) && c != b && c in UsedBlocks(fs.chain)
  {
    hide Tiled, UsedBlocks;
    assert Holds(fs, i) && Holds(fs, id) && HasBlock(fs, i);
    c :| Backed(fs, i, c);
    assert PtrsDiffer(fs.table, fs.texts.Keys) && DataPtr(fs.table, i) != DataPtr(fs.table, id);
  }

  lemma StillBacked(fs: Fs, fs': Fs, i: int, b: Block)
    requires Backed(fs, i, b) && |fs'.table| == |fs.table| && fs'.table[i] == fs.table[i] && b in UsedBlocks(fs'.chain)
    ensures Backed(fs', i, b)
  {
  }

  lemma OneBlock(fs: Fs, i: int, a: Block, b: Block)
    requires Tiled(fs.chain) && Backed(fs, i, a) && Backed(fs, i, b)
    ensures a == b
  {
    SameStartSameBlock(fs.chain, a, b);
  }

  lemma DroppedOwner(fs: Fs, id: int, c: Block)
    requires Owns(fs) && id in fs.texts && c in UsedBlocks(Dropped(fs, id).chain)
    ensures HasOwner(Dropped(fs, id), c)
  {
    hide Tiled, AfterDealloc, Dropped, UsedBlocks, Backed;
    var d := Dropped(fs, id);
    var b := DroppedBlocks(fs, id);
    assert HasOwner(fs, c);
    var i :| i in fs.texts && Backed(fs, i, c);
    if i == id { OneBlock(fs, i, b, c); }
    assert Holds(fs, i);
    StillBacked(fs, d, i, c);
  }

  lemma DroppedOwns(fs: Fs, id: int)
    requires Owns(fs) && Valid(fs.table, id) && fs.table[id].active
    ensures Owns(Dropped(fs, id))
  {
    if fs.table[id].dataOffset != -1 {
      hide Tiled, AfterDealloc, Dropped, Backed, HasBlock, HasOwner, PtrsDiffer;
      var d := Dropped(fs, id);
      var b := DroppedBlocks(fs, id);
      forall i | i in d.texts ensures Holds(d, i) && HasBlock(d, i) && d.table[i] == fs.table[i] {
        DroppedHolds(fs, id, i);
      }
      forall c | c in UsedBlocks(d.chain) ensures HasOwner(d, c) {
        DroppedOwner(fs, id, c);
      }
      PtrsFrame(fs.table, d.table, d.texts.Keys, fs.texts.Keys);
    }
  }

  lemma DroppedTree(fs: Fs, id: int)
    requires Tree(fs.table, fs.next) && Valid(fs.table, id)
    ensures var d := Dropped(fs, id);
            && Tree(d.table, d.next) && (Rooted(fs.table) ==> Rooted(d.table))
            && d.table[id].active == fs.table[id].active && d.table[id].kind == fs.table[id].kind
  {
    Redata(fs.table, fs.next, id, -1, 0);
  }

  function WithData(t: Table, id: int, offset: int, size: int): Table
    requires Valid(t, id)
  {
    t[id := t[id].(dataOffset := offset, dataSize := size)]
  }

  lemma RedataNode(t: Table, next: int, id: int, offset: int, size: int, i: int)
    requires Tree(t, next) && Valid(t, id) && Valid(t, i)
    requires offset == -1 || t[id].kind == INODE_FILE
    ensures NodeOk(WithData(t, id, offset, size), next, i)
  {
    assert Shape(t[i]);
  }

  lemma RedataChildren(t: Table, next: int, id: int, offset: int, size: int, d: int, k: int)
    requires Tree(t, next) && Valid(t, id) && Valid(t, d)
    ensures var t' := WithData(t, id, offset, size);
            && t'[d].Kids() == t[d].Kids()
            && (k in t'[d].Kids() ==> IsChild(t', d, k))
            && (1 <= k < |t'| && t'[k].active && t'[k].parent == d ==> k in t'[d].Kids())
            && SiblingsDiffer(t', t'[d].Kids())
  {
    hide Shape;
    assert k in t[d].Kids() ==> IsChild(t, d, k);
    assert SiblingsDiffer(t, t[d].Kids());
    SiblingsFrame(t, WithData(t, id, offset, size), t[d].Kids());
  }

  // The tree does not depend on where the content of a file lies.
  lemma Redata(t: Table, next: int, id: int, offset: int, size: int)
    requires Tree(t, next) && Valid(t, id)
    requires offset == -1 || t[id].kind == INODE_FILE
    ensures var t' := WithData(t, id, offset, size); Tree(t', next) && (Rooted(t) ==> Rooted(t'))
  {
    var t' := WithData(t, id, offset, size);
    forall i | 0 <= i < |t'| ensures NodeOk(t', next, i) {
      RedataNode(t, next, id, offset, size, i);
    }
    hide Shape, SiblingsDiffer;
    forall d | 0 <= d < |t'| ensures SiblingsDiffer(t', t'[d].Kids()) {
      RedataChildren(t, next, id, offset, size, d, 0);
    }
    forall d, k | 0 <= d < |t'| && k in t'[d].Kids() ensures IsChild(t', d, k) {
      RedataChildren(t, next, id, offset, size, d, k);
    }
    forall k | 1 <= k < |t'| && t'[k].active ensures k in t'[t'[k].parent].Kids() {
      assert NodeOk(t', next, k);
      RedataChildren(t, next, id, offset, size, t'[k].parent, k);
    }
    TreeFrom(t', next);
  }

  // ---------- fs_delete ----------

  lemma DeleteOwns(fs: Fs, id: int)
    requires Owns(fs)
    ensures Owns(Delete(fs, id).0)
  {
    if CanDelete(fs, id) {
      hide Owns;
      DroppedOwns(fs, id);
      DeletedSameData(fs, id);
      OwnsFrame(Dropped(fs, id), Delete(fs, id).0);
    }
  }

  lemma DeletedSameData(fs: Fs, id: int)
    requires CanDelete(fs, id)
    ensures var d, fs' := Dropped(fs, id), Delete(fs, id).0;
            && |fs'.table| == |d.table|
            && forall i | 0 <= i < |d.table| :: SameData(d.table[i], fs'.table[i])
  {
    hide IndexOf;
  }

  // ---------- fs_write ----------

  // Enters a freshly allocated block for a file without content.
  function Stored(fs: Fs, id: int, data: Text): Fs
    requires Valid(fs.table, id)
  {
    var n := |data| + 1;
    fs.(table := WithData(fs.table, id, AllocResult(fs.chain, n), n), chain := AfterAlloc(fs.chain, n),
        texts := fs.texts[id := data])
  }

  ghost predicate CanStore(fs: Fs, id: int, data: Text) {
    Owns(fs) && CanWrite(fs, id) && id !in fs.texts && NUL !in data && AllocResult(fs.chain, |data| + 1) != NULL
  }

  lemma StoredBlocks(fs: Fs, id: int, data: Text) returns (g: Block)
    requires CanStore(fs, id, data)
    ensures var s := Stored(fs, id, data);
            && Backed(s, id, g) && UsedBlocks(s.chain) == UsedBlocks(fs.chain) + {g} && Tiled(s.chain)
            && (forall b | b in UsedBlocks(fs.chain) :: b.offset != g.offset)
            && g.Payload() > 0
  {
    var n := |data| + 1;
    AllocTiled(fs.chain, n);
    AllocUsedBlocks(fs.chain, n);
    GrantPositive(fs.chain, n);
    g := Granted(fs.chain[FirstFit(fs.chain, n)], n);
  }

  lemma StoredHolds(fs: Fs, id: int, data: Text, i: int)
    requires CanStore(fs, id, data) && i in Stored(fs, id, data).texts
    ensures var s := Stored(fs, id, data);
            && Holds(s, i) && HasBlock(s, i)
            && (i != id ==> s.table[i] == fs.table[i] && s.table[i].dataOffset != s.table[id].dataOffset)
  {
    hide Tiled, AfterAlloc, AllocResult;
    var s := Stored(fs, id, data);
    var g := StoredBlocks(fs, id, data);
    if i != id {
      assert Holds(fs, i) && HasBlock(fs, i);
      var b :| Backed(fs, i, b);
      assert Backed(s, i, b);
    }
  }

  lemma StoredOwner(fs: Fs, id: int, data: Text, b: Block)
    requires CanStore(fs, id, data) && b in UsedBlocks(Stored(fs, id, data).chain)
    ensures HasOwner(Stored(fs, id, data), b)
  {
    hide Tiled, AfterAlloc, AllocResult, UsedBlocks, Backed;
    var s := Stored(fs, id, data);
    var g := StoredBlocks(fs, id, data);
    if b != g {
      assert HasOwner(fs, b);
      var i :| i in fs.texts && Backed(fs, i, b);
      assert Holds(fs, i);
      StillBacked(fs, s, i, b);
    }
  }

  lemma StoreOwns(fs: Fs, id: int, data: Text)
    requires CanStore(fs, id, data)
    ensures Owns(Stored(fs, id, data))
  {
    hide Tiled, AfterAlloc, AllocResult, Backed, HasBlock, HasOwner, PtrsDiffer, UsedBlocks;
    var s := Stored(fs, id, data);
    var g := StoredBlocks(fs, id, data);
    forall i | i in s.texts
      ensures Holds(s, i) && HasBlock(s, i)
      ensures i != id ==> DataPtr(s.table, i) == DataPtr(fs.table, i) != DataPtr(s.table, id)
    {
      StoredHolds(fs, id, data, i);
    }
    forall b | b in UsedBlocks(s.chain) ensures HasOwner(s, b) {
      StoredOwner(fs, id, data, b);
    }
    PtrsFrame(fs.table, s.table, fs.texts.Keys, fs.texts.Keys);
    PtrsExtend(s.table, fs.texts.Keys, id);
    assert s.texts.Keys == fs.texts.Keys + {id};
  }

  lemma GrantPositive(c: Chain, n: int)
    requires Tiled(c) && AllocResult(c, n) != NULL
    ensures AllocResult(c, n) > 0
  {
    InRegion(c, FirstFit(c, n));
  }

  lemma WriteOwns(fs: Fs, id: int, data: Text)
    requires Owns(fs) && NUL !in data
    ensures Owns(Write(fs, id, data).0)
  {
    if CanWrite(fs, id) {
      hide Owns, Tiled, AfterAlloc, AllocResult;
      var d := Dropped(fs, id);
      DroppedOwns(fs, id);
      DroppedText(fs, id);
      if AllocResult(d.chain, |data| + 1) != NULL {
        StoreOwns(d, id, data);
      }
    }
  }

  lemma WriteInv(fs: Fs, id: int, data: Text)
    requires Inv(fs) && NUL !in data
    ensures Inv(Write(fs, id, data).0) && (Rooted(fs.table) ==> Rooted(Write(fs, id, data).0.table))
  {
    hide Tree, Rooted, Owns, Tiled, AfterAlloc, AllocResult;
    WriteOwns(fs, id, data);
    if CanWrite(fs, id) {
      var d := Dropped(fs, id);
      DroppedTree(fs, id);
      var p := AllocResult(d.chain, |data| + 1);
      if p != NULL {
        Redata(d.table, d.next, id, p, |data| + 1);
      }
    }
  }

  lemma DroppedText(fs: Fs, id: int)
    requires Owns(fs) && Valid(fs.table, id)
    ensures fs.table[id].active ==> id !in Dropped(fs, id).texts
  {
    if id in fs.texts { assert Holds(fs, id); }
  }
}
