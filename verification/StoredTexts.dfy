/** Why the content of a file survives whatever happens to the blocks of others. */
module StoredTexts {
  import opened Layout
  import opened Bytes
  import opened Blocks
  import opened Memory
  import opened FileModel
  import opened OwnershipLaws
  import opened Inodes

  // The bytes of s hold file system fs.
  ghost predicate Holding(s: seq<Byte>, fs: Fs) {
    && |s| == RAM_SIZE
    && fs.table == TableOf(s)
    && fs.texts == TextsOf(s)
    && Describes(s, fs.chain)
    && Owns(fs)
  }

  // The bytes of file i, its NUL included, lie inside its own block.
  lemma TextInBlock(s: seq<Byte>, fs: Fs, i: int) returns (j: nat)
    requires Holding(s, fs) && i in fs.texts
    ensures j < |fs.chain| && !fs.chain[j].free && Backed(fs, i, fs.chain[j])
    ensures var o := fs.table[i].dataOffset;
            && DATA_REGION_OFFSET <= o == fs.chain[j].Payload() && o + |fs.texts[i]| + 1 <= fs.chain[j].End() <= RAM_SIZE
            && CStr(s, o) == fs.texts[i] && Terminated(s, o)
  {
    assert HasBlock(fs, i) && Holds(fs, i);
    var b :| Backed(fs, i, b);
    j :| 0 <= j < |fs.chain| && fs.chain[j] == b;
    InRegion(fs.chain, j);
  }

  lemma BlocksApart(c: Chain, j: nat, k: nat)
    requires Tiled(c) && j < |c| && k < |c| && j != k
    ensures c[j].End() <= c[k].offset || c[k].End() <= c[j].offset
    ensures c[j].size >= 1 && c[k].size >= 1
  {
    InRegion(c, j);
    InRegion(c, k);
    if j < k { Ordered(c, j, k); } else { Ordered(c, k, j); }
  }

  lemma TextFrame(s: seq<Byte>, t: seq<Byte>, o: int, lo: int, hi: int)
    requires Terminated(s, o) && AgreeOutside(s, t, lo, hi)
    requires o + |CStr(s, o)| + 1 <= lo || hi <= o
    ensures CStr(t, o) == CStr(s, o)
  {
    hide CStr;
    CStrFrame(s, t, o);
  }

  // A change confined to block k leaves the text of a file in another block alone.
  lemma OtherText(s: seq<Byte>, t: seq<Byte>, fs: Fs, i: int, k: nat)
    requires Holding(s, fs) && i in fs.texts && k < |fs.chain|
    requires AgreeOutside(s, t, fs.chain[k].offset, fs.chain[k].End())
    requires fs.chain[k].free || fs.chain[k].Payload() != fs.table[i].dataOffset
    ensures Valid(fs.table, i) && TextAt(t, fs.table[i].dataOffset) == fs.texts[i]
  {
    var j := TextInBlock(s, fs, i);
    BlocksApart(fs.chain, j, k);
    TextFrame(s, t, fs.table[i].dataOffset, fs.chain[k].offset, fs.chain[k].End());
  }

  // A change below the data region leaves all stored texts alone.
  lemma LowChange(s: seq<Byte>, t: seq<Byte>, fs: Fs, i: int)
    requires Holding(s, fs) && i in fs.texts && Agree(s, t, DATA_REGION_OFFSET, RAM_SIZE)
    ensures Valid(fs.table, i) && TextAt(t, fs.table[i].dataOffset) == fs.texts[i]
  {
    var j := TextInBlock(s, fs, i);
    TailText(s, t, fs.table[i].dataOffset);
  }

  // Two tables that agree on what is stored where, with texts that read the same, have the same texts.
  lemma TextsAre(t: seq<Byte>, texts: map<int, Text>)
    requires |t| == RAM_SIZE
    requires forall i :: i in texts <==> Slot(i) && InodeAt(t, i).Stored()
    requires forall i | i in texts :: TextAt(t, InodeAt(t, i).dataOffset) == texts[i]
    ensures TextsOf(t) == texts
  {
    assert forall i | i in texts :: i in TextsOf(t) && TextsOf(t)[i] == texts[i];
  }

  // Slot i of t reads as texts says.
  ghost predicate ReadsAs(t: seq<Byte>, texts: map<int, Text>, i: int)
    requires |t| == RAM_SIZE
  {
    && (i in texts <==> Slot(i) && InodeAt(t, i).Stored())
    && (i in texts ==> TextAt(t, InodeAt(t, i).dataOffset) == texts[i])
  }

  lemma AllRead(t: seq<Byte>, texts: map<int, Text>)
    requires |t| == RAM_SIZE && forall i :: ReadsAs(t, texts, i)
    ensures TextsOf(t) == texts
  {
    forall i ensures i in texts <==> Slot(i) && InodeAt(t, i).Stored() {
      assert ReadsAs(t, texts, i);
    }
    forall i | i in texts ensures TextAt(t, InodeAt(t, i).dataOffset) == texts[i] {
      assert ReadsAs(t, texts, i);
    }
    TextsAre(t, texts);
  }

  // A slot whose data fields are as before, over a text that is as before.
  lemma SameSlot(s: seq<Byte>, t: seq<Byte>, fs: Fs, i: int)
    requires Holding(s, fs) && |t| == RAM_SIZE
    requires Slot(i) ==> SameData(fs.table[i], TableOf(t)[i])
    requires i in fs.texts ==> Valid(fs.table, i) && TextAt(t, fs.table[i].dataOffset) == fs.texts[i]
    ensures ReadsAs(t, fs.texts, i)
  {
    if Slot(i) { assert TableOf(t)[i] == InodeAt(t, i); }
    if i in fs.texts { assert Holds(fs, i); }
  }

  // Changes below the data region that leave the data fields of all inodes alone change no text.
  lemma LowTexts(s: seq<Byte>, t: seq<Byte>, fs: Fs)
    requires Holding(s, fs) && Agree(s, t, DATA_REGION_OFFSET, RAM_SIZE)
    requires forall i | 0 <= i < MAX_INODES :: SameData(fs.table[i], TableOf(t)[i])
    ensures TextsOf(t) == fs.texts
  {
    forall i ensures ReadsAs(t, fs.texts, i) {
      LowSlot(s, t, fs, i);
    }
    hide ReadsAs, TextsOf;
    AllRead(t, fs.texts);
  }

  lemma LowSlot(s: seq<Byte>, t: seq<Byte>, fs: Fs, i: int)
    requires Holding(s, fs) && Agree(s, t, DATA_REGION_OFFSET, RAM_SIZE)
    requires Slot(i) ==> SameData(fs.table[i], TableOf(t)[i])
    ensures ReadsAs(t, fs.texts, i)
  {
    if i in fs.texts { LowChange(s, t, fs, i); }
    SameSlot(s, t, fs, i);
  }

  // At most the header of block k, which holds file id, differs.
  ghost predicate FreedAt(s: seq<Byte>, t: seq<Byte>, fs: Fs, id: int, k: nat) {
    && Valid(fs.table, id) && k < |fs.chain| && fs.chain[k].Payload() == fs.table[id].dataOffset
    && AgreeOutside(s, t, fs.chain[k].offset, fs.chain[k].Payload())
  }

  // From s0 to s1 the header of block k, which holds file id, is rewritten; from s1 to s2 only bytes below the data
  // region change, and they forget the content of that file.
  ghost predicate Dropping(s0: seq<Byte>, s1: seq<Byte>, s2: seq<Byte>, fs: Fs, id: int, k: nat) {
    && Holding(s0, fs) && Slot(id) && id in fs.texts && FreedAt(s0, s1, fs, id, k)
    && Agree(s1, s2, DATA_REGION_OFFSET, RAM_SIZE)
    && (forall i | 0 <= i < MAX_INODES && i != id :: SameData(fs.table[i], TableOf(s2)[i]))
    && !TableOf(s2)[id].Stored()
  }

  lemma DroppedTexts(s0: seq<Byte>, s1: seq<Byte>, s2: seq<Byte>, fs: Fs, id: int, k: nat)
    requires Dropping(s0, s1, s2, fs, id, k)
    ensures |s2| == RAM_SIZE && TextsOf(s2) == fs.texts - {id}
  {
    assert |s2| == RAM_SIZE;
    hide Dropping;
    forall i ensures ReadsAs(s2, fs.texts - {id}, i) {
      DroppedSlot(s0, s1, s2, fs, id, k, i);
    }
    AllRead(s2, fs.texts - {id});
  }

  lemma DroppedSlot(s0: seq<Byte>, s1: seq<Byte>, s2: seq<Byte>, fs: Fs, id: int, k: nat, i: int)
    requires Dropping(s0, s1, s2, fs, id, k)
    ensures |s2| == RAM_SIZE && ReadsAs(s2, fs.texts - {id}, i)
  {
    if i == id {
      assert TableOf(s2)[i] == InodeAt(s2, i);
    } else {
      if i in fs.texts { KeptText(s0, s1, s2, fs, id, k, i); }
      SameSlot(s0, s2, fs, i);
      hide Dropping, InodeAt;
      ReadsWithout(s2, fs.texts, id, i);
    }
  }

  lemma ReadsWithout(t: seq<Byte>, texts: map<int, Text>, id: int, i: int)
    requires |t| == RAM_SIZE && i != id && ReadsAs(t, texts, i)
    ensures ReadsAs(t, texts - {id}, i)
  {
    hide InodeAt;
    assert i in texts - {id} <==> i in texts;
  }

  lemma KeptText(s0: seq<Byte>, s1: seq<Byte>, s2: seq<Byte>, fs: Fs, id: int, k: nat, i: int)
    requires Dropping(s0, s1, s2, fs, id, k)
    requires i in fs.texts && i != id
    ensures Valid(fs.table, i) && TextAt(s2, fs.table[i].dataOffset) == fs.texts[i]
  {
    var j := TextInBlock(s0, fs, i);
    assert PtrsDiffer(fs.table, fs.texts.Keys) && DataPtr(fs.table, i) != DataPtr(fs.table, id);
    InRegion(fs.chain, k);
    OtherText(s0, s1, fs, i, k);
    TailText(s1, s2, fs.table[i].dataOffset);
  }

  // One free block filled with the text of a file, then changes below the data region that enter it in its inode.
  lemma AddedTexts(s0: seq<Byte>, s2: seq<Byte>, s3: seq<Byte>, fs: Fs, id: int, k: nat, data: Text)
    requires Holding(s0, fs) && id !in fs.texts && Slot(id) && k < |fs.chain| && fs.chain[k].free
    requires AgreeOutside(s0, s2, fs.chain[k].offset, fs.chain[k].End())
    requires Agree(s2, s3, DATA_REGION_OFFSET, RAM_SIZE)
    requires forall i | 0 <= i < MAX_INODES && i != id :: SameData(fs.table[i], TableOf(s3)[i])
    requires TableOf(s3)[id].Stored() && TableOf(s3)[id].dataOffset == fs.chain[k].Payload()
    requires TextAt(s2, fs.chain[k].Payload()) == data
    ensures TextsOf(s3) == fs.texts[id := data]
  {
    assert |s3| == RAM_SIZE && Tiled(fs.chain);
    hide Holding, InodeAt, TextAt, ReadsAs, TextsOf;
    var texts := fs.texts[id := data];
    forall i ensures ReadsAs(s3, texts, i) {
      if i == id {
        InRegion(fs.chain, k);
        NewText(s2, s3, fs.chain[k], texts, id);
      } else {
        AddedSlot(s0, s2, s3, fs, k, i);
        ReadsWith(s3, fs.texts, id, data, i);
      }
    }
    AllRead(s3, texts);
  }

  lemma NewText(s: seq<Byte>, t: seq<Byte>, b: Block, texts: map<int, Text>, id: int)
    requires |s| == RAM_SIZE && Agree(s, t, DATA_REGION_OFFSET, RAM_SIZE)
    requires Slot(id) && TableOf(t)[id].Stored() && TableOf(t)[id].dataOffset == b.Payload()
    requires DATA_REGION_OFFSET <= b.Payload() <= RAM_SIZE && id in texts && TextAt(s, b.Payload()) == texts[id]
    ensures ReadsAs(t, texts, id)
  {
    assert TableOf(t)[id] == InodeAt(t, id);
    hide InodeAt, TextAt, TableOf;
    TailText(s, t, b.Payload());
  }

  lemma ReadsWith(t: seq<Byte>, texts: map<int, Text>, id: int, data: Text, i: int)
    requires |t| == RAM_SIZE && i != id && ReadsAs(t, texts, i)
    ensures ReadsAs(t, texts[id := data], i)
  {
    hide InodeAt, TextAt;
  }

  lemma AddedSlot(s0: seq<Byte>, s2: seq<Byte>, s3: seq<Byte>, fs: Fs, k: nat, i: int)
    requires Holding(s0, fs) && k < |fs.chain| && fs.chain[k].free
    requires AgreeOutside(s0, s2, fs.chain[k].offset, fs.chain[k].End())
    requires Agree(s2, s3, DATA_REGION_OFFSET, RAM_SIZE)
    requires Slot(i) ==> SameData(fs.table[i], TableOf(s3)[i])
    ensures ReadsAs(s3, fs.texts, i)
  {
    if i in fs.texts {
      var j := TextInBlock(s0, fs, i);
      OtherText(s0, s2, fs, i, k);
      TailText(s2, s3, fs.table[i].dataOffset);
    }
    SameSlot(s0, s3, fs, i);
  }
}
