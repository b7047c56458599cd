/** The inode table as it lies in RAM: 128 slots of 128 bytes, decoded into the records of `FileModel`. */
module Inodes {
  import opened Layout
  import opened Bytes
  import opened Blocks
  import opened FileModel

  // Offsets of the fields of struct Inode.
  const F_ID := 0
  const F_NAME := 4
  const F_TYPE := 36
  const F_PARENT := 40
  const F_CHILDREN := 44
  const F_CHILD_COUNT := 108
  const F_DATA_OFFSET := 112
  const F_DATA_SIZE := 116
  const F_ACTIVE := 120

  function Addr(id: int): int { INODE_TABLE_OFFSET + id * INODE_SIZE }

  predicate Slot(id: int) { 0 <= id < MAX_INODES }

  // The offset of an int field; children[j] lies at F_CHILDREN + 4 * j.
  predicate IsField(f: int) {
    || f in {F_ID, F_TYPE, F_PARENT, F_CHILD_COUNT, F_DATA_OFFSET, F_DATA_SIZE, F_ACTIVE}
    || (F_CHILDREN <= f < F_CHILD_COUNT && f % 4 == 0)
  }

  function Field(s: seq<Byte>, id: int, f: int): int
    requires |s| == RAM_SIZE && Slot(id) && 0 <= f <= F_ACTIVE
  {
    IntAt(s, Addr(id) + f)
  }

  // The name field read up to its NUL; 32 characters if it has none.
  function NameOf(s: seq<Byte>, id: int): Text
    requires |s| == RAM_SIZE && Slot(id)
  {
    CStr(s[Addr(id) + F_NAME..Addr(id) + F_TYPE], 0)
  }

  function InodeAt(s: seq<Byte>, id: int): Inode
    requires |s| == RAM_SIZE && Slot(id)
  {
    Inode(
      Field(s, id, F_ID), NameOf(s, id), Field(s, id, F_TYPE), Field(s, id, F_PARENT),
      seq(MAX_CHILDREN, j requires 0 <= j < MAX_CHILDREN => Field(s, id, F_CHILDREN + 4 * j)),
      Field(s, id, F_CHILD_COUNT), Field(s, id, F_DATA_OFFSET), Field(s, id, F_DATA_SIZE),
      Field(s, id, F_ACTIVE) != 0)
  }

  function TableOf(s: seq<Byte>): Table
    requires |s| == RAM_SIZE
  {
    seq(MAX_INODES, i requires 0 <= i < MAX_INODES => InodeAt(s, i))
  }

  function TextAt(s: seq<Byte>, o: int): Text {
    if 0 <= o <= |s| then CStr(s, o) else []
  }

  // What the data block of each file with content holds, read as a C string.
  function TextsOf(s: seq<Byte>): map<int, Text>
    requires |s| == RAM_SIZE
  {
    map i | 0 <= i < MAX_INODES && InodeAt(s, i).Stored() :: TextAt(s, InodeAt(s, i).dataOffset)
  }

  // The file system that RAM holds.
  function Decode(s: seq<Byte>, next: int, c: Chain): Fs
    requires |s| == RAM_SIZE
  {
    Fs(TableOf(s), next, c, TextsOf(s))
  }

  // ---------- what a write changes ----------

  function WithField(n: Inode, f: int, v: int): Inode
    requires IsField(f) && |n.children| == MAX_CHILDREN
  {
    if f == F_ID then n.(id := v)
    else if f == F_TYPE then n.(kind := v)
    else if f == F_PARENT then n.(parent := v)
    else if f == F_CHILD_COUNT then n.(childCount := v)
    else if f == F_DATA_OFFSET then n.(dataOffset := v)
    else if f == F_DATA_SIZE then n.(dataSize := v)
    else if f == F_ACTIVE then n.(active := v != 0)
    else n.(children := n.children[(f - F_CHILDREN) / 4 := v])
  }

  lemma IntFrame(s: seq<Byte>, t: seq<Byte>, o: int)
    requires 0 <= o && o + 4 <= |s| && Agree(s, t, o, o + 4)
    ensures IntAt(t, o) == IntAt(s, o)
  {
  }

  lemma NameFrame(s: seq<Byte>, t: seq<Byte>, id: int)
    requires |s| == RAM_SIZE && Slot(id) && Agree(s, t, Addr(id) + F_NAME, Addr(id) + F_TYPE)
    ensures NameOf(t, id) == NameOf(s, id)
  {
    assert s[Addr(id) + F_NAME..Addr(id) + F_TYPE] == t[Addr(id) + F_NAME..Addr(id) + F_TYPE];
  }

  lemma InodeFrame(s: seq<Byte>, t: seq<Byte>, id: int)
    requires |s| == RAM_SIZE && Slot(id) && Agree(s, t, Addr(id), Addr(id) + INODE_SIZE)
    ensures InodeAt(t, id) == InodeAt(s, id)
  {
    NameFrame(s, t, id);
    forall f | IsField(f) ensures Field(t, id, f) == Field(s, id, f) {
      IntFrame(s, t, Addr(id) + f);
    }
    hide IntAt, CStr;
    assert forall j | 0 <= j < MAX_CHILDREN :: IsField(F_CHILDREN + 4 * j);
    assert InodeAt(t, id).children == InodeAt(s, id).children;
  }

  lemma TableFrame(s: seq<Byte>, t: seq<Byte>)
    requires |s| == RAM_SIZE && Agree(s, t, 0, DATA_REGION_OFFSET)
    ensures TableOf(t) == TableOf(s)
  {
    forall i | 0 <= i < MAX_INODES ensures InodeAt(t, i) == InodeAt(s, i) {
      InodeFrame(s, t, i);
    }
  }

  lemma OtherSlots(s: seq<Byte>, t: seq<Byte>, id: int, i: int)
    requires |s| == RAM_SIZE && Slot(id) && Slot(i) && i != id && AgreeOutside(s, t, Addr(id), Addr(id) + INODE_SIZE)
    ensures InodeAt(t, i) == InodeAt(s, i)
  {
    InodeFrame(s, t, i);
  }

  // Assigning an int field of one inode changes that field of that inode.
  lemma FieldWrite(s: seq<Byte>, t: seq<Byte>, id: int, f: int)
    requires |s| == RAM_SIZE && Slot(id) && IsField(f) && AgreeOutside(s, t, Addr(id) + f, Addr(id) + f + 4)
    ensures TableOf(t) == TableOf(s)[id := WithField(InodeAt(s, id), f, Field(t, id, f))]
  {
    forall i | 0 <= i < MAX_INODES && i != id ensures InodeAt(t, i) == InodeAt(s, i) {
      OtherSlots(s, t, id, i);
    }
    FieldWriteHere(s, t, id, f);
  }

  lemma OtherFields(s: seq<Byte>, t: seq<Byte>, id: int, f: int)
    requires |s| == RAM_SIZE && Slot(id) && IsField(f) && AgreeOutside(s, t, Addr(id) + f, Addr(id) + f + 4)
    ensures forall g | IsField(g) && g != f :: Field(t, id, g) == Field(s, id, g)
    ensures NameOf(t, id) == NameOf(s, id)
  {
    NameFrame(s, t, id);
    forall g | IsField(g) && g != f ensures Field(t, id, g) == Field(s, id, g) {
      IntFrame(s, t, Addr(id) + g);
    }
  }

  lemma OtherChildren(s: seq<Byte>, t: seq<Byte>, id: int, f: int)
    requires |s| == |t| == RAM_SIZE && Slot(id) && IsField(f)
    requires forall g | IsField(g) && g != f :: Field(t, id, g) == Field(s, id, g)
    ensures InodeAt(t, id).children == WithField(InodeAt(s, id), f, Field(t, id, f)).children
  {
    hide IntAt, Field, NameOf;
    var n, n' := WithField(InodeAt(s, id), f, Field(t, id, f)), InodeAt(t, id);
    forall j | 0 <= j < MAX_CHILDREN ensures n.children[j] == n'.children[j] {
      assert IsField(F_CHILDREN + 4 * j);
    }
  }

  lemma FieldWriteHere(s: seq<Byte>, t: seq<Byte>, id: int, f: int)
    requires |s| == RAM_SIZE && Slot(id) && IsField(f) && AgreeOutside(s, t, Addr(id) + f, Addr(id) + f + 4)
    ensures InodeAt(t, id) == WithField(InodeAt(s, id), f, Field(t, id, f))
  {
    OtherFields(s, t, id, f);
    OtherChildren(s, t, id, f);
    hide IntAt, Field, NameOf;
  }

  // Writing into the name field changes nothing but the name.
  lemma NameWrite(s: seq<Byte>, t: seq<Byte>, id: int)
    requires |s| == RAM_SIZE && Slot(id) && AgreeOutside(s, t, Addr(id) + F_NAME, Addr(id) + F_TYPE)
    ensures TableOf(t) == TableOf(s)[id := InodeAt(s, id).(name := NameOf(t, id))]
  {
    forall i | 0 <= i < MAX_INODES && i != id ensures InodeAt(t, i) == InodeAt(s, i) {
      OtherSlots(s, t, id, i);
    }
    forall g | IsField(g) ensures Field(t, id, g) == Field(s, id, g) {
      IntFrame(s, t, Addr(id) + g);
    }
    hide IntAt, CStr;
    assert forall j | 0 <= j < MAX_CHILDREN :: IsField(F_CHILDREN + 4 * j);
    assert InodeAt(t, id).children == InodeAt(s, id).children;
  }

  // A name shorter than its field is a C string in RAM.
  lemma NameReads(s: seq<Byte>, id: int)
    requires |s| == RAM_SIZE && Slot(id) && |NameOf(s, id)| < MAX_NAME_LEN
    ensures Terminated(s, Addr(id) + F_NAME) && CStr(s, Addr(id) + F_NAME) == NameOf(s, id)
  {
    var a, u := Addr(id) + F_NAME, s[Addr(id) + F_NAME..Addr(id) + F_TYPE];
    CStrFacts(u, 0);
    assert IsCStr(s, a, NameOf(s, id)) by {
      forall k | 0 <= k <= |NameOf(s, id)| ensures s[a + k] == u[k] {
      }
      forall k | 0 <= k < |NameOf(s, id)| ensures s[a + k] == NameOf(s, id)[k] != NUL {
        CharAt(u, 0, NameOf(s, id), k);
      }
      CharAt(u, 0, NameOf(s, id), |NameOf(s, id)|);
    }
    CStrIs(s, a, NameOf(s, id));
  }

  lemma NameIs(s: seq<Byte>, id: int, name: Text)
    requires |s| == RAM_SIZE && Slot(id) && |name| < MAX_NAME_LEN && IsCStr(s, Addr(id) + F_NAME, name)
    ensures NameOf(s, id) == name
  {
    var a, u := Addr(id) + F_NAME, s[Addr(id) + F_NAME..Addr(id) + F_TYPE];
    forall k | 0 <= k <= |name| ensures u[0 + k] == (if k < |name| then name[k] else NUL) {
      CharAt(s, a, name, k);
    }
    forall k | 0 <= k < |name| ensures name[k] != NUL {
      CharAt(s, a, name, k);
    }
    CStrIs(u, 0, name);
  }

  // RAM filled with NULs holds blank inodes.
  lemma ZeroIsBlank(s: seq<Byte>, id: int)
    requires |s| == RAM_SIZE && Slot(id) && forall p | Addr(id) <= p < Addr(id) + INODE_SIZE :: s[p] == NUL
    ensures InodeAt(s, id) == Blank
  {
    assert s[Addr(id) + F_NAME..Addr(id) + F_TYPE][0] == NUL;
    assert forall f | IsField(f) :: Field(s, id, f) == 0;
    assert forall j | 0 <= j < MAX_CHILDREN :: IsField(F_CHILDREN + 4 * j);
    assert InodeAt(s, id).children == Blank.children;
  }

  // ---------- stored texts ----------

  // Where a C string starts inside unchanged bytes up to the end of RAM, it reads the same.
  lemma {:induction false} TailText(s: seq<Byte>, t: seq<Byte>, o: int)
    requires 0 <= o <= |s| && Agree(s, t, o, |s|)
    ensures CStr(t, o) == CStr(s, o)
    decreases |s| - o
  {
    if o < |s| {
      TailText(s, t, o + 1);
    }
  }
}
