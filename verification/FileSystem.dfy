/** core/fs.c over the bytes of RAM. Each method is proved to have the effect `FileModel` gives it. */
module FileSystem {
  import opened Layout
  import opened Bytes
  import opened Blocks
  import opened AllocatorLaws
  import opened Memory
  import opened StringLib
  import opened FileModel
  import opened TreeLaws
  import opened OwnershipLaws
  import opened FileRuns
  import opened PathLaws
  import opened Inodes
  import opened StoredTexts

  predicate Int32(v: int) { MIN_INT <= v <= MAX_INT }

  // A change inside one inode slot leaves the other inodes, the chain and the data region alone.
  lemma SlotWrite(s: seq<Byte>, t: seq<Byte>, id: int, c: Chain)
    requires |s| == RAM_SIZE && Slot(id) && AgreeOutside(s, t, Addr(id), Addr(id) + INODE_SIZE)
    ensures TableOf(t) == TableOf(s)[id := InodeAt(t, id)]
    ensures Agree(s, t, PROCESS_TABLE_OFFSET, RAM_SIZE)
    ensures Describes(s, c) ==> Describes(t, c)
  {
    forall i | 0 <= i < MAX_INODES && i != id ensures InodeAt(t, i) == InodeAt(s, i) {
      OtherSlots(s, t, id, i);
    }
    if Describes(s, c) { DescribesFrame(s, t, c); }
  }

  lemma AgreeSame(s: seq<Byte>, lo: int, hi: int)
    ensures AgreeOutside(s, s, lo, hi)
  {
  }

  class FileSystem {
    const mem: VirtualRam
    var nextInodeId: int

    constructor (mem: VirtualRam)
      ensures this.mem == mem && nextInodeId == 0
    {
      this.mem := mem;
      nextInodeId := 0;
    }

    ghost function State(): Fs
      requires mem.ram.Length == RAM_SIZE
      reads this, mem, mem.ram
    {
      Decode(mem.ram[..], nextInodeId, mem.chain)
    }

    ghost predicate Valid()
      reads this, mem, mem.ram
    {
      mem.Valid() && Inv(State())
    }

    function GetField(id: int, f: int): int
      requires mem.ram.Length == RAM_SIZE && Slot(id) && 0 <= f <= F_ACTIVE
      reads mem.ram
    {
      Field(mem.ram[..], id, f)
    }

    // inode->field = v, as one of several writes to the same inode since RAM held s.
    method PutField(id: int, f: int, v: int, ghost s: seq<Byte>)
      requires mem.Valid() && Slot(id) && IsField(f) && Int32(v)
      requires AgreeOutside(s, mem.ram[..], Addr(id), Addr(id) + INODE_SIZE)
      modifies mem.ram
      ensures mem.Valid()
      ensures InodeAt(mem.ram[..], id) == WithField(InodeAt(old(mem.ram[..]), id), f, v)
      ensures AgreeOutside(s, mem.ram[..], Addr(id), Addr(id) + INODE_SIZE)
    {
      ghost var s1 := mem.ram[..];
      PutInt(mem.ram, Addr(id) + f, v);
      hide IntAt, CStr, InodeAt, Describes;
      FieldWriteHere(s1, mem.ram[..], id, f);
      SlotWrite(s1, mem.ram[..], id, mem.chain);
    }

    // my_strcpy(inode->name, name)
    method PutName(id: int, name: Text, ghost s: seq<Byte>)
      requires mem.Valid() && Slot(id) && |name| < MAX_NAME_LEN && NUL !in name
      requires AgreeOutside(s, mem.ram[..], Addr(id), Addr(id) + INODE_SIZE)
      modifies mem.ram
      ensures mem.Valid()
      ensures InodeAt(mem.ram[..], id) == InodeAt(old(mem.ram[..]), id).(name := name)
      ensures AgreeOutside(s, mem.ram[..], Addr(id), Addr(id) + INODE_SIZE)
    {
      hide IntAt, CStr, Describes;
      ghost var s1 := mem.ram[..];
      CStrLit(name);
      StrCpy(mem.ram, Addr(id) + F_NAME, Lit(name), 0);
      CStrFacts(mem.ram[..], Addr(id) + F_NAME);
      NameIs(mem.ram[..], id, name);
      NameWrite(s1, mem.ram[..], id);
      assert TableOf(mem.ram[..])[id] == InodeAt(mem.ram[..], id);
      SlotWrite(s1, mem.ram[..], id, mem.chain);
    }

    method CreateInode(name: Text, kind: int, parent: int) returns (id: int)
      requires mem.Valid() && 0 <= nextInodeId <= MAX_INODES
      requires GoodName(name) && Int32(kind) && Int32(parent)
      modifies this, mem.ram
      ensures mem.Valid()
      ensures if old(nextInodeId) >= MAX_INODES
              then id == -1 && nextInodeId == old(nextInodeId) && mem.ram[..] == old(mem.ram[..])
              else id == old(nextInodeId) && nextInodeId == id + 1
                   && TableOf(mem.ram[..]) == TableOf(old(mem.ram[..]))[id := NewInode(id, name, kind, parent)]
                   && Agree(old(mem.ram[..]), mem.ram[..], PROCESS_TABLE_OFFSET, RAM_SIZE)
    {
      if nextInodeId >= MAX_INODES {
        return -1;
      }
      hide InodeAt, Describes, AgreeOutside, TableOf;
      ghost var s := mem.ram[..];
      id := nextInodeId;
      nextInodeId := nextInodeId + 1;
      FillInode(id, name, kind, parent);
      SlotWrite(s, mem.ram[..], id, mem.chain);
    }

    // The assignments of create_inode, whatever the slot held before.
    method FillInode(id: int, name: Text, kind: int, parent: int)
      requires mem.Valid() && Slot(id) && GoodName(name) && Int32(kind) && Int32(parent)
      modifies mem.ram
      ensures mem.Valid()
      ensures InodeAt(mem.ram[..], id) == NewInode(id, name, kind, parent)
      ensures AgreeOutside(old(mem.ram[..]), mem.ram[..], Addr(id), Addr(id) + INODE_SIZE)
    {
      hide InodeAt, Describes, AgreeOutside, TableOf;
      ghost var s := mem.ram[..];
      AgreeSame(s, Addr(id), Addr(id) + INODE_SIZE);
      ChildrenLength(s, id);
      PutField(id, F_ID, id, s);
      PutName(id, name, s);
      PutField(id, F_TYPE, kind, s);
      PutField(id, F_PARENT, parent, s);
      PutField(id, F_CHILD_COUNT, 0, s);
      PutField(id, F_DATA_OFFSET, -1, s);
      PutField(id, F_DATA_SIZE, 0, s);
      PutField(id, F_ACTIVE, 1, s);
      ClearChildren(id, s);
    }

    // The loop of create_inode: every child slot becomes -1.
    method ClearChildren(id: int, ghost s: seq<Byte>)
      requires mem.Valid() && Slot(id)
      requires AgreeOutside(s, mem.ram[..], Addr(id), Addr(id) + INODE_SIZE)
      modifies mem.ram
      ensures mem.Valid()
      ensures InodeAt(mem.ram[..], id) == InodeAt(old(mem.ram[..]), id).(children := seq(MAX_CHILDREN, _ => -1))
      ensures AgreeOutside(s, mem.ram[..], Addr(id), Addr(id) + INODE_SIZE)
    {
      hide InodeAt, Describes, AgreeOutside;
      ghost var n := InodeAt(mem.ram[..], id);
      ChildrenLength(mem.ram[..], id);
      var i := 0;
      while i < MAX_CHILDREN
        invariant 0 <= i <= MAX_CHILDREN && mem.Valid()
        invariant AgreeOutside(s, mem.ram[..], Addr(id), Addr(id) + INODE_SIZE)
        invariant InodeAt(mem.ram[..], id) == n.(children := InodeAt(mem.ram[..], id).children)
        invariant |InodeAt(mem.ram[..], id).children| == MAX_CHILDREN
        invariant forall j | 0 <= j < i :: InodeAt(mem.ram[..], id).children[j] == -1
      {
        PutField(id, F_CHILDREN + 4 * i, -1, s);
        i := i + 1;
      }
      assert InodeAt(mem.ram[..], id).children == seq(MAX_CHILDREN, _ => -1);
    }

    // ---------- fs_init ----------

    method Init()
      requires mem.Valid() && mem.chain == InitialChain
      requires forall p | 0 <= p < DATA_REGION_OFFSET :: mem.ram[p] == NUL
      modifies this, mem.ram
      ensures Valid() && State() == Boot
    {
      hide IntAt, CStr, InodeAt, Describes, TableOf;
      nextInodeId := 0;
      ZeroTable(mem.ram[..]);
      CreateDefaults();
      WireRoot();
      WireHome();
      WiredIsBoot(TableOf(mem.ram[..]));
      NoTexts(mem.ram[..]);
      BootInv();
    }

    method CreateDefaults()
      requires mem.Valid() && nextInodeId == 0 && TableOf(mem.ram[..]) == BlankTable
      modifies this, mem.ram
      ensures mem.Valid() && nextInodeId == 6 && TableOf(mem.ram[..]) == FreshDirs
    {
      hide IntAt, CStr, InodeAt, Describes, TableOf, NewInode;
      var rootId := CreateInode("/", INODE_DIR, -1);
      var binId := CreateInode("bin", INODE_DIR, rootId);
      var homeId := CreateInode("home", INODE_DIR, rootId);
      var userId := CreateInode(CURRENT_USER, INODE_DIR, homeId);
      var tmpId := CreateInode("tmp", INODE_DIR, rootId);
      var sysId := CreateInode("sys", INODE_DIR, rootId);
    }

    method WireRoot()
      requires mem.Valid() && TableOf(mem.ram[..]) == FreshDirs
      modifies mem.ram
      ensures mem.Valid() && TableOf(mem.ram[..]) == WithRoot
    {
      hide InodeAt, Describes, AgreeOutside, TableOf;
      ghost var s := mem.ram[..];
      AgreeSame(s, Addr(0), Addr(0) + INODE_SIZE);
      RowOf(s, 0);
      PutField(0, F_CHILDREN, 1, s);
      PutField(0, F_CHILDREN + 4, 2, s);
      PutField(0, F_CHILDREN + 8, 4, s);
      PutField(0, F_CHILDREN + 12, 5, s);
      PutField(0, F_CHILD_COUNT, 4, s);
      SlotWrite(s, mem.ram[..], 0, mem.chain);
    }

    method WireHome()
      requires mem.Valid() && TableOf(mem.ram[..]) == WithRoot
      modifies mem.ram
      ensures mem.Valid() && TableOf(mem.ram[..]) == WithHome
    {
      hide InodeAt, Describes, AgreeOutside, TableOf;
      ghost var s := mem.ram[..];
      AgreeSame(s, Addr(2), Addr(2) + INODE_SIZE);
      RowOf(s, 2);
      PutField(2, F_CHILDREN, 3, s);
      PutField(2, F_CHILD_COUNT, 1, s);
      SlotWrite(s, mem.ram[..], 2, mem.chain);
    }

    // ---------- fs_find_child ----------

    method FindChild(parentId: int, name: Text) returns (child: int)
      requires Valid() && NUL !in name
      ensures child == Lookup(State().table, parentId, name)
    {
      hide IntAt, CStr, Describes, Inv, Field, InodeAt, TableOf, TextsOf;
      ghost var t := State().table;
      InvParts(State());
      if Slot(parentId) { RowOf(mem.ram[..], parentId); FieldsOf(mem.ram[..], parentId); }
      if !Slot(parentId) || GetField(parentId, F_TYPE) != INODE_DIR {
        return -1;
      }
      ghost var kids := t[parentId].Kids();
      ShapeOf(t, nextInodeId, parentId);
      assert |kids| == GetField(parentId, F_CHILD_COUNT) && kids[0..] == kids;
      hide Tree, Shape;
      var i := 0;
      while i < GetField(parentId, F_CHILD_COUNT)
        invariant 0 <= i <= |kids|
        invariant FirstNamed(t, kids, name) == FirstNamed(t, kids[i..], name)
        decreases |kids| - i
      {
        assert kids[i..][1..] == kids[i + 1..];
        child := GetField(parentId, F_CHILDREN + 4 * i);
        var found := IsNamed(child, name);
        if found {
          return;
        }
        i := i + 1;
      }
      child := -1;
    }

    // The test of that loop: an active inode of this name.
    method IsNamed(id: int, name: Text) returns (yes: bool)
      requires Valid() && NUL !in name
      ensures var t := State().table;
              yes <==> FileModel.Valid(t, id) && t[id].active && t[id].name == name
    {
      hide IntAt, CStr, Describes, Inv, Field, InodeAt, TableOf, TextsOf;
      ghost var t := State().table;
      InvParts(State());
      if !Slot(id) {
        return false;
      }
      RowOf(mem.ram[..], id);
      FieldsOf(mem.ram[..], id);
      if GetField(id, F_ACTIVE) == 0 {
        return false;
      }
      ShapeOf(t, nextInodeId, id);
      hide Tree;
      CStrLit(name);
      NameReads(mem.ram[..], id);
      var r := StrCmp(mem.ram[..], Addr(id) + F_NAME, Lit(name), 0);
      yes := r == 0;
    }

    // ---------- fs_create ----------

    method Create(parentId: int, name: Text, kind: int) returns (newId: int)
      requires Valid() && GoodName(name) && kind in {INODE_FILE, INODE_DIR}
      modifies this, mem.ram
      ensures Valid()
      ensures (State(), newId) == FileModel.Create(old(State()), parentId, name, kind)
      ensures Agree(old(mem.ram[..]), mem.ram[..], PROCESS_TABLE_OFFSET, DATA_REGION_OFFSET)
    {
      hide IntAt, CStr, Describes, Field, Inv, TableOf, TextsOf;
      ghost var fs, s := State(), mem.ram[..];
      InvParts(fs);
      HoldingState();
      if Slot(parentId) { RowOf(s, parentId); }
      if !Slot(parentId) || GetField(parentId, F_TYPE) != INODE_DIR {
        return -1;
      }
      if GetField(parentId, F_CHILD_COUNT) >= MAX_CHILDREN {
        return -1;
      }
      var existing := FindChild(parentId, name);
      if existing != -1 {
        return -1;
      }
      newId := CreateInode(name, kind, parentId);
      if newId == -1 {
        return;
      }
      ParentAfter(fs, mem.ram[..], parentId, name, kind);
      AddChild(parentId, newId);
      CreatedTexts(s, mem.ram[..], fs, parentId, name, kind);
      StepInv(fs, Mk(parentId, name, kind));
    }

    // The end of fs_create: the new id becomes the last child.
    method AddChild(parentId: int, newId: int)
      requires mem.Valid() && Slot(parentId) && Slot(newId)
      requires 0 <= InodeAt(mem.ram[..], parentId).childCount < MAX_CHILDREN
      modifies mem.ram
      ensures mem.Valid()
      ensures var t := old(TableOf(mem.ram[..]));
              TableOf(mem.ram[..]) == t[parentId := WithChild(t[parentId], newId)]
      ensures Agree(old(mem.ram[..]), mem.ram[..], PROCESS_TABLE_OFFSET, RAM_SIZE)
    {
      hide Describes, AgreeOutside, TableOf, IntAt, Field;
      ghost var s := mem.ram[..];
      AgreeSame(s, Addr(parentId), Addr(parentId) + INODE_SIZE);
      RowOf(s, parentId);
      var count := GetField(parentId, F_CHILD_COUNT);
      PutField(parentId, F_CHILDREN + 4 * count, newId, s);
      PutField(parentId, F_CHILD_COUNT, count + 1, s);
      SlotWrite(s, mem.ram[..], parentId, mem.chain);
    }

    lemma HoldingState()
      requires Valid()
      ensures Holding(mem.ram[..], State())
    {
    }

    // ---------- fs_delete ----------

    method Delete(id: int) returns (r: int)
      requires Valid()
      modifies this, mem, mem.ram
      ensures Valid()
      ensures (State(), r) == FileModel.Delete(old(State()), id)
      ensures Agree(old(mem.ram[..]), mem.ram[..], PROCESS_TABLE_OFFSET, DATA_REGION_OFFSET)
    {
      hide IntAt, CStr, Describes, Field, Inv, TableOf, TextsOf;
      ghost var fs, s := State(), mem.ram[..];
      InvParts(fs);
      HoldingState();
      if Slot(id) { RowOf(s, id); }
      if !Slot(id) || GetField(id, F_ACTIVE) == 0 {
        return -1;
      }
      if id == 0 {
        return -1;
      }
      if GetField(id, F_TYPE) == INODE_DIR && GetField(id, F_CHILD_COUNT) > 0 {
        return -1;
      }
      FreeData(id, fs);
      ghost var s1 := mem.ram[..];
      Unlink(id, fs);
      DeletedTexts(s, s1, mem.ram[..], fs, id);
      StepInv(fs, Rm(id));
      r := 0;
    }

    // Passes the data block of an inode to dealloc, if it has one. The inode still points to it.
    method FreeData(id: int, ghost fs: Fs)
      requires Valid() && fs == State() && Slot(id) && fs.table[id].active
      modifies mem, mem.ram
      ensures mem.Valid() && mem.chain == Dropped(fs, id).chain
      ensures Agree(old(mem.ram[..]), mem.ram[..], 0, DATA_REGION_OFFSET)
      ensures TableOf(mem.ram[..]) == fs.table
      ensures Freed(old(mem.ram[..]), mem.ram[..], fs, id)
    {
      hide IntAt, CStr, Describes, Field, TextsOf;
      ghost var s := mem.ram[..];
      RowOf(s, id);
      FieldsOf(s, id);
      hide Releasing, Inv, InodeAt, TableOf, Live;
      if GetField(id, F_DATA_OFFSET) != -1 {
        StoredIsLive(fs, id);
        mem.Dealloc(GetField(id, F_DATA_OFFSET));
        ReleasedIsFreed(s, mem.ram[..], fs, id);
      }
      TableFrame(s, mem.ram[..]);
    }

    // Takes id out of its parent and marks it deleted.
    method Unlink(id: int, ghost fs: Fs)
      requires mem.Valid() && Tree(fs.table, fs.next) && CanDelete(fs, id) && TableOf(mem.ram[..]) == fs.table
      modifies mem.ram
      ensures mem.Valid() && TableOf(mem.ram[..]) == Unlinked(fs.table, id)
      ensures Agree(old(mem.ram[..]), mem.ram[..], PROCESS_TABLE_OFFSET, RAM_SIZE)
    {
      hide IntAt, CStr, Describes, Field, TableOf, InodeAt, WithoutChild, Tree, Shape, AgreeOutside;
      ghost var s := mem.ram[..];
      DeleteParent(fs, id);
      RowOf(s, id);
      FieldsOf(s, id);
      var parentId := GetField(id, F_PARENT);
      if Slot(parentId) {
        RowOf(s, parentId);
        RemoveChild(parentId, id);
      }
      ghost var s1 := mem.ram[..];
      RowOf(s1, id);
      AgreeSame(s1, Addr(id), Addr(id) + INODE_SIZE);
      PutField(id, F_ACTIVE, 0, s1);
      ClearName(id, s1);
      PutField(id, F_DATA_OFFSET, -1, s1);
      PutField(id, F_DATA_SIZE, 0, s1);
      SlotWrite(s1, mem.ram[..], id, mem.chain);
    }

    // inode->name[0] = '\0'
    method ClearName(id: int, ghost s: seq<Byte>)
      requires mem.Valid() && Slot(id)
      requires AgreeOutside(s, mem.ram[..], Addr(id), Addr(id) + INODE_SIZE)
      modifies mem.ram
      ensures mem.Valid()
      ensures InodeAt(mem.ram[..], id) == InodeAt(old(mem.ram[..]), id).(name := [])
      ensures AgreeOutside(s, mem.ram[..], Addr(id), Addr(id) + INODE_SIZE)
    {
      hide IntAt, Describes;
      ghost var s1 := mem.ram[..];
      mem.ram[Addr(id) + F_NAME] := NUL;
      NameIs(mem.ram[..], id, []);
      NameWrite(s1, mem.ram[..], id);
      assert TableOf(mem.ram[..])[id] == InodeAt(mem.ram[..], id);
      SlotWrite(s1, mem.ram[..], id, mem.chain);
    }

    // The loop of fs_delete: children after the removed one move down, the last slot is cleared.
    method RemoveChild(parentId: int, id: int)
      requires mem.Valid() && Slot(parentId) && Shape(InodeAt(mem.ram[..], parentId)) && Slot(id)
      modifies mem.ram
      ensures mem.Valid()
      ensures var t := old(TableOf(mem.ram[..]));
              TableOf(mem.ram[..]) == t[parentId := WithoutChild(t[parentId], id)]
      ensures Agree(old(mem.ram[..]), mem.ram[..], PROCESS_TABLE_OFFSET, RAM_SIZE)
    {
      hide Describes, AgreeOutside, TableOf, IntAt, Field, InodeAt, IndexOf, WithoutChild;
      ghost var s, n := mem.ram[..], InodeAt(mem.ram[..], parentId);
      AgreeSame(s, Addr(parentId), Addr(parentId) + INODE_SIZE);
      RowOf(s, parentId);
      var found := ShiftChildren(parentId, id, s);
      if found {
        ghost var n1 := InodeAt(mem.ram[..], parentId);
        FieldsOf(mem.ram[..], parentId);
        CutIsWithout(n, n1, id);
        hide Shape;
        var count := GetField(parentId, F_CHILD_COUNT) - 1;
        PutField(parentId, F_CHILD_COUNT, count, s);
        PutField(parentId, F_CHILDREN + 4 * count, -1, s);
      } else {
        Untouched(n, id);
      }
      SlotWrite(s, mem.ram[..], parentId, mem.chain);
    }

    method ShiftChildren(parentId: int, id: int, ghost s: seq<Byte>) returns (found: bool)
      requires mem.Valid() && Slot(parentId) && Shape(InodeAt(mem.ram[..], parentId)) && Slot(id)
      requires AgreeOutside(s, mem.ram[..], Addr(parentId), Addr(parentId) + INODE_SIZE)
      modifies mem.ram
      ensures mem.Valid() && AgreeOutside(s, mem.ram[..], Addr(parentId), Addr(parentId) + INODE_SIZE)
      ensures var n := old(InodeAt(mem.ram[..], parentId));
              var k := IndexOf(n.Kids(), id);
              && (found <==> id in n.Kids())
              && InodeAt(mem.ram[..], parentId)
                 == if !found then n else n.(children := Closed(n, k))
    {
      hide Describes, AgreeOutside, TableOf, IntAt, Field, InodeAt;
      ghost var n := InodeAt(mem.ram[..], parentId);
      ghost var k := IndexOf(n.Kids(), id);
      found := false;
      var i := 0;
      FieldsOf(mem.ram[..], parentId);
      while i < GetField(parentId, F_CHILD_COUNT)
        invariant 0 <= i <= n.childCount && mem.Valid()
        invariant GetField(parentId, F_CHILD_COUNT) == n.childCount
        invariant AgreeOutside(s, mem.ram[..], Addr(parentId), Addr(parentId) + INODE_SIZE)
        invariant found <==> k < i
        invariant Shifting(n, InodeAt(mem.ram[..], parentId), k, i)
        decreases n.childCount - i
      {
        found := ShiftTurn(parentId, id, i, found, n, s);
        i := i + 1;
      }
      ShiftedAll(n, InodeAt(mem.ram[..], parentId), k);
    }

    // One turn of that loop.
    method ShiftTurn(parentId: int, id: int, i: int, found0: bool, ghost n: Inode, ghost s: seq<Byte>)
      returns (found: bool)
      requires mem.Valid() && Slot(parentId) && Shape(n) && Slot(id) && 0 <= i < n.childCount
      requires AgreeOutside(s, mem.ram[..], Addr(parentId), Addr(parentId) + INODE_SIZE)
      requires found0 <==> IndexOf(n.Kids(), id) < i
      requires Shifting(n, InodeAt(mem.ram[..], parentId), IndexOf(n.Kids(), id), i)
      modifies mem.ram
      ensures mem.Valid() && AgreeOutside(s, mem.ram[..], Addr(parentId), Addr(parentId) + INODE_SIZE)
      ensures found <==> IndexOf(n.Kids(), id) < i + 1
      ensures Shifting(n, InodeAt(mem.ram[..], parentId), IndexOf(n.Kids(), id), i + 1)
      ensures GetField(parentId, F_CHILD_COUNT) == n.childCount
    {
      hide Describes, AgreeOutside, TableOf, IntAt, Field, InodeAt, Shape, Shifting, IndexOf;
      ghost var n1 := InodeAt(mem.ram[..], parentId);
      FieldsOf(mem.ram[..], parentId);
      KidAt(n, id, i);
      ShiftStep(n, n1, IndexOf(n.Kids(), id), i);
      found := found0;
      if GetField(parentId, F_CHILDREN + 4 * i) == id {
        found := true;
      }
      if found && i < GetField(parentId, F_CHILD_COUNT) - 1 {
        FieldRange(mem.ram[..], parentId, F_CHILDREN + 4 * (i + 1));
        PutField(parentId, F_CHILDREN + 4 * i, GetField(parentId, F_CHILDREN + 4 * (i + 1)), s);
        FieldsOf(mem.ram[..], parentId);
      }
    }

    // ---------- fs_write ----------

    method Write(id: int, data: Text) returns (r: int)
      requires Valid() && NUL !in data && |data| < MAX_INT
      modifies this, mem, mem.ram
      ensures Valid()
      ensures (State(), r) == FileModel.Write(old(State()), id, data)
      ensures Agree(old(mem.ram[..]), mem.ram[..], PROCESS_TABLE_OFFSET, DATA_REGION_OFFSET)
    {
      hide IntAt, CStr, Describes, Field, Inv, TableOf, TextsOf;
      ghost var fs, s := State(), mem.ram[..];
      InvParts(fs);
      if Slot(id) { RowOf(s, id); }
      if !Slot(id) || GetField(id, F_ACTIVE) == 0 {
        return -1;
      }
      if GetField(id, F_TYPE) != INODE_FILE {
        return -1;
      }
      DropData(id, fs);
      DroppedCanStore(fs, id);
      r := StoreData(id, data, Dropped(fs, id));
      StepInv(fs, Put(id, data));
    }

    // Gives back the old content of a file, if there is any, and forgets it.
    method DropData(id: int, ghost fs: Fs)
      requires Valid() && fs == State() && Slot(id) && fs.table[id].active
      modifies mem, mem.ram
      ensures mem.Valid() && State() == Dropped(fs, id)
      ensures Agree(old(mem.ram[..]), mem.ram[..], PROCESS_TABLE_OFFSET, DATA_REGION_OFFSET)
    {
      hide IntAt, CStr, Describes, Field, Inv, TableOf, TextsOf, InodeAt, Freed, Holding, Owns, Tree, AfterDealloc;
      ghost var s := mem.ram[..];
      HoldingState();
      RowOf(s, id);
      FieldsOf(s, id);
      if GetField(id, F_DATA_OFFSET) != -1 {
        FreeData(id, fs);
        ghost var s1 := mem.ram[..];
        RowOf(s1, id);
        AgreeSame(s1, Addr(id), Addr(id) + INODE_SIZE);
        PutField(id, F_DATA_OFFSET, -1, s1);
        PutField(id, F_DATA_SIZE, 0, s1);
        SlotWrite(s1, mem.ram[..], id, mem.chain);
        InvParts(fs);
        ForgottenTexts(s, s1, mem.ram[..], fs, id);
      }
    }

    // The rest of fs_write, once the file holds no content.
    method StoreData(id: int, data: Text, ghost fs: Fs) returns (r: int)
      requires mem.Valid() && fs == State() && Owns(fs) && |fs.table| == MAX_INODES
      requires CanWrite(fs, id) && id !in fs.texts && NUL !in data && |data| < MAX_INT
      modifies mem, mem.ram
      ensures mem.Valid()
      ensures if AllocResult(fs.chain, |data| + 1) == NULL then r == -1 && State() == fs
              else r == 0 && State() == Stored(fs, id, data)
      ensures Agree(old(mem.ram[..]), mem.ram[..], PROCESS_TABLE_OFFSET, DATA_REGION_OFFSET)
    {
      hide IntAt, CStr, Describes, Field, TableOf, TextsOf, InodeAt, AllocResult, AfterAlloc, Tiled;
      ghost var s := mem.ram[..];
      CStrLit(data);
      var len := StrLen(Lit(data), 0);
      len := len + 1;
      var block := AllocAndCopy(len, data, fs);
      if block == NULL {
        return -1;
      }
      ghost var s2 := mem.ram[..];
      RowOf(s2, id);
      AgreeSame(s2, Addr(id), Addr(id) + INODE_SIZE);
      PutField(id, F_DATA_OFFSET, block, s2);
      PutField(id, F_DATA_SIZE, len, s2);
      SlotWrite(s2, mem.ram[..], id, mem.chain);
      StoredTextsAre(s, s2, mem.ram[..], fs, id, data);
      r := 0;
    }

    // alloc(len) and, if it succeeds, my_strcpy(block, data).
    method AllocAndCopy(len: int, data: Text, ghost fs: Fs) returns (block: int)
      requires mem.Valid() && fs == State() && Owns(fs)
      requires NUL !in data && len == |data| + 1 <= MAX_INT
      modifies mem, mem.ram
      ensures mem.Valid() && block == AllocResult(fs.chain, len) && mem.chain == AfterAlloc(fs.chain, len) && Int32(block)
      ensures block == NULL ==> State() == fs
      ensures block != NULL ==> Copied(old(mem.ram[..]), mem.ram[..], fs.chain, data)
      ensures Agree(old(mem.ram[..]), mem.ram[..], 0, DATA_REGION_OFFSET)
      ensures TableOf(mem.ram[..]) == fs.table
    {
      hide IntAt, CStr, Describes, Field, TextsOf, InodeAt, TableOf;
      ghost var s, k := mem.ram[..], FirstFit(fs.chain, len);
      AllocComplete(fs.chain, len);
      block := mem.Alloc(len);
      if block == NULL {
        return;
      }
      ghost var s1 := mem.ram[..];
      GrantBounds(s, s1, fs.chain, len);
      CStrLit(data);
      StrCpy(mem.ram, block, Lit(data), 0);
      hide Granting, Tiled, AllocResult, AfterAlloc;
      PayloadFrame(s1, mem.ram[..], mem.chain, k);
      TableFrame(s, mem.ram[..]);
    }

    // ---------- fs_read ----------

    // The caller's buffer has room for the text and its NUL.
    method Read(id: int, buf: array<Byte>) returns (r: int)
      requires Valid() && buf != mem.ram && buf.Length > 0
      requires id in State().texts ==> |State().texts[id]| < buf.Length
      modifies buf
      ensures r == FileModel.Read(State(), id).0
      ensures r != -1 ==> CStr(buf[..], 0) == FileModel.Read(State(), id).1
    {
      hide IntAt, CStr, Describes, Field, Inv, TableOf, TextsOf, InodeAt;
      ghost var fs, s := State(), mem.ram[..];
      InvParts(fs);
      HoldingState();
      if Slot(id) { RowOf(s, id); FieldsOf(s, id); }
      if !Slot(id) || GetField(id, F_ACTIVE) == 0 {
        return -1;
      }
      if GetField(id, F_TYPE) != INODE_FILE {
        return -1;
      }
      if GetField(id, F_DATA_OFFSET) == -1 {
        buf[0] := NUL;
        CStrIs(buf[..], 0, []);
        return 0;
      }
      assert Holds(fs, id);
      ghost var j := TextInBlock(s, fs, id);
      var offset := GetField(id, F_DATA_OFFSET);
      if !InBounds(offset, DATA_REGION_OFFSET, RAM_SIZE - 1) {
        return -1;
      }
      StrCpy(buf, 0, mem.ram[..], offset);
      r := GetField(id, F_DATA_SIZE);
    }

    // ---------- runs ----------

    method Perform(op: Op) returns (r: int)
      requires Valid() && GoodOp(op) && Storable(op)
      modifies this, mem, mem.ram
      ensures Valid() && (State(), r) == Apply(old(State()), op)
    {
      hide Inv, Describes, TableOf, TextsOf, FileModel.Create, FileModel.Delete, FileModel.Write;
      match op {
        case Mk(parent, name, kind) => r := Create(parent, name, kind);
        case Rm(id) => r := Delete(id);
        case Put(id, data) => r := Write(id, data);
      }
    }

    // Any calls of fs_create, fs_delete and fs_write, one after the other.
    method Replay(ops: seq<Op>) returns (results: seq<int>)
      requires Valid() && GoodRun(ops) && forall i | 0 <= i < |ops| :: Storable(ops[i])
      modifies this, mem, mem.ram
      ensures Valid() && (State(), results) == Run(old(State()), ops)
    {
      hide Inv, Describes, Decode, Apply;
      ghost var start := State();
      results := [];
      var i := 0;
      assert ops[..0] == [];
      while i < |ops|
        invariant 0 <= i <= |ops| && Valid()
        invariant (State(), results) == Run(start, ops[..i])
      {
        assert ops[..i + 1][..i] == ops[..i];
        var r := Perform(ops[i]);
        results := results + [r];
        i := i + 1;
      }
      assert ops[..i] == ops;
    }

    // Boots, makes the calls and reads a file: the buffer holds the last text written to it.
    method BootReplayRead(ops: seq<Op>, id: int, buf: array<Byte>) returns (results: seq<int>, r: int)
      requires mem.ram.Length == RAM_SIZE && buf != mem.ram && buf.Length > 0
      requires GoodRun(ops) && forall i | 0 <= i < |ops| :: Storable(ops[i])
      requires forall i | 0 <= i < |ops| && ops[i].Put? :: |ops[i].data| < buf.Length
      modifies this, mem, mem.ram, buf
      ensures Valid() && (State(), results) == Run(Boot, ops)
      ensures if CanWrite(State(), id)
              then (r, CStr(buf[..], 0)) == ReadOf(LastText(Nothing, ops, results, id))
              else r == -1
    {
      hide Inv, Describes, Decode, TableOf, TextsOf, Run, CanWrite, CStr, GoodRun, LastText;
      mem.Init();
      Init();
      results := Replay(ops);
      ReadIsLastWrite(ops, id);
      ContentFits(ops, id, buf.Length);
      r := Read(id, buf);
    }

    // ---------- fs_get_path ----------

    // The caller's buffer has room for the path.
    method GetPath(id: int, buf: array<Byte>)
      requires Valid() && buf != mem.ram && buf.Length > 1
      requires Slot(id) ==> |Path(State().table, id)| < buf.Length
      modifies buf
      ensures CStr(buf[..], 0) == if Slot(id) then Path(State().table, id) else "/"
    {
      hide IntAt, CStr, Describes, Field, Inv, TextsOf, TableOf, InodeAt, Path, Built, Ancestors, Tree, Owns;
      ghost var t := State().table;
      InvParts(State());
      Upward(t, nextInodeId);
      var stack := new int[MAX_INODES];
      var depth := Climb(id, stack, t);
      buf[0] := NUL;
      CStrIs(buf[..], 0, []);
      if depth == 0 {
        CStrLit("/");
        StrCpy(buf, 0, Lit("/"), 0);
        return;
      }
      ghost var up := Ancestors(t, id);
      PathIsJoin(t, id);
      BuiltFits(t, id, depth - 1);
      NothingBuilt(t, up);
      var i := depth - 1;
      while i >= 0
        invariant -1 <= i < depth == |up|
        invariant Terminated(buf[..], 0) && CStr(buf[..], 0) == Built(t, up, i)
        invariant forall j | 0 <= j < depth :: stack[j] == up[j]
      {
        AppendName(stack[i], i, buf, t, id);
        i := i - 1;
      }
      var len := StrLen(buf[..], 0);
      if len == 0 {
        // A path is never empty: the root has put its slash.
        assert false;
      }
    }

    // The walk up to the root. It takes at most id + 1 steps, so the stack of 128 entries suffices.
    method Climb(id: int, stack: array<int>, ghost t: Table) returns (depth: int)
      requires Valid() && t == State().table && stack.Length == MAX_INODES
      modifies stack
      ensures depth == if Slot(id) then |Ancestors(t, id)| else 0
      ensures Slot(id) ==> 0 < depth <= id + 1 && forall j | 0 <= j < depth :: stack[j] == Ancestors(t, id)[j]
    {
      hide IntAt, CStr, Describes, Field, Inv, TextsOf, TableOf, InodeAt, Ancestors;
      InvParts(State());
      depth := 0;
      var current := id;
      if !Slot(id) {
        return;
      }
      AncestorsShape(t, id);
      ghost var up := Ancestors(t, id);
      while current != -1 && Slot(current)
        invariant 0 <= depth <= |up| <= MAX_INODES
        invariant current == if depth < |up| then up[depth] else -1
        invariant forall j | 0 <= j < depth :: stack[j] == up[j]
        decreases |up| - depth
      {
        stack[depth] := current;
        depth := depth + 1;
        RowOf(mem.ram[..], current);
        FieldsOf(mem.ram[..], current);
        current := GetField(current, F_PARENT);
      }
    }

    // One turn of the loop that builds the path.
    method AppendName(node: int, i: int, buf: array<Byte>, ghost t: Table, ghost id: int)
      requires Valid() && t == State().table && buf != mem.ram
      requires Slot(id) && |Path(t, id)| < buf.Length
      requires 0 <= i < |Ancestors(t, id)| && node == Ancestors(t, id)[i]
      requires forall j | 0 <= j < |Ancestors(t, id)| :: FileModel.Valid(t, Ancestors(t, id)[j])
      requires Terminated(buf[..], 0) && CStr(buf[..], 0) == Built(t, Ancestors(t, id), i)
      modifies buf
      ensures Terminated(buf[..], 0) && CStr(buf[..], 0) == Built(t, Ancestors(t, id), i - 1)
    {
      hide IntAt, CStr, Describes, Field, Inv, TextsOf, TableOf, Path, Built, Ancestors;
      InvParts(State());
      BuiltStep(t, id, i);
      BuiltFits(t, id, i - 1);
      CStrLit("/");
      if node == 0 {
        AtRoot(t, id, i);
        StrCat(buf, 0, Lit("/"), 0);
      } else {
        RowOf(mem.ram[..], node);
        ShapeOf(t, nextInodeId, node);
        NameReads(mem.ram[..], node);
        StrCat(buf, 0, mem.ram[..], Addr(node) + F_NAME);
        if i > 0 {
          StrCat(buf, 0, Lit("/"), 0);
        }
      }
    }
  }

  // The length of a C string fits an int.
  predicate Storable(op: Op) {
    op.Put? ==> |op.data| < MAX_INT
  }

  lemma {:induction false} LastTextFits(ops: seq<Op>, results: seq<int>, id: int, room: int)
    requires |results| == |ops| && forall i | 0 <= i < |ops| && ops[i].Put? :: |ops[i].data| < room
    ensures var c := LastText(Nothing, ops, results, id); c.Just? ==> |c.text| < room
  {
    if ops != [] {
      LastTextFits(ops[..|ops| - 1], results[..|ops| - 1], id, room);
    }
  }

  // No stored text is longer than the longest one written.
  lemma ContentFits(ops: seq<Op>, id: int, room: int)
    requires GoodRun(ops) && forall i | 0 <= i < |ops| && ops[i].Put? :: |ops[i].data| < room
    ensures var fs := Run(Boot, ops).0; id in fs.texts ==> |fs.texts[id]| < room
  {
    BootInv();
    InvIsSane(Boot);
    hide Sane, Inv;
    ContentIsLastText(Boot, ops, id);
    LastTextFits(ops, Run(Boot, ops).1, id, room);
  }

  lemma NothingBuilt(t: Table, up: seq<int>)
    requires ParentsBelow(t) && up != [] && forall j | 0 <= j < |up| :: FileModel.Valid(t, up[j])
    ensures Built(t, up, |up| - 1) == []
  {
  }

  // The root is the first to be appended.
  lemma AtRoot(t: Table, id: int, i: int)
    requires ParentsBelow(t) && FileModel.Valid(t, id) && 0 <= i < |Ancestors(t, id)| && Ancestors(t, id)[i] == 0
    ensures forall j | 0 <= j < |Ancestors(t, id)| :: FileModel.Valid(t, Ancestors(t, id)[j])
    ensures Built(t, Ancestors(t, id), i) == []
  {
    AncestorsShape(t, id);
  }

  // The granted block lies inside the one chosen and holds len bytes.
  lemma GrantBounds(s: seq<Byte>, s1: seq<Byte>, c: Chain, len: int)
    requires Tiled(c) && AllocResult(c, len) != NULL && |s| == RAM_SIZE
    requires Granting(s, s1, c[FirstFit(c, len)], len, Next(c, FirstFit(c, len)))
    ensures var k, c' := FirstFit(c, len), AfterAlloc(c, len);
            && k < |c'| && c'[k].Payload() == AllocResult(c, len) == c[k].Payload()
            && AllocResult(c, len) + len <= c'[k].End() <= c[k].End() <= RAM_SIZE
            && DATA_REGION_OFFSET <= c[k].offset && c[k].free
            && AgreeOutside(s, s1, c[k].offset, c[k].End())
  {
    var k := FirstFit(c, len);
    InRegion(c, k);
    AllocNewBlocks(c, len);
    GrantingOutside(s, s1, c[k], len, Next(c, k));
  }

  // Text data has been copied to the start of the payload of the block that alloc chooses in c.
  ghost predicate Copied(s: seq<Byte>, t: seq<Byte>, c: Chain, data: Text) {
    var k := FirstFit(c, |data| + 1);
    && k < |c| && c[k].free && c[k].Payload() == AllocResult(c, |data| + 1)
    && AgreeOutside(s, t, c[k].offset, c[k].End())
    && TextAt(t, c[k].Payload()) == data
  }

  lemma StoredTextsAre(s: seq<Byte>, s2: seq<Byte>, s3: seq<Byte>, fs: Fs, id: int, data: Text)
    requires Holding(s, fs) && Slot(id) && Valid(fs.table, id) && fs.table[id].active && id !in fs.texts
    requires Copied(s, s2, fs.chain, data) && TableOf(s2) == fs.table && Agree(s2, s3, DATA_REGION_OFFSET, RAM_SIZE)
    requires TableOf(s3) == WithData(fs.table, id, AllocResult(fs.chain, |data| + 1), |data| + 1)
    ensures TextsOf(s3) == fs.texts[id := data]
  {
    var k := FirstFit(fs.chain, |data| + 1);
    InRegion(fs.chain, k);
    AddedTexts(s, s2, s3, fs, id, k, data);
  }

  lemma ForgottenTexts(s: seq<Byte>, s1: seq<Byte>, s2: seq<Byte>, fs: Fs, id: int)
    requires Holding(s, fs) && Owns(fs) && |fs.table| == MAX_INODES && Slot(id) && |s2| == RAM_SIZE
    requires fs.table[id].active && fs.table[id].dataOffset != -1
    requires Freed(s, s1, fs, id) && Agree(s1, s2, DATA_REGION_OFFSET, RAM_SIZE)
    requires TableOf(s2) == WithData(fs.table, id, -1, 0)
    ensures TextsOf(s2) == fs.texts - {id}
  {
    hide Holding, TableOf, TextsOf;
    ForgottenData(fs, id);
    hide Owns, SameData, WithData, FreedAt;
    var k: nat :| FreedAt(s, s1, fs, id, k);
    DroppedTexts(s, s1, s2, fs, id, k);
  }

  lemma ForgottenData(fs: Fs, id: int)
    requires Owns(fs) && |fs.table| == MAX_INODES && Slot(id) && fs.table[id].active && fs.table[id].dataOffset != -1
    ensures var t' := WithData(fs.table, id, -1, 0);
            && id in fs.texts && !t'[id].Stored()
            && forall i | 0 <= i < MAX_INODES && i != id :: SameData(fs.table[i], t'[i])
  {
  }

  lemma DroppedCanStore(fs: Fs, id: int)
    requires Inv(fs) && CanWrite(fs, id)
    ensures var d := Dropped(fs, id);
            Owns(d) && |d.table| == MAX_INODES && CanWrite(d, id) && id !in d.texts
  {
    DroppedOwns(fs, id);
    DroppedText(fs, id);
  }

  lemma KidAt(n: Inode, id: int, i: int)
    requires Shape(n) && 0 <= i < n.childCount
    ensures var k := IndexOf(n.Kids(), id);
            (i < k ==> n.children[i] != id) && (i == k ==> n.children[i] == id)
  {
    var k := IndexOf(n.Kids(), id);
    if i < k { assert n.Kids()[..k][i] == n.children[i]; }
  }

  // The children array once the gap at k is closed; the last child still stands in its old slot, too.
  function Closed(n: Inode, k: int): seq<int>
    requires 0 <= k < n.childCount <= |n.children|
  {
    n.children[..k] + n.children[k + 1..n.childCount] + n.children[n.childCount - 1..]
  }

  lemma DeleteParent(fs: Fs, id: int)
    requires Tree(fs.table, fs.next) && CanDelete(fs, id)
    ensures var p := fs.table[id].parent; |fs.table| == MAX_INODES && Slot(p) && p != id && Shape(fs.table[p])
  {
    DeleteShape(fs, id);
    ShapeOf(fs.table, fs.next, fs.table[id].parent);
  }

  lemma Untouched(n: Inode, id: int)
    requires id !in n.Kids()
    ensures WithoutChild(n, id) == n
  {
  }

  lemma CutIsWithout(n: Inode, n1: Inode, id: int)
    requires Shape(n) && id in n.Kids() && n1 == n.(children := Closed(n, IndexOf(n.Kids(), id)))
    ensures 1 <= n.childCount && |n1.children| == MAX_CHILDREN
    ensures n1.(childCount := n.childCount - 1, children := n1.children[n.childCount - 1 := -1]) == WithoutChild(n, id)
  {
    hide IndexOf;
    var a, k, m := n.children, IndexOf(n.Kids(), id), n.childCount;
    assert (a[..k] + a[k + 1..m] + a[m - 1..])[m - 1 := -1] == a[..k] + a[k + 1..m] + [-1] + a[m..];
  }

  lemma FieldRange(s: seq<Byte>, id: int, f: int)
    requires |s| == RAM_SIZE && Slot(id) && 0 <= f <= F_ACTIVE
    ensures Int32(Field(s, id, f))
  {
  }

  lemma ShiftStep(n: Inode, n1: Inode, k: int, i: int)
    requires Shifting(n, n1, k, i) && i < n.childCount
    ensures n1.childCount == n.childCount <= MAX_CHILDREN == |n1.children| == |n.children|
    ensures i <= k ==> n1.children[i] == n.children[i]
    ensures if k <= i && i < n.childCount - 1
            then Shifting(n, n1.(children := n1.children[i := n1.children[i + 1]]), k, i + 1)
            else Shifting(n, n1, k, i + 1)
  {
  }

  lemma ShiftedAll(n: Inode, n1: Inode, k: int)
    requires Shape(n) && Shifting(n, n1, k, n.childCount) && k <= n.childCount
    ensures n1 == if k == n.childCount then n else n.(children := Closed(n, k))
  {
    if k < n.childCount {
      var c := Closed(n, k);
      forall j | 0 <= j < MAX_CHILDREN ensures n1.children[j] == c[j] {
      }
    } else {
      assert n1.children == n.children;
    }
  }

  // The parent n after i turns of the loop of fs_delete, when the first occurrence of the id is at k.
  ghost predicate Shifting(n: Inode, n1: Inode, k: int, i: int) {
    var a, b := n.children, n1.children;
    && |a| == |b| == MAX_CHILDREN && 0 <= k && 0 <= i <= n.childCount <= MAX_CHILDREN
    && n1 == n.(children := b)
    && forall j {:trigger b[j]} | 0 <= j < MAX_CHILDREN ::
         b[j] == if k <= j < i && j < n.childCount - 1 then a[j + 1] else a[j]
  }

  // The fields of a decoded inode.
  lemma FieldsOf(s: seq<Byte>, id: int)
    requires |s| == RAM_SIZE && Slot(id)
    ensures var n := InodeAt(s, id);
            && n.name == NameOf(s, id) && n.kind == Field(s, id, F_TYPE) && n.parent == Field(s, id, F_PARENT)
            && n.childCount == Field(s, id, F_CHILD_COUNT) && n.dataOffset == Field(s, id, F_DATA_OFFSET)
            && n.dataSize == Field(s, id, F_DATA_SIZE) && (n.active <==> Field(s, id, F_ACTIVE) != 0)
            && |n.children| == MAX_CHILDREN
            && forall j | 0 <= j < MAX_CHILDREN :: n.children[j] == Field(s, id, F_CHILDREN + 4 * j)
  {
  }

  // What dealloc of the block of file id has changed: at most the header in front of its data.
  ghost predicate Freed(s: seq<Byte>, t: seq<Byte>, fs: Fs, id: int)
    requires Valid(fs.table, id)
  {
    if fs.table[id].dataOffset == -1 then t == s
    else exists k: nat :: FreedAt(s, t, fs, id, k)
  }

  lemma ReleasedIsFreed(s: seq<Byte>, t: seq<Byte>, fs: Fs, id: int)
    requires Valid(fs.table, id) && fs.table[id].dataOffset != -1 && Live(fs.chain, fs.table[id].dataOffset)
    requires |s| == RAM_SIZE && Tiled(fs.chain) && Releasing(s, t, fs.chain, Find(fs.chain, fs.table[id].dataOffset))
    ensures Freed(s, t, fs, id) && Agree(s, t, 0, DATA_REGION_OFFSET)
  {
    var k := Find(fs.chain, fs.table[id].dataOffset);
    InRegion(fs.chain, k);
    assert FreedAt(s, t, fs, id, k);
  }

  lemma StoredIsLive(fs: Fs, id: int)
    requires Inv(fs) && Slot(id) && fs.table[id].active && fs.table[id].dataOffset != -1
    ensures Live(fs.chain, fs.table[id].dataOffset) && id in fs.texts && Tiled(fs.chain)
  {
    var b := OwnedIsLive(fs, id);
  }

  // What fs_delete has done to RAM: the block freed up to s1, the inodes rewritten up to s2.
  ghost predicate Deleting(s: seq<Byte>, s1: seq<Byte>, s2: seq<Byte>, fs: Fs, id: int) {
    && Holding(s, fs) && Tree(fs.table, fs.next) && CanDelete(fs, id) && Freed(s, s1, fs, id)
    && Agree(s1, s2, DATA_REGION_OFFSET, RAM_SIZE) && TableOf(s2) == Unlinked(fs.table, id)
  }

  lemma DeletedTexts(s: seq<Byte>, s1: seq<Byte>, s2: seq<Byte>, fs: Fs, id: int)
    requires Deleting(s, s1, s2, fs, id)
    ensures Valid(fs.table, id) && |s2| == RAM_SIZE && TextsOf(s2) == Dropped(fs, id).texts
  {
    assert Valid(fs.table, id) && |s2| == RAM_SIZE;
    hide Deleting;
    if fs.table[id].dataOffset == -1 {
      DeletedNothing(s, s1, s2, fs, id);
    } else {
      var k := DeletedDrops(s, s1, s2, fs, id);
      DroppedTexts(s, s1, s2, fs, id, k);
    }
  }

  lemma DeletedNothing(s: seq<Byte>, s1: seq<Byte>, s2: seq<Byte>, fs: Fs, id: int)
    requires Deleting(s, s1, s2, fs, id) && Valid(fs.table, id) && fs.table[id].dataOffset == -1
    ensures |s2| == RAM_SIZE && TextsOf(s2) == fs.texts
  {
    DeletedData(fs, id);
    hide Unlinked, SameData, Tree;
    LowTexts(s, s2, fs);
  }

  lemma DeletedDrops(s: seq<Byte>, s1: seq<Byte>, s2: seq<Byte>, fs: Fs, id: int) returns (k: nat)
    requires Deleting(s, s1, s2, fs, id) && Valid(fs.table, id) && fs.table[id].dataOffset != -1
    ensures Dropping(s, s1, s2, fs, id, k)
  {
    DeletedData(fs, id);
    assert id in fs.texts && Slot(id) && |s2| == RAM_SIZE;
    hide Unlinked, SameData, Tree, Holding, CanDelete, TableOf, FreedAt;
    k :| FreedAt(s, s1, fs, id, k);
  }

  lemma DeletedData(fs: Fs, id: int)
    requires Tree(fs.table, fs.next) && CanDelete(fs, id)
    ensures var t' := Unlinked(fs.table, id);
            && |t'| == MAX_INODES && !t'[id].Stored()
            && (forall i | 0 <= i < MAX_INODES && i != id :: SameData(fs.table[i], t'[i]))
            && (fs.table[id].dataOffset == -1 ==> SameData(fs.table[id], t'[id]))
            && (fs.table[id].dataOffset != -1 ==> fs.table[id].Stored())
  {
    DeleteShape(fs, id);
    WithoutChildKids(fs.table[fs.table[id].parent], id);
  }

  lemma InvParts(fs: Fs)
    requires Inv(fs)
    ensures Tree(fs.table, fs.next) && Owns(fs) && |fs.table| == MAX_INODES && 0 < fs.next <= MAX_INODES
  {
  }

  // After create_inode the parent still has a free child slot.
  lemma ParentAfter(fs: Fs, t: seq<Byte>, parent: int, name: Text, kind: int)
    requires Tree(fs.table, fs.next) && CanCreate(fs, parent, name) && |t| == RAM_SIZE
    requires TableOf(t) == fs.table[fs.next := NewInode(fs.next, name, kind, parent)]
    ensures 0 <= InodeAt(t, parent).childCount < MAX_CHILDREN
  {
    RowOf(t, parent);
    ShapeOf(fs.table, fs.next, parent);
    CreateShape(fs, parent, name, kind);
    assert TableOf(t)[parent] == fs.table[parent];
  }

  lemma CreatedData(fs: Fs, parent: int, name: Text, kind: int)
    requires Tree(fs.table, fs.next) && CanCreate(fs, parent, name)
    ensures forall i | 0 <= i < MAX_INODES :: SameData(fs.table[i], Linked(fs.table, fs.next, name, kind, parent)[i])
  {
    CreateShape(fs, parent, name, kind);
  }

  lemma CreatedTexts(s: seq<Byte>, t: seq<Byte>, fs: Fs, parent: int, name: Text, kind: int)
    requires Holding(s, fs) && Tree(fs.table, fs.next) && CanCreate(fs, parent, name)
    requires Agree(s, t, DATA_REGION_OFFSET, RAM_SIZE)
    requires TableOf(t) == Linked(fs.table, fs.next, name, kind, parent)
    ensures TextsOf(t) == fs.texts
  {
    CreatedData(fs, parent, name, kind);
    hide TextsOf, Holding, Tree, TableOf, SameData, Linked;
    LowTexts(s, t, fs);
  }

  lemma ShapeOf(t: Table, next: int, i: int)
    requires Tree(t, next) && Slot(i)
    ensures Shape(t[i])
  {
  }

  lemma RowOf(s: seq<Byte>, id: int)
    requires |s| == RAM_SIZE && Slot(id)
    ensures TableOf(s)[id] == InodeAt(s, id) && |InodeAt(s, id).children| == MAX_CHILDREN
  {
  }

  // ---------- the table during fs_init ----------

  const BlankTable: Table := seq(MAX_INODES, _ => Blank)

  const FreshDirs: Table :=
    BlankTable[0 := NewInode(0, "/", INODE_DIR, -1)][1 := NewInode(1, "bin", INODE_DIR, 0)]
      [2 := NewInode(2, "home", INODE_DIR, 0)][3 := NewInode(3, CURRENT_USER, INODE_DIR, 2)]
      [4 := NewInode(4, "tmp", INODE_DIR, 0)][5 := NewInode(5, "sys", INODE_DIR, 0)]

  const WithRoot: Table :=
    FreshDirs[0 := FreshDirs[0].(children := FreshDirs[0].children[0 := 1][1 := 2][2 := 4][3 := 5], childCount := 4)]

  const WithHome: Table :=
    WithRoot[2 := WithRoot[2].(children := WithRoot[2].children[0 := 3], childCount := 1)]

  lemma WiredIsBoot(t: Table)
    requires t == WithHome
    ensures t == BootTable
  {
    assert WithHome[0].children == BootDirs[0].children;
    assert WithHome[2].children == BootDirs[2].children;
    forall i | 0 <= i < MAX_INODES ensures WithHome[i] == BootTable[i] {
      BootEntry(i);
    }
  }

  lemma ZeroTable(s: seq<Byte>)
    requires |s| == RAM_SIZE && forall p | 0 <= p < DATA_REGION_OFFSET :: s[p] == NUL
    ensures TableOf(s) == BlankTable
  {
    forall i | 0 <= i < MAX_INODES ensures InodeAt(s, i) == Blank {
      ZeroIsBlank(s, i);
    }
  }

  lemma NoTexts(s: seq<Byte>)
    requires |s| == RAM_SIZE && TableOf(s) == BootTable
    ensures TextsOf(s) == map[]
  {
    forall i | 0 <= i < MAX_INODES ensures !InodeAt(s, i).Stored() {
      BootEntry(i);
      assert TableOf(s)[i] == InodeAt(s, i);
    }
  }

  lemma ChildrenLength(s: seq<Byte>, id: int)
    requires |s| == RAM_SIZE && Slot(id)
    ensures |InodeAt(s, id).children| == MAX_CHILDREN
  {
  }
}
