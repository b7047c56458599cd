/** The tree invariant of the inode table, and what creating and deleting do to a directory. */
module TreeLaws {
  import opened Layout
  import opened Bytes
  import opened FileModel

  // ---------- fs_find_child ----------

  lemma {:induction false} FirstNamedFinds(t: Table, kids: seq<int>, name: Text)
    ensures var r := FirstNamed(t, kids, name);
            if r == -1
            then forall k | k in kids && Valid(t, k) && t[k].active :: t[k].name != name
            else r in kids && Valid(t, r) && t[r].active && t[r].name == name
  {
    if kids != [] {
      FirstNamedFinds(t, kids[1..], name);
    }
  }

  // In a well-formed tree a lookup finds an active child of that name if there is one, and it is the only one.
  lemma LookupExact(t: Table, next: int, d: int, name: Text)
    requires Tree(t, next) && Valid(t, d)
    ensures var r := Lookup(t, d, name);
            if r == -1 then forall k | k in t[d].Kids() :: t[k].name != name
            else r in t[d].Kids() && t[r].name == name && forall k | k in t[d].Kids() && t[k].name == name :: k == r
  {
    FirstNamedFinds(t, t[d].Kids(), name);
    var kids, r := t[d].Kids(), Lookup(t, d, name);
    assert forall k | k in kids :: IsChild(t, d, k);
    if t[d].kind == INODE_DIR && r != -1 {
      forall k | k in kids && t[k].name == name ensures k == r {
        var i :| 0 <= i < |kids| && kids[i] == k;
        var j :| 0 <= j < |kids| && kids[j] == r;
        assert SiblingsDiffer(t, kids);
      }
    }
  }

  // A child is found under its own name.
  lemma LookupOwnName(t: Table, next: int, id: int)
    requires Tree(t, next) && Valid(t, id) && id != 0 && t[id].active
    ensures Lookup(t, t[id].parent, t[id].name) == id
  {
    LookupExact(t, next, t[id].parent, t[id].name);
    assert id in t[t[id].parent].Kids();
  }

  // ---------- fs_create ----------

  lemma CreateShape(fs: Fs, parent: int, name: Text, kind: int)
    requires Tree(fs.table, fs.next) && CanCreate(fs, parent, name)
    ensures var t, t', n := fs.table, Linked(fs.table, fs.next, name, kind, parent), fs.next;
            && |t'| == |t| && parent != n && 0 < n
            && t'[parent].Kids() == t[parent].Kids() + [n]
            && t'[n] == NewInode(n, name, kind, parent) && t'[n].Kids() == [] && t[n].Kids() == []
            && (forall i | 0 <= i < |t| && i != n && i != parent :: t'[i] == t[i])
            && t'[parent] == t[parent].(children := t'[parent].children, childCount := t'[parent].childCount)
  {
  }

  // The inode a create makes, field by field.
  lemma CreatedSlot(fs: Fs, parent: int, name: Text, kind: int)
    requires Tree(fs.table, fs.next) && CanCreate(fs, parent, name)
    ensures var (fs', id) := Create(fs, parent, name, kind);
            && id == fs.next && fs'.next == id + 1 && |fs'.table| == |fs.table|
            && fs'.table[id].active && fs'.table[id].id == id
            && fs'.table[id].kind == kind && fs'.table[id].name == name && fs'.table[id].parent == parent
            && fs'.table[id].dataOffset == -1 && fs'.table[id].dataSize == 0
            && fs'.table[id].childCount == 0 && |fs'.table[id].children| == MAX_CHILDREN
            && (forall j | 0 <= j < MAX_CHILDREN :: fs'.table[id].children[j] == -1)
            && fs'.chain == fs.chain && fs'.texts == fs.texts
  {
    hide Lookup, Shape, SiblingsDiffer;
    CreateShape(fs, parent, name, kind);
  }

  // A create succeeds exactly when the parent is a directory with room, no child has the name and an id is left;
  // otherwise it changes nothing.
  lemma CreateSucceeds(fs: Fs, parent: int, name: Text, kind: int)
    requires Tree(fs.table, fs.next)
    ensures var t, (fs', id) := fs.table, Create(fs, parent, name, kind);
            && (id == -1 ==> fs' == fs)
            && (id != -1 <==> && Valid(t, parent) && t[parent].kind == INODE_DIR && |t[parent].Kids()| < MAX_CHILDREN
                              && (forall k | k in t[parent].Kids() :: t[k].name != name)
                              && fs.next < MAX_INODES)
  {
    if Valid(fs.table, parent) {
      LookupExact(fs.table, fs.next, parent, name);
      assert Shape(fs.table[parent]);
    }
  }

  lemma SiblingsFrame(t: Table, t': Table, kids: seq<int>)
    requires SiblingsDiffer(t, kids) && |t| == |t'|
    requires forall k | k in kids && Valid(t, k) :: t'[k].name == t[k].name
    ensures SiblingsDiffer(t', kids)
  {
    forall i, j | 0 <= i < j < |kids| && Valid(t', kids[i]) && Valid(t', kids[j])
      ensures t'[kids[i]].name != t'[kids[j]].name
    {
      assert kids[i] in kids && kids[j] in kids;
    }
  }

  lemma SiblingsExtend(t: Table, kids: seq<int>, n: int)
    requires SiblingsDiffer(t, kids) && Valid(t, n)
    requires forall k | k in kids && Valid(t, k) :: t[k].name != t[n].name
    ensures SiblingsDiffer(t, kids + [n])
  {
    var all := kids + [n];
    forall i, j | 0 <= i < j < |all| && Valid(t, all[i]) && Valid(t, all[j])
      ensures t[all[i]].name != t[all[j]].name
    {
      assert all[i] == kids[i] && kids[i] in kids;
    }
  }

  lemma CreateSiblings(fs: Fs, parent: int, name: Text, kind: int, d: int)
    requires Tree(fs.table, fs.next) && CanCreate(fs, parent, name) && Valid(fs.table, d)
    ensures var t' := Linked(fs.table, fs.next, name, kind, parent); SiblingsDiffer(t', t'[d].Kids())
  {
    var t, t', n := fs.table, Linked(fs.table, fs.next, name, kind, parent), fs.next;
    CreateShape(fs, parent, name, kind);
    assert forall k | k in t[d].Kids() :: IsChild(t, d, k) && k != n;
    if d != n {
      assert SiblingsDiffer(t, t[d].Kids());
      SiblingsFrame(t, t', t[d].Kids());
      if d == parent {
        FirstNamedFinds(t, t[d].Kids(), name);
        SiblingsExtend(t', t[d].Kids(), n);
      }
    }
  }

  lemma CreateChildren(fs: Fs, parent: int, name: Text, kind: int, d: int, k: int)
    requires Tree(fs.table, fs.next) && CanCreate(fs, parent, name) && Valid(fs.table, d)
    ensures var t' := Linked(fs.table, fs.next, name, kind, parent);
            (k in t'[d].Kids() ==> IsChild(t', d, k))
            && (1 <= k < |t'| && t'[k].active && t'[k].parent == d ==> k in t'[d].Kids())
  {
    var t, t', n := fs.table, Linked(fs.table, fs.next, name, kind, parent), fs.next;
    CreateShape(fs, parent, name, kind);
    assert k in t[d].Kids() ==> IsChild(t, d, k) && k != n;
    assert k in t'[d].Kids() <==> k in t[d].Kids() || (d == parent && k == n);
  }

  // What the tree invariant says of slot i on its own.
  ghost predicate NodeOk(t: Table, next: int, i: int)
    requires |t| == MAX_INODES && Valid(t, i)
  {
    && Shape(t[i])
    && (i == 0 ==> t[i].active && t[i].kind == INODE_DIR && t[i].parent == -1)
    && (i != 0 ==> 0 <= t[i].parent < i && t[t[i].parent].kind == INODE_DIR)
    && (t[i].active ==> t[i].id == i)
    && (next <= i ==> !t[i].active && t[i].kind == INODE_FILE)
  }

  lemma TreeFrom(t: Table, next: int)
    requires |t| == MAX_INODES && 0 < next <= MAX_INODES && ParentsBelow(t)
    requires forall i {:trigger t[i]} | 0 <= i < |t| :: NodeOk(t, next, i)
    requires forall d, k | 0 <= d < |t| && k in t[d].Kids() :: IsChild(t, d, k)
    requires forall k | 1 <= k < |t| && t[k].active :: k in t[t[k].parent].Kids()
    requires forall d | 0 <= d < |t| :: SiblingsDiffer(t, t[d].Kids())
    ensures Tree(t, next)
  {
  }

  lemma CreateNode(fs: Fs, parent: int, name: Text, kind: int, i: int)
    requires Tree(fs.table, fs.next) && CanCreate(fs, parent, name) && Valid(fs.table, i)
    requires GoodName(name) && kind in {INODE_FILE, INODE_DIR}
    ensures NodeOk(Linked(fs.table, fs.next, name, kind, parent), fs.next + 1, i)
  {
    var t, t', n := fs.table, Linked(fs.table, fs.next, name, kind, parent), fs.next;
    CreateShape(fs, parent, name, kind);
    assert Shape(t[parent]);
    assert t'[i].parent != n;
  }

  // The invariant survives a create, whether the parent is active or not.
  lemma CreateTree(fs: Fs, parent: int, name: Text, kind: int)
    requires Tree(fs.table, fs.next) && GoodName(name) && kind in {INODE_FILE, INODE_DIR}
    ensures var (fs', id) := Create(fs, parent, name, kind); Tree(fs'.table, fs'.next)
  {
    if CanCreate(fs, parent, name) {
      var t', next := Linked(fs.table, fs.next, name, kind, parent), fs.next + 1;
      forall i | 0 <= i < |t'| ensures NodeOk(t', next, i) {
        CreateNode(fs, parent, name, kind, i);
      }
      forall d | 0 <= d < |t'| ensures SiblingsDiffer(t', t'[d].Kids()) {
        CreateSiblings(fs, parent, name, kind, d);
      }
      forall d, k | 0 <= d < |t'| && k in t'[d].Kids() ensures IsChild(t', d, k) {
        CreateChildren(fs, parent, name, kind, d, k);
      }
      forall k | 1 <= k < |t'| && t'[k].active ensures k in t'[t'[k].parent].Kids() {
        assert NodeOk(t', next, k);
        CreateChildren(fs, parent, name, kind, t'[k].parent, k);
      }
      TreeFrom(t', next);
    }
  }

  // A create adds one name to one directory; every other lookup, in any directory, gives what it gave before.
  lemma CreateLookup(fs: Fs, parent: int, name: Text, kind: int, d: int, other: Text)
    requires Tree(fs.table, fs.next) && CanCreate(fs, parent, name)
    requires GoodName(name) && kind in {INODE_FILE, INODE_DIR}
    ensures var (fs', id) := Create(fs, parent, name, kind);
            Lookup(fs'.table, d, other) == if d == parent && other == name then id else Lookup(fs.table, d, other)
  {
    if Valid(fs.table, d) {
      hide Tree, Linked, Lookup;
      CreateNames(fs, parent, name, kind, d);
      CreateTree(fs, parent, name, kind);
      LookupExact(fs.table, fs.next, d, other);
      LookupExact(Linked(fs.table, fs.next, name, kind, parent), fs.next + 1, d, other);
    }
  }

  // The children of each directory and their names after a create.
  lemma CreateNames(fs: Fs, parent: int, name: Text, kind: int, d: int)
    requires Tree(fs.table, fs.next) && CanCreate(fs, parent, name) && Valid(fs.table, d)
    ensures var t, t', n := fs.table, Linked(fs.table, fs.next, name, kind, parent), fs.next;
            && |t'| == |t| && t'[n].name == name
            && t'[d].Kids() == t[d].Kids() + (if d == parent then [n] else [])
            && (forall k | k in t[d].Kids() :: Valid(t, k) && k != n && t'[k].name == t[k].name)
  {
    hide Shape, Linked, Lookup, ParentsBelow, SiblingsDiffer;
    CreateShape(fs, parent, name, kind);
    assert forall k | k in fs.table[d].Kids() :: IsChild(fs.table, d, k);
  }

  // A create keeps every active inode rooted exactly when it fails or its parent is active.
  lemma CreateRooted(fs: Fs, parent: int, name: Text, kind: int)
    requires Tree(fs.table, fs.next) && Rooted(fs.table)
    ensures var (fs', id) := Create(fs, parent, name, kind);
            Rooted(fs'.table) <==> id == -1 || fs.table[parent].active
  {
    if CanCreate(fs, parent, name) {
      CreateShape(fs, parent, name, kind);
      var t' := Linked(fs.table, fs.next, name, kind, parent);
      assert t'[fs.next].active;
    }
  }

  // ---------- fs_delete ----------

  lemma CloseGap(a: seq<int>, k: nat, m: nat)
    requires k < m <= |a|
    ensures var c := a[..k] + a[k + 1..m] + [-1] + a[m..];
            |c| == |a| && c[..m - 1] == a[..k] + a[k + 1..m] && c[m - 1..] == [-1] + a[m..]
  {
  }

  // Taking id out of a list of distinct ids removes it, keeps the order of the others and closes the gap.
  lemma WithoutChildKids(n: Inode, id: int)
    requires |n.children| == MAX_CHILDREN && 0 <= n.childCount <= MAX_CHILDREN && id in n.Kids()
    ensures var k, n' := IndexOf(n.Kids(), id), WithoutChild(n, id);
            && k < n.childCount && n.Kids()[k] == id
            && |n'.children| == MAX_CHILDREN && n'.childCount == n.childCount - 1
            && n'.Kids() == n.Kids()[..k] + n.Kids()[k + 1..]
            && n'.children[n'.childCount..] == [-1] + n.children[n.childCount..]
            && n' == n.(children := n'.children, childCount := n'.childCount)
  {
    hide IndexOf;
    var k, m := IndexOf(n.Kids(), id), n.childCount;
    CloseGap(n.children, k, m);
    assert n.Kids()[..k] == n.children[..k] && n.Kids()[k + 1..] == n.children[k + 1..m];
  }

  // A delete succeeds exactly on an active inode without children that is not the root; otherwise it changes nothing.
  lemma DeleteSucceeds(fs: Fs, id: int)
    requires Tree(fs.table, fs.next)
    ensures var t, (fs', r) := fs.table, Delete(fs, id);
            && (r == 0 || (r == -1 && fs' == fs))
            && (r == 0 <==> 0 < id < |t| && t[id].active && t[id].Kids() == [])
  {
    if Valid(fs.table, id) { assert Shape(fs.table[id]); }
  }

  lemma DeleteShape(fs: Fs, id: int)
    requires Tree(fs.table, fs.next) && CanDelete(fs, id)
    ensures var t := fs.table; var p := t[id].parent;
            && Valid(t, p) && p != id && id in t[p].Kids() && t[id].Kids() == []
            && var t' := Unlinked(t, id);
            && |t'| == |t|
            && t'[id] == Erased(t[id]) && t'[id].Kids() == []
            && t'[p] == WithoutChild(t[p], id)
            && (forall i | 0 <= i < |t| && i != id && i != p :: t'[i] == t[i])
  {
    assert Shape(fs.table[id]);
  }

  lemma KidsDistinct(t: Table, next: int, d: int)
    requires Tree(t, next) && Valid(t, d)
    ensures forall i, j | 0 <= i < j < |t[d].Kids()| :: t[d].Kids()[i] != t[d].Kids()[j]
  {
    var kids := t[d].Kids();
    assert SiblingsDiffer(t, kids);
    forall i, j | 0 <= i < j < |kids| ensures kids[i] != kids[j] {
      assert IsChild(t, d, kids[i]) && IsChild(t, d, kids[j]);
    }
  }

  lemma CutMembers(kids: seq<int>, j: nat, k: int)
    requires j < |kids| && forall a, b | 0 <= a < b < |kids| :: kids[a] != kids[b]
    ensures k in kids[..j] + kids[j + 1..] <==> k in kids && k != kids[j]
  {
    assert kids == kids[..j] + [kids[j]] + kids[j + 1..];
  }

  // The remaining children of the parent are the old ones but id.
  lemma DeleteKids(fs: Fs, id: int, d: int, k: int)
    requires Tree(fs.table, fs.next) && CanDelete(fs, id) && Valid(fs.table, d)
    ensures var t' := Unlinked(fs.table, id);
            k in t'[d].Kids() <==> k in fs.table[d].Kids() && k != id
  {
    DeleteShape(fs, id);
    var t := fs.table;
    var p := t[id].parent;
    assert id in t[d].Kids() ==> IsChild(t, d, id);
    if d == p {
      WithoutChildKids(t[p], id);
      KidsDistinct(t, fs.next, p);
      CutMembers(t[p].Kids(), IndexOf(t[p].Kids(), id), k);
    }
  }

  lemma SiblingsShrink(t: Table, kids: seq<int>, j: nat)
    requires SiblingsDiffer(t, kids) && j < |kids|
    ensures SiblingsDiffer(t, kids[..j] + kids[j + 1..])
  {
    var rest := kids[..j] + kids[j + 1..];
    forall a, b | 0 <= a < b < |rest| && Valid(t, rest[a]) && Valid(t, rest[b])
      ensures t[rest[a]].name != t[rest[b]].name
    {
      var a', b' := if a < j then a else a + 1, if b < j then b else b + 1;
      assert rest[a] == kids[a'] && rest[b] == kids[b'];
    }
  }

  lemma ShapeAt(t: Table, next: int, i: int)
    requires Tree(t, next) && Valid(t, i)
    ensures |t[i].children| == MAX_CHILDREN && 0 <= t[i].childCount <= MAX_CHILDREN
  {
    assert Shape(t[i]);
  }

  lemma DeleteSiblings(fs: Fs, id: int, d: int)
    requires Tree(fs.table, fs.next) && CanDelete(fs, id) && Valid(fs.table, d)
    ensures var t' := Unlinked(fs.table, id); SiblingsDiffer(t', t'[d].Kids())
  {
    hide IndexOf, WithoutChild, Unlinked, Shape;
    DeleteShape(fs, id);
    var t, t' := fs.table, Unlinked(fs.table, id);
    var p := t[id].parent;
    if d != id {
      ShapeAt(t, fs.next, d);
      assert SiblingsDiffer(t, t[d].Kids());
      if d == p {
        WithoutChildKids(t[p], id);
        SiblingsShrink(t, t[p].Kids(), IndexOf(t[p].Kids(), id));
      }
      assert SiblingsDiffer(t, t'[d].Kids());
      forall k | k in t'[d].Kids() && Valid(t, k) ensures t'[k].name == t[k].name {
        DeleteKids(fs, id, d, k);
        if k == p { ShapeAt(t, fs.next, p); WithoutChildKids(t[p], id); }
      }
      SiblingsFrame(t, t', t'[d].Kids());
    }
  }

  // A directory that has lost a child is in shape.
  lemma WithoutChildShape(n: Inode, id: int)
    requires Shape(n) && n.kind == INODE_DIR && id in n.Kids()
    ensures var n' := WithoutChild(n, id);
            Shape(n') && n' == n.(children := n'.children, childCount := n'.childCount)
  {
    hide IndexOf;
    WithoutChildKids(n, id);
    var n' := WithoutChild(n, id);
    forall j | n'.childCount <= j < MAX_CHILDREN ensures n'.children[j] == -1 {
      assert n'.children[j] == n'.children[n'.childCount..][j - n'.childCount];
      if j > n'.childCount { assert n'.children[j] == n.children[j]; }
    }
  }

  lemma DeleteNode(fs: Fs, id: int, i: int)
    requires Tree(fs.table, fs.next) && CanDelete(fs, id) && Valid(fs.table, i)
    ensures NodeOk(Unlinked(fs.table, id), fs.next, i)
  {
    hide IndexOf, WithoutChild;
    DeleteShape(fs, id);
    var t, t' := fs.table, Unlinked(fs.table, id);
    assert Shape(t[t[id].parent]) && Shape(t[i]);
    WithoutChildShape(t[t[id].parent], id);
    assert forall j | 0 <= j < |t| :: t'[j].kind == t[j].kind && t'[j].parent == t[j].parent && t'[j].id == t[j].id;
  }

  lemma DeleteChildren(fs: Fs, id: int, d: int, k: int)
    requires Tree(fs.table, fs.next) && CanDelete(fs, id) && Valid(fs.table, d)
    ensures var t' := Unlinked(fs.table, id);
            (k in t'[d].Kids() ==> IsChild(t', d, k))
            && (1 <= k < |t'| && t'[k].active && t'[k].parent == d ==> k in t'[d].Kids())
  {
    hide Shape, IndexOf;
    DeleteShape(fs, id);
    DeleteKids(fs, id, d, k);
    assert k in fs.table[d].Kids() ==> IsChild(fs.table, d, k);
  }

  lemma DeleteTree(fs: Fs, id: int)
    requires Tree(fs.table, fs.next)
    ensures var (fs', r) := Delete(fs, id); Tree(fs'.table, fs'.next)
  {
    if CanDelete(fs, id) {
      DeleteShape(fs, id);
      hide Shape, IndexOf, SiblingsDiffer, WithoutChild;
      var t, t' := fs.table, Unlinked(fs.table, id);
      forall i | 0 <= i < |t'| ensures NodeOk(t', fs.next, i) {
        DeleteNode(fs, id, i);
      }
      forall d | 0 <= d < |t'| ensures SiblingsDiffer(t', t'[d].Kids()) {
        DeleteSiblings(fs, id, d);
      }
      forall d, k | 0 <= d < |t'| && k in t'[d].Kids() ensures IsChild(t', d, k) {
        DeleteChildren(fs, id, d, k);
      }
      forall k | 1 <= k < |t'| && t'[k].active ensures k in t'[t'[k].parent].Kids() {
        assert NodeOk(t', fs.next, k);
        DeleteChildren(fs, id, t'[k].parent, k);
      }
      TreeFrom(t', fs.next);
    }
  }

  // A delete takes one name out of one directory; every other lookup, in any directory, gives what it gave before.
  lemma DeleteLookup(fs: Fs, id: int, d: int, other: Text)
    requires Tree(fs.table, fs.next) && CanDelete(fs, id)
    ensures var t' := Delete(fs, id).0.table;
            Lookup(t', d, other) == if Lookup(fs.table, d, other) == id then -1 else Lookup(fs.table, d, other)
  {
    if Valid(fs.table, d) {
      hide Shape, Unlinked, FirstNamed, ParentsBelow, WithoutChild, IndexOf;
      var t, t' := fs.table, Unlinked(fs.table, id);
      DeleteNames(fs, id);
      DeleteTree(fs, id);
      LookupExact(t, fs.next, d, other);
      LookupExact(t', fs.next, d, other);
      forall k ensures k in t'[d].Kids() <==> k in t[d].Kids() && k != id {
        DeleteKids(fs, id, d, k);
      }
      assert forall k | k in t[d].Kids() :: IsChild(t, d, k);
    }
  }

  // A delete clears one name and keeps all others.
  lemma DeleteNames(fs: Fs, id: int)
    requires Tree(fs.table, fs.next) && CanDelete(fs, id)
    ensures var t, t' := fs.table, Unlinked(fs.table, id);
            && |t'| == |t| && t'[id].name == []
            && (forall i | 0 <= i < |t| :: t'[i].kind == t[i].kind && t'[i].parent == t[i].parent)
            && (forall i | 0 <= i < |t| && i != id :: t'[i].name == t[i].name && t'[i].active == t[i].active)
  {
    hide IndexOf, WithoutChild;
    DeleteShape(fs, id);
    ShapeAt(fs.table, fs.next, fs.table[id].parent);
    WithoutChildKids(fs.table[fs.table[id].parent], id);
  }

  lemma DeleteRooted(fs: Fs, id: int)
    requires Tree(fs.table, fs.next) && Rooted(fs.table)
    ensures var (fs', r) := Delete(fs, id); Rooted(fs'.table)
  {
    if CanDelete(fs, id) {
      DeleteShape(fs, id);
      var t, t' := fs.table, Unlinked(fs.table, id);
      forall k | 1 <= k < |t'| && t'[k].active ensures t'[t'[k].parent].active {
        assert t'[k].parent == t[k].parent;
        assert k in t[t[k].parent].Kids();
      }
    }
  }
}
