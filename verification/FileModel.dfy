/**
 core/fs.c on values: the inode table, and the effect of each operation as a function of the whole file system.
 Class `FileSystem.FileSystem` runs the C code over the bytes of RAM and is proved to have these effects.
 */
module FileModel {
  import opened Layout
  import opened Bytes
  import opened Blocks

  const INODE_FILE := 0
  const INODE_DIR := 1

  datatype Inode = Inode(
    id: int, name: Text, kind: int, parent: int, children: seq<int>, childCount: int,
    dataOffset: int, dataSize: int, active: bool)
  {
    // The children in order of creation.
    function Kids(): seq<int> {
      if 0 <= childCount <= |children| then children[..childCount] else []
    }

    // A file that holds a data block.
    predicate Stored() { active && dataOffset != -1 }
  }

  type Table = seq<Inode>

  // texts: what the data block of each file with content holds, by inode id.
  datatype Fs = Fs(table: Table, next: int, chain: Chain, texts: map<int, Text>)

  predicate Valid(t: Table, id: int) { 0 <= id < |t| }

  predicate GoodName(name: Text) { 0 < |name| < MAX_NAME_LEN && NUL !in name }

  // ---------- fs_find_child ----------

  function FirstNamed(t: Table, kids: seq<int>, name: Text): int {
    if kids == [] then -1
    else if Valid(t, kids[0]) && t[kids[0]].active && t[kids[0]].name == name then kids[0]
    else FirstNamed(t, kids[1..], name)
  }

  // The id of the child, -1 for a null result.
  function Lookup(t: Table, dir: int, name: Text): int {
    if !Valid(t, dir) || t[dir].kind != INODE_DIR then -1 else FirstNamed(t, t[dir].Kids(), name)
  }

  // ---------- fs_create ----------

  function NewInode(id: int, name: Text, kind: int, parent: int): Inode {
    Inode(id, name, kind, parent, seq(MAX_CHILDREN, _ => -1), 0, -1, 0, true)
  }

  function WithChild(n: Inode, id: int): Inode {
    if 0 <= n.childCount < |n.children|
    then n.(children := n.children[n.childCount := id], childCount := n.childCount + 1)
    else n
  }

  // The checks of fs_create and create_inode, in order. The last one is next_inode_id < MAX_INODES.
  predicate CanCreate(fs: Fs, parent: int, name: Text) {
    && Valid(fs.table, parent)
    && fs.table[parent].kind == INODE_DIR
    && fs.table[parent].childCount < MAX_CHILDREN
    && Lookup(fs.table, parent, name) == -1
    && Valid(fs.table, fs.next)
  }

  function Linked(t: Table, id: int, name: Text, kind: int, parent: int): Table
    requires Valid(t, id) && Valid(t, parent)
  {
    var t1 := t[id := NewInode(id, name, kind, parent)];
    t1[parent := WithChild(t1[parent], id)]
  }

  function Create(fs: Fs, parent: int, name: Text, kind: int): (Fs, int) {
    if !CanCreate(fs, parent, name) then (fs, -1)
    else (fs.(table := Linked(fs.table, fs.next, name, kind, parent), next := fs.next + 1), fs.next)
  }

  // ---------- fs_delete ----------

  function IndexOf(kids: seq<int>, id: int): (k: nat)
    ensures k <= |kids| && (k < |kids| ==> kids[k] == id) && id !in kids[..k]
    ensures k < |kids| <==> id in kids
  {
    if kids == [] || kids[0] == id then 0 else 1 + IndexOf(kids[1..], id)
  }

  // The children after the first occurrence of id move one slot down; the last slot is cleared.
  function WithoutChild(n: Inode, id: int): Inode {
    var k := IndexOf(n.Kids(), id);
    if k == |n.Kids()| then n
    else n.(children := n.children[..k] + n.children[k + 1..n.childCount] + [-1] + n.children[n.childCount..],
            childCount := n.childCount - 1)
  }

  function Erased(n: Inode): Inode {
    n.(active := false, name := [], dataOffset := -1, dataSize := 0)
  }

  function Unlinked(t: Table, id: int): Table
    requires Valid(t, id)
  {
    var p := t[id].parent;
    var t1 := if Valid(t, p) then t[p := WithoutChild(t[p], id)] else t;
    t1[id := Erased(t1[id])]
  }

  predicate CanDelete(fs: Fs, id: int) {
    && Valid(fs.table, id)
    && fs.table[id].active
    && id != 0
    && !(fs.table[id].kind == INODE_DIR && fs.table[id].childCount > 0)
  }

  // Gives back the data block of a file, if it has one.
  function Dropped(fs: Fs, id: int): Fs
    requires Valid(fs.table, id)
  {
    var n := fs.table[id];
    if n.dataOffset == -1 then fs
    else fs.(table := fs.table[id := n.(dataOffset := -1, dataSize := 0)],
             chain := AfterDealloc(fs.chain, n.dataOffset), texts := fs.texts - {id})
  }

  function Delete(fs: Fs, id: int): (Fs, int) {
    if !CanDelete(fs, id) then (fs, -1)
    else (Dropped(fs, id).(table := Unlinked(fs.table, id)), 0)
  }

  // ---------- fs_write, fs_read ----------

  predicate CanWrite(fs: Fs, id: int) {
    Valid(fs.table, id) && fs.table[id].active && fs.table[id].kind == INODE_FILE
  }

  // The old block is given back before the new one is requested.
  function Write(fs: Fs, id: int, data: Text): (Fs, int) {
    if !CanWrite(fs, id) then (fs, -1)
    else
      var d := Dropped(fs, id);
      var p := AllocResult(d.chain, |data| + 1);
      if p == NULL then (d, -1)
      else (d.(table := d.table[id := d.table[id].(dataOffset := p, dataSize := |data| + 1)],
               chain := AfterAlloc(d.chain, |data| + 1), texts := d.texts[id := data]), 0)
  }

  // The return value and the text copied to the caller's buffer.
  function Read(fs: Fs, id: int): (int, Text) {
    if !CanWrite(fs, id) then (-1, [])
    else if id !in fs.texts then (0, [])
    else (fs.table[id].dataSize, fs.texts[id])
  }

  // ---------- fs_init ----------

  const CURRENT_USER: Text := "chandan"

  const Blank: Inode := Inode(0, [], INODE_FILE, 0, seq(MAX_CHILDREN, _ => 0), 0, 0, 0, false)

  function Dir(id: int, name: Text, parent: int, kids: seq<int>): Inode
    requires |kids| <= MAX_CHILDREN
  {
    NewInode(id, name, INODE_DIR, parent).(children := kids + seq(MAX_CHILDREN - |kids|, _ => -1), childCount := |kids|)
  }

  const BootDirs: Table :=
    [Dir(0, "/", -1, [1, 2, 4, 5]), Dir(1, "bin", 0, []), Dir(2, "home", 0, [3]), Dir(3, CURRENT_USER, 2, []),
     Dir(4, "tmp", 0, []), Dir(5, "sys", 0, [])]

  const BootTable: Table := BootDirs + seq(MAX_INODES - 6, _ => Blank)

  const Boot: Fs := Fs(BootTable, 6, InitialChain, map[])

  // ---------- the tree invariant ----------

  // What one inode slot looks like at any time, never created ones included.
  ghost predicate Shape(n: Inode) {
    && |n.children| == MAX_CHILDREN && 0 <= n.childCount <= MAX_CHILDREN
    && |n.name| < MAX_NAME_LEN && NUL !in n.name
    && (n.kind != INODE_DIR ==> n.childCount == 0)
    && (n.kind == INODE_DIR ==> forall j | n.childCount <= j < MAX_CHILDREN :: n.children[j] == -1)
    && (n.active ==> n.kind in {INODE_FILE, INODE_DIR} && n.name != [])
    && (n.Stored() ==> n.kind == INODE_FILE)
  }

  ghost predicate ParentsBelow(t: Table) {
    forall i | 1 <= i < |t| :: 0 <= t[i].parent < i
  }

  ghost predicate SiblingsDiffer(t: Table, kids: seq<int>) {
    forall i, j | 0 <= i < j < |kids| && Valid(t, kids[i]) && Valid(t, kids[j]) :: t[kids[i]].name != t[kids[j]].name
  }

  // Child k of directory d is an active inode that names d as its parent.
  ghost predicate IsChild(t: Table, d: int, k: int) {
    0 < k < |t| && t[k].active && t[k].parent == d
  }

  // Holds at all times, whatever directory inodes are created in.
  ghost predicate Tree(t: Table, next: int) {
    && |t| == MAX_INODES && 0 < next <= MAX_INODES
    && (forall i | 0 <= i < |t| :: Shape(t[i]))
    && t[0].active && t[0].kind == INODE_DIR && t[0].parent == -1
    && ParentsBelow(t)
    && (forall i | 1 <= i < |t| :: t[t[i].parent].kind == INODE_DIR)
    && (forall i | 0 <= i < |t| && t[i].active :: t[i].id == i)
    && (forall i | next <= i < |t| :: !t[i].active && t[i].kind == INODE_FILE)
    && (forall d, k | 0 <= d < |t| && k in t[d].Kids() :: IsChild(t, d, k))
    && (forall k | 1 <= k < |t| && t[k].active :: k in t[t[k].parent].Kids())
    && (forall d | 0 <= d < |t| :: SiblingsDiffer(t, t[d].Kids()))
  }

  // No active inode has lost its parent.
  ghost predicate Rooted(t: Table) {
    forall k | 1 <= k < |t| && t[k].active :: Valid(t, t[k].parent) && t[t[k].parent].active
  }

  // ---------- who owns which block ----------

  // Block b is the used block that holds the content of file i.
  ghost predicate Backed(fs: Fs, i: int, b: Block) {
    && Valid(fs.table, i) && b in UsedBlocks(fs.chain)
    && b.Payload() == fs.table[i].dataOffset
    && fs.table[i].dataSize <= b.size <= fs.table[i].dataSize + BLOCK_HEADER_SIZE
  }

  ghost predicate HasBlock(fs: Fs, i: int) {
    exists b :: Backed(fs, i, b)
  }

  ghost predicate HasOwner(fs: Fs, b: Block) {
    exists i :: i in fs.texts && Backed(fs, i, b)
  }

  // File i holds its text and the terminating NUL.
  ghost predicate Holds(fs: Fs, i: int) {
    && Valid(fs.table, i) && fs.table[i].Stored()
    && i in fs.texts && NUL !in fs.texts[i] && |fs.texts[i]| + 1 == fs.table[i].dataSize
  }

  function DataPtr(t: Table, i: int): int {
    if Valid(t, i) then t[i].dataOffset else -1
  }

  ghost predicate PtrsDiffer(t: Table, ids: set<int>) {
    forall i, j | i in ids && j in ids && i != j :: DataPtr(t, i) != DataPtr(t, j)
  }

  // Files with content and used blocks correspond one to one.
  ghost predicate Owns(fs: Fs) {
    && Tiled(fs.chain)
    && (forall i | 0 <= i < |fs.table| && fs.table[i].Stored() :: i in fs.texts)
    && (forall i | i in fs.texts :: Holds(fs, i))
    && (forall i | i in fs.texts :: HasBlock(fs, i))
    && (forall b | b in UsedBlocks(fs.chain) :: HasOwner(fs, b))
    && PtrsDiffer(fs.table, fs.texts.Keys)
  }

  ghost predicate Inv(fs: Fs) {
    Tree(fs.table, fs.next) && Owns(fs)
  }
}
