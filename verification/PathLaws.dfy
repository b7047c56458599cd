/** Paths: what fs_get_path builds, and why following it from the root leads back. */
module PathLaws {
  import opened Bytes
  import opened StringLaws
  import opened FileModel
  import opened TreeLaws

  const SLASH: Byte := '/'

  // The path of an inode, for active and deleted ones alike.
  function Path(t: Table, id: int): Text
    requires ParentsBelow(t) && Valid(t, id)
    decreases id
  {
    if id == 0 then [SLASH]
    else (if t[id].parent == 0 then [SLASH] else Path(t, t[id].parent) + [SLASH]) + t[id].name
  }

  // The names on the way from the root.
  function Components(t: Table, id: int): seq<Text>
    requires ParentsBelow(t) && Valid(t, id)
    decreases id
  {
    if id == 0 then [] else Components(t, t[id].parent) + [t[id].name]
  }

  // fs_find_child, component by component; -1 once a name is not found.
  function Follow(t: Table, from: int, names: seq<Text>): int
    decreases |names|
  {
    if names == [] then from
    else
      var child := Lookup(t, from, names[0]);
      if child == -1 then -1 else Follow(t, child, names[1..])
  }

  lemma {:induction false} JoinSnoc(words: seq<Text>, w: Text, d: Byte)
    ensures Join(words + [w], d) == if words == [] then w else Join(words, d) + [d] + w
  {
    if words == [] {
      assert words + [w] == [w];
    } else {
      assert (words + [w])[1..] == words[1..] + [w];
      JoinSnoc(words[1..], w, d);
      if |words| == 1 {
        assert words[1..] == [];
      }
    }
  }

  lemma {:induction false} PathIsJoin(t: Table, id: int)
    requires ParentsBelow(t) && Valid(t, id)
    ensures Path(t, id) == [SLASH] + Join(Components(t, id), SLASH)
    ensures Components(t, id) == [] <==> id == 0
    decreases id
  {
    if id != 0 {
      PathIsJoin(t, t[id].parent);
      JoinSnoc(Components(t, t[id].parent), t[id].name, SLASH);
    }
  }

  // Tokenising a path gives its components exactly when they are proper names: not empty, without a slash.
  lemma PathSplits(t: Table, id: int)
    requires ParentsBelow(t) && Valid(t, id)
    ensures Split(Path(t, id), SLASH) == Components(t, id) <==> AreWords(Components(t, id), SLASH)
  {
    PathIsJoin(t, id);
    var joined := Join(Components(t, id), SLASH);
    assert ([SLASH] + joined)[1..] == joined;
    if AreWords(Components(t, id), SLASH) {
      SplitJoin(Components(t, id), SLASH);
    }
    SplitWords(Path(t, id), SLASH);
  }

  lemma {:induction false} FollowSnoc(t: Table, from: int, names: seq<Text>, name: Text)
    requires Follow(t, from, names) != -1
    ensures Follow(t, from, names + [name]) == Lookup(t, Follow(t, from, names), name)
    decreases |names|
  {
    if names == [] {
      assert names + [name] == [name];
    } else {
      assert (names + [name])[1..] == names[1..] + [name];
      FollowSnoc(t, Lookup(t, from, names[0]), names[1..], name);
    }
  }

  // The inode and all directories above it are active.
  ghost predicate Attached(t: Table, id: int)
    requires ParentsBelow(t) && Valid(t, id)
    decreases id
  {
    t[id].active && (id == 0 || Attached(t, t[id].parent))
  }

  // If no active inode has lost its parent, all active inodes are attached.
  lemma {:induction false} RootedAttached(t: Table, next: int, id: int)
    requires Tree(t, next) && Rooted(t) && Valid(t, id) && t[id].active
    ensures Attached(t, id)
    decreases id
  {
    if id != 0 {
      RootedAttached(t, next, t[id].parent);
    }
  }

  // Following the components of an attached inode from the root arrives at it.
  lemma {:induction false} FollowComponents(t: Table, next: int, id: int)
    requires Tree(t, next) && Valid(t, id) && Attached(t, id)
    ensures Follow(t, 0, Components(t, id)) == id
    decreases id
  {
    if id != 0 {
      FollowComponents(t, next, t[id].parent);
      FollowSnoc(t, 0, Components(t, t[id].parent), t[id].name);
      LookupOwnName(t, next, id);
    }
  }

  // A child that is found lies right below the directory.
  lemma FoundBelow(t: Table, next: int, d: int, name: Text)
    requires Tree(t, next) && Valid(t, d) && Lookup(t, d, name) != -1
    ensures var c := Lookup(t, d, name);
            && Valid(t, c) && IsChild(t, d, c) && t[c].name == name
            && Components(t, c) == Components(t, d) + [name]
            && (Attached(t, d) ==> Attached(t, c))
  {
    LookupExact(t, next, d, name);
  }

  lemma Upward(t: Table, next: int)
    requires Tree(t, next)
    ensures ParentsBelow(t)
  {
  }

  lemma Regroup(way: seq<Text>, names: seq<Text>)
    requires names != []
    ensures way + [names[0]] + names[1..] == way + names
  {
  }

  // Wherever following some names leads to, these names are the way there.
  lemma {:induction false} FollowedComponents(t: Table, next: int, d: int, names: seq<Text>)
    requires Tree(t, next) && Valid(t, d) && Attached(t, d) && Follow(t, d, names) != -1
    ensures var id := Follow(t, d, names);
            Valid(t, id) && Attached(t, id) && Components(t, id) == Components(t, d) + names
    decreases |names|
  {
    hide Tree, IsChild, Lookup, Attached, Components;
    Upward(t, next);
    if names == [] {
      assert Components(t, d) + names == Components(t, d);
    } else {
      var child := Lookup(t, d, names[0]);
      FoundBelow(t, next, d, names[0]);
      FollowedComponents(t, next, child, names[1..]);
      Regroup(Components(t, d), names);
    }
  }

  // The path round trip: tokenising the path of an inode and following the tokens from the root arrives at the inode
  // exactly when it and all directories above it are active and no name on the way has a slash.
  lemma PathRoundTrip(t: Table, next: int, id: int)
    requires Tree(t, next) && Valid(t, id)
    ensures Follow(t, 0, Split(Path(t, id), SLASH)) == id
       <==> Attached(t, id) && AreWords(Components(t, id), SLASH)
  {
    PathSplits(t, id);
    if Attached(t, id) { FollowComponents(t, next, id); }
    if Follow(t, 0, Split(Path(t, id), SLASH)) == id {
      FollowedComponents(t, next, 0, Split(Path(t, id), SLASH));
      SplitWords(Path(t, id), SLASH);
    }
  }

  // Two inodes with the same path are one, unless one of them is detached or has a name with a slash on its way.
  lemma PathInjective(t: Table, next: int, a: int, b: int)
    requires Tree(t, next) && Valid(t, a) && Valid(t, b) && Path(t, a) == Path(t, b)
    requires Attached(t, a) && AreWords(Components(t, a), SLASH)
    requires Attached(t, b) && AreWords(Components(t, b), SLASH)
    ensures a == b
  {
    PathRoundTrip(t, next, a);
    PathRoundTrip(t, next, b);
  }

  ghost predicate SlashFree(t: Table) {
    forall i | 1 <= i < |t| && t[i].active :: SLASH !in t[i].name
  }

  // Attached names are never empty, so without slashes they are words.
  lemma {:induction false} ComponentsAreNames(t: Table, next: int, id: int)
    requires Tree(t, next) && SlashFree(t) && Valid(t, id) && Attached(t, id)
    ensures AreWords(Components(t, id), SLASH)
    decreases id
  {
    if id != 0 {
      assert Shape(t[id]);
      ComponentsAreNames(t, next, t[id].parent);
    }
  }

  // ---------- building a path from the bottom up ----------

  // An inode, its parent, and so on up to the root.
  function Ancestors(t: Table, id: int): seq<int>
    requires ParentsBelow(t) && Valid(t, id)
    decreases id
  {
    if id == 0 then [0] else [id] + Ancestors(t, t[id].parent)
  }

  // Parents have smaller ids, so the way up is never longer than the id.
  lemma {:induction false} AncestorsShape(t: Table, id: int)
    requires ParentsBelow(t) && Valid(t, id)
    ensures var up := Ancestors(t, id);
            && 0 < |up| <= id + 1 && up[0] == id && up[|up| - 1] == 0
            && (forall j | 0 <= j < |up| :: Valid(t, up[j]) && (up[j] == 0 <==> j == |up| - 1))
            && (forall j | 0 <= j < |up| - 1 :: up[j + 1] == t[up[j]].parent)
    decreases id
  {
    if id != 0 {
      AncestorsShape(t, t[id].parent);
    }
  }

  // What has been built once the ancestors after position i are in the buffer.
  function Built(t: Table, up: seq<int>, i: int): Text
    requires ParentsBelow(t) && -1 <= i < |up| && forall j | 0 <= j < |up| :: Valid(t, up[j])
  {
    if i == |up| - 1 then []
    else if up[i + 1] == 0 then [SLASH]
    else Path(t, up[i + 1]) + if i + 1 > 0 then [SLASH] else []
  }

  // Adding one more name, and a slash unless it is the last one.
  lemma BuiltStep(t: Table, id: int, i: int)
    requires ParentsBelow(t) && Valid(t, id) && 0 <= i < |Ancestors(t, id)|
    ensures var up := Ancestors(t, id);
            forall j | 0 <= j < |up| :: Valid(t, up[j])
    ensures var up := Ancestors(t, id);
            Built(t, up, i - 1) == if up[i] == 0 then [SLASH]
                                   else Built(t, up, i) + t[up[i]].name + if i > 0 then [SLASH] else []
  {
    AncestorsShape(t, id);
  }

  // Whatever has been built is no longer than the whole path.
  lemma {:induction false} BuiltFits(t: Table, id: int, i: int)
    requires ParentsBelow(t) && Valid(t, id) && -1 <= i < |Ancestors(t, id)|
    ensures forall j | 0 <= j < |Ancestors(t, id)| :: Valid(t, Ancestors(t, id)[j])
    ensures |Built(t, Ancestors(t, id), i)| <= |Path(t, id)|
    ensures Built(t, Ancestors(t, id), -1) == Path(t, id)
    decreases i + 1
  {
    AncestorsShape(t, id);
    if i >= 0 {
      BuiltFits(t, id, i - 1);
      BuiltStep(t, id, i);
    }
  }
}
