/** What a line typed at the prompt does, told by names and children and not by the functions of the model. */
module TypedLaws {
  import opened Layout
  import opened Bytes
  import opened Blocks
  import opened StringLaws
  import opened FileModel
  import opened TreeLaws
  import opened FileRuns
  import opened SchedulerModel
  import opened ShellModel

  // ---------- a turn of the shell ----------

  // Any line that can be typed: without tokens nothing happens; otherwise the command of its tokens is carried out and
  // the scheduler ticks.
  lemma TurnOfLine(m: Machine, line: Text, disk: bool)
    requires m.running && Printable(line)
    ensures var tokens := Split(line, ' ');
            Turn(m, Input(line, disk)) == if tokens == [] then m else AfterTick(Step(m, Parse(tokens), disk))
  {
    hide Step, Parse, Trim, Printable;
    PrintableTrims(line);
  }

  // Words as they are typed.
  predicate Words(words: seq<Text>) {
    words != [] && AreWords(words, ' ') && forall i | 0 <= i < |words| :: Printable(words[i])
  }

  lemma {:induction false} JoinPrintable(words: seq<Text>)
    requires forall i | 0 <= i < |words| :: Printable(words[i])
    ensures Printable(Join(words, ' '))
  {
    if |words| > 1 {
      JoinPrintable(words[1..]);
      var rest := Join(words[1..], ' ');
      assert Join(words, ' ') == words[0] + [' '] + rest;
    }
  }

  // What the shell makes of these words, typed on one line.
  function Typed(m: Machine, words: seq<Text>, disk: bool): Machine {
    Turn(m, Input(Join(words, ' '), disk))
  }

  lemma TurnTakes(m: Machine, words: seq<Text>, disk: bool)
    requires m.running && Words(words)
    ensures Typed(m, words, disk) == AfterTick(Step(m, Parse(words), disk))
  {
    hide Step, Parse, Turn, AfterTick, Split, Join;
    JoinPrintable(words);
    SplitJoin(words, ' ');
    TurnOfLine(m, Join(words, ' '), disk);
  }

  // After the command only the clock moves.
  lemma TickMeaning(m: Machine)
    ensures var m' := AfterTick(m);
            && m'.fs == m.fs && m'.cwd == m.cwd && m'.image == m.image && m'.running == m.running
            && m'.ticks == m.ticks + 1 && |m'.procs| == |m.procs|
            && forall i | 0 <= i < |m.procs| ::
                 && m'.procs[i] == m.procs[i].(ticks := m'.procs[i].ticks)
                 && m'.procs[i].ticks - m.procs[i].ticks == if m.procs[i].pid != -1 && m.procs[i].status == 1 then 1 else 0
  {
    forall i | 0 <= i < |m.procs|
      ensures AfterTick(m).procs[i] == m.procs[i].(ticks := AfterTick(m).procs[i].ticks)
    {
      SlotMeaning(m.procs, -1, i);
    }
  }

  // ---------- the commands that only print, and mistakes ----------

  // The commands that change the machine, and the least number of words each needs.
  function Needs(command: Text): nat {
    if command in {"exit", "cd", "save", "load", "halt"} then 1
    else if command in {"mkdir", "touch", "rm"} then 2
    else 3
  }

  // Commands that only print, unknown ones and those with too few words leave everything but the clock alone.
  lemma OthersDoNothing(m: Machine, words: seq<Text>, disk: bool)
    requires m.running && Words(words)
    requires words[0] !in {"mkdir", "touch", "exit", "write", "rm", "cd", "save", "load", "halt"}
             || |words| < Needs(words[0])
    ensures Typed(m, words, disk) == AfterTick(m)
  {
    hide AfterTick, Typed;
    TurnTakes(m, words, disk);
  }

  // ---------- mkdir and touch ----------

  // The conditions under which a create succeeds.
  predicate HasRoom(fs: Fs, dir: int, name: Text) {
    && Valid(fs.table, dir) && fs.table[dir].kind == INODE_DIR && |fs.table[dir].Kids()| < 16 && fs.next < 128
    && forall k | k in fs.table[dir].Kids() && Valid(fs.table, k) :: fs.table[k].name != name
  }

  // From fs to fs' the entry id has been made at the end of directory dir, and nothing else has changed.
  ghost predicate MadeIn(fs: Fs, fs': Fs, dir: int, id: int, name: Text, kind: int) {
    var t, t' := fs.table, fs'.table;
    && Valid(t, dir) && Valid(t, id) && |t'| == |t| && id == fs.next && fs'.next == id + 1
    && t'[id].active && t'[id].name == name && t'[id].kind == kind && t'[id].parent == dir && t'[id].Kids() == []
    && id !in fs'.texts && fs'.texts == fs.texts && fs'.chain == fs.chain
    && t'[dir].Kids() == t[dir].Kids() + [id] && Lookup(t', dir, name) == id
    && t'[dir] == t[dir].(children := t'[dir].children, childCount := t'[dir].childCount)
    && forall i | 0 <= i < |t| && i != dir && i != id :: t'[i] == t[i]
  }

  lemma CreateMeaning(fs: Fs, dir: int, name: Text, kind: int)
    requires Inv(fs) && GoodName(name) && kind in {INODE_FILE, INODE_DIR}
    ensures var fs' := Create(fs, dir, name, kind).0;
            if HasRoom(fs, dir, name) then MadeIn(fs, fs', dir, fs.next, name, kind) else fs' == fs
  {
    CreateSucceeds(fs, dir, name, kind);
    KidsAreValid(fs, dir);
    if CanCreate(fs, dir, name) {
      InvIsSane(fs);
      NothingInNext(fs);
      hide Inv, Lookup;
      CreatedAt(fs, dir, name, kind);
    }
  }

  lemma NothingInNext(fs: Fs)
    requires Inv(fs)
    ensures Tree(fs.table, fs.next) && fs.next !in fs.texts
  {
    assert fs.next in fs.texts ==> Holds(fs, fs.next);
  }

  lemma KidsAreValid(fs: Fs, dir: int)
    requires Inv(fs)
    ensures Valid(fs.table, dir) ==> forall k | k in fs.table[dir].Kids() :: IsChild(fs.table, dir, k)
  {
  }

  lemma CreatedAt(fs: Fs, dir: int, name: Text, kind: int)
    requires Tree(fs.table, fs.next) && CanCreate(fs, dir, name) && fs.next !in fs.texts
    requires GoodName(name) && kind in {INODE_FILE, INODE_DIR}
    ensures MadeIn(fs, Create(fs, dir, name, kind).0, dir, fs.next, name, kind)
  {
    hide Lookup, Shape, SiblingsDiffer;
    CreatedSlot(fs, dir, name, kind);
    CreateShape(fs, dir, name, kind);
    CreateLookup(fs, dir, name, kind, dir, name);
  }

  // mkdir makes a directory and touch a file of that name in the current directory, as its last child, exactly when
  // there is room and the name is free; otherwise nothing changes.
  lemma TypedCreate(m: Machine, words: seq<Text>, disk: bool)
    requires m.running && MachineInv(m) && Words(words) && |words| >= 2 && GoodName(words[1])
    requires words[0] in {"mkdir", "touch"}
    ensures var m' := Typed(m, words, disk);
            var kind := if words[0] == "mkdir" then INODE_DIR else INODE_FILE;
            && m' == AfterTick(m.(fs := m'.fs))
            && if HasRoom(m.fs, m.cwd, words[1]) then MadeIn(m.fs, m'.fs, m.cwd, m.fs.next, words[1], kind)
               else m'.fs == m.fs
  {
    hide MadeIn, HasRoom, Create, Typed, Inv, Words;
    TurnTakes(m, words, disk);
    CreateMeaning(m.fs, m.cwd, words[1], if words[0] == "mkdir" then INODE_DIR else INODE_FILE);
  }

  // ---------- rm ----------

  // Child k of directory d has this name.
  predicate Named(t: Table, d: int, name: Text, k: int) {
    Valid(t, d) && k in t[d].Kids() && Valid(t, k) && t[k].name == name
  }

  lemma NamedIsFound(fs: Fs, d: int, name: Text)
    requires Inv(fs) && Valid(fs.table, d)
    ensures forall k | Named(fs.table, d, name, k) :: Lookup(fs.table, d, name) == k && IsChild(fs.table, d, k)
    ensures Lookup(fs.table, d, name) == -1 || Named(fs.table, d, name, Lookup(fs.table, d, name))
  {
    hide Owns, Shape, SiblingsDiffer, Lookup;
    LookupExact(fs.table, fs.next, d, name);
    KidsAreValid(fs, d);
  }

  // From fs to fs' inode k has gone from directory d, and nothing else has changed.
  ghost predicate GoneFrom(fs: Fs, fs': Fs, d: int, k: int) {
    var t, t' := fs.table, fs'.table;
    && Valid(t, d) && Valid(t, k) && |t'| == |t| && fs'.next == fs.next
    && !t'[k].active && fs'.texts == fs.texts - {k}
    && (forall j :: j in t'[d].Kids() <==> j in t[d].Kids() && j != k)
    && (forall i | 0 <= i < |t| && i != k && t[i].active :: Intact(t, t', i))
    && forall i | 0 <= i < |t| && i != k && i != d :: t'[i] == t[i]
  }

  lemma DeleteMeaning(fs: Fs, d: int, k: int)
    requires Inv(fs) && Valid(fs.table, d) && IsChild(fs.table, d, k) && k in fs.table[d].Kids()
    ensures var fs' := Delete(fs, k).0;
            if fs.table[k].Kids() == [] then GoneFrom(fs, fs', d, k) else fs' == fs
  {
    hide Owns, Shape, SiblingsDiffer;
    DeleteSucceeds(fs, k);
    if CanDelete(fs, k) {
      DeleteShape(fs, k);
      DeleteNames(fs, k);
      DroppedMeaning(fs, k);
      forall j ensures j in Delete(fs, k).0.table[d].Kids() <==> j in fs.table[d].Kids() && j != k {
        DeleteKids(fs, k, d, j);
      }
    }
  }

  lemma DroppedMeaning(fs: Fs, k: int)
    requires Inv(fs) && Valid(fs.table, k) && fs.table[k].active
    ensures Dropped(fs, k).texts == fs.texts - {k} && Dropped(fs, k).next == fs.next
  {
    if k in fs.texts { assert Holds(fs, k); }
  }

  // rm removes the child of that name if it is a file or an empty directory; otherwise nothing changes.
  lemma TypedRemove(m: Machine, words: seq<Text>, disk: bool)
    requires m.running && MachineInv(m) && Words(words) && |words| >= 2 && words[0] == "rm"
    ensures var m', t := Typed(m, words, disk), m.fs.table;
            && m' == AfterTick(m.(fs := m'.fs))
            && (forall k | Named(t, m.cwd, words[1], k) ::
                  if t[k].Kids() == [] then GoneFrom(m.fs, m'.fs, m.cwd, k) else m'.fs == m.fs)
            && ((forall k :: !Named(t, m.cwd, words[1], k)) ==> m'.fs == m.fs)
  {
    hide GoneFrom, Named, Delete, Typed, Inv, Words, Lookup;
    TurnTakes(m, words, disk);
    NamedIsFound(m.fs, m.cwd, words[1]);
    forall k | Named(m.fs.table, m.cwd, words[1], k)
      ensures IsChild(m.fs.table, m.cwd, k) && k in m.fs.table[m.cwd].Kids()
      ensures if m.fs.table[k].Kids() == [] then GoneFrom(m.fs, Delete(m.fs, k).0, m.cwd, k)
              else Delete(m.fs, k).0 == m.fs
    {
      NamedMeans(m.fs.table, m.cwd, words[1], k);
      DeleteMeaning(m.fs, m.cwd, k);
    }
  }

  lemma NamedMeans(t: Table, d: int, name: Text, k: int)
    requires Named(t, d, name, k)
    ensures Valid(t, d) && k in t[d].Kids() && Valid(t, k) && t[k].name == name
  {
  }

  // ---------- write ----------

  // write stores the remaining words, joined by single blanks, in the file of that name if there is one and a block is
  // large enough, and empties it if none is; otherwise nothing changes.
  lemma TypedWrite(m: Machine, words: seq<Text>, disk: bool)
    requires m.running && MachineInv(m) && Words(words) && |words| >= 3 && words[0] == "write"
    ensures var m', t, text := Typed(m, words, disk), m.fs.table, Join(words[2..], ' ');
            && m' == AfterTick(m.(fs := m'.fs))
            && (forall k | Named(t, m.cwd, words[1], k) && t[k].kind == INODE_FILE ::
                  && CanWrite(m.fs, k)
                  && Read(m'.fs, k)
                     == (if CanServe(Dropped(m.fs, k).chain, |text| + 1) then (|text| + 1, text) else (0, []))
                  && forall i | i != k :: Read(m'.fs, i) == Read(m.fs, i))
            && ((forall k | Named(t, m.cwd, words[1], k) :: t[k].kind != INODE_FILE) ==> m'.fs == m.fs)
  {
    hide Named, Write, Read, Typed, Inv, Words, Lookup, Join, CanServe, Dropped;
    var text := Join(words[2..], ' ');
    TurnTakes(m, words, disk);
    JoinedHasNoNul(words, 2);
    NamedIsFound(m.fs, m.cwd, words[1]);
    forall k | Named(m.fs.table, m.cwd, words[1], k) && m.fs.table[k].kind == INODE_FILE
      ensures CanWrite(m.fs, k)
      ensures var fs' := Write(m.fs, k, text).0;
              && Read(fs', k) == (if CanServe(Dropped(m.fs, k).chain, |text| + 1) then (|text| + 1, text) else (0, []))
              && forall i | i != k :: Read(fs', i) == Read(m.fs, i)
    {
      NamedMeans(m.fs.table, m.cwd, words[1], k);
      WriteThenRead(m.fs, k, text);
      forall i | i != k ensures Read(Write(m.fs, k, text).0, i) == Read(m.fs, i) {
        OtherReads(m.fs, k, text, i);
      }
    }
    if forall k | Named(m.fs.table, m.cwd, words[1], k) :: m.fs.table[k].kind != INODE_FILE {
      var id := Lookup(m.fs.table, m.cwd, words[1]);
      assert id == -1 || Named(m.fs.table, m.cwd, words[1], id);
    }
  }

  lemma JoinedHasNoNul(words: seq<Text>, k: nat)
    requires Words(words) && k <= |words|
    ensures NUL !in Join(words[k..], ' ')
  {
    hide Join;
    JoinPrintable(words[k..]);
  }

  lemma OtherReads(fs: Fs, id: int, text: Text, i: int)
    requires Inv(fs) && NUL !in text && i != id
    ensures Read(Write(fs, id, text).0, i) == Read(fs, i)
  {
    hide Inv, AfterDealloc, AfterAlloc, AllocResult;
  }

  // ---------- cd ----------

  lemma CdStays(m: Machine, words: seq<Text>, disk: bool, dir: int)
    requires m.running && Words(words) && words[0] == "cd" && Step(m, CdCommand(words), disk) == m.(cwd := dir)
    ensures Typed(m, words, disk) == AfterTick(m.(cwd := dir))
  {
    hide AfterTick, Typed, AreWords, Printable, CdCommand;
    TurnTakes(m, words, disk);
  }

  // cd alone goes to inode 3, cd / to the root and cd .. to the parent, or to the root where there is none.
  lemma TypedCdSpecial(m: Machine, words: seq<Text>, disk: bool)
    requires m.running && MachineInv(m) && Words(words) && words[0] == "cd"
    ensures |words| == 1 ==> Typed(m, words, disk) == AfterTick(m.(cwd := 3))
    ensures |words| >= 2 && words[1] == "/" ==> Typed(m, words, disk) == AfterTick(m.(cwd := 0))
    ensures |words| >= 2 && words[1] == ".." ==>
              Typed(m, words, disk) == AfterTick(m.(cwd := if m.cwd == 0 then 0 else m.fs.table[m.cwd].parent))
  {
    hide AfterTick, Typed, AreWords, Printable, Owns, Shape, SiblingsDiffer;
    assert ParentsBelow(m.fs.table);
    if |words| == 1 {
      CdStays(m, words, disk, 3);
    } else if words[1] == "/" {
      CdStays(m, words, disk, 0);
    } else if words[1] == ".." {
      CdStays(m, words, disk, if m.cwd == 0 then 0 else m.fs.table[m.cwd].parent);
    }
  }

  // cd to a name goes to the child directory of that name; where there is no child of that name, or it is a file, the
  // current directory stays.
  lemma TypedCdName(m: Machine, words: seq<Text>, disk: bool)
    requires m.running && MachineInv(m) && Words(words) && words[0] == "cd" && |words| >= 2
    requires words[1] != ".." && words[1] != "/"
    ensures var t, m' := m.fs.table, Typed(m, words, disk);
            && (forall k | Named(t, m.cwd, words[1], k) && t[k].kind == INODE_DIR ::
                  t[k].active && m' == AfterTick(m.(cwd := k)))
            && ((forall k | Named(t, m.cwd, words[1], k) :: t[k].kind != INODE_DIR) ==> m' == AfterTick(m))
  {
    hide AfterTick, Typed, AreWords, Printable, Named, Lookup, Inv;
    var t, id := m.fs.table, Lookup(m.fs.table, m.cwd, words[1]);
    NamedIsFound(m.fs, m.cwd, words[1]);
    if id != -1 && Valid(t, id) && t[id].kind == INODE_DIR {
      CdStays(m, words, disk, id);
    } else {
      CdStays(m, words, disk, m.cwd);
    }
    forall k | Named(t, m.cwd, words[1], k) ensures Valid(t, k) && t[k].active && id == k {
      NamedMeans(t, m.cwd, words[1], k);
    }
  }

  // ---------- save, load, exit and halt ----------

  lemma TypedSave(m: Machine, words: seq<Text>, disk: bool)
    requires m.running && Words(words) && words[0] == "save"
    ensures Typed(m, words, disk) == AfterTick(if disk then m.(image := Image(m.fs, m.procs)) else m)
  {
    hide AfterTick, Typed, AreWords, Printable;
    TurnTakes(m, words, disk);
  }

  // load brings back everything but the id counter, the current directory and the clock.
  lemma TypedLoad(m: Machine, words: seq<Text>, disk: bool)
    requires m.running && Words(words) && words[0] == "load"
    ensures !disk || m.image.NoImage? ==> Typed(m, words, disk) == AfterTick(m)
    ensures disk && m.image.Image? ==>
              var fs := Fs(m.image.fs.table, m.fs.next, m.image.fs.chain, m.image.fs.texts);
              Typed(m, words, disk) == AfterTick(m.(fs := fs, procs := m.image.procs))
  {
    hide AfterTick, Typed, AreWords, Printable;
    TurnTakes(m, words, disk);
  }

  // exit stops the shell after one more tick; every further line is ignored.
  lemma TypedExit(m: Machine, words: seq<Text>, disk: bool, later: Input)
    requires m.running && Words(words) && words[0] == "exit"
    ensures Typed(m, words, disk) == AfterTick(m.(running := false))
    ensures Turn(Typed(m, words, disk), later) == Typed(m, words, disk)
  {
    hide Typed, AreWords, Printable, Parse, AfterTick, Turn;
    ParseExit(words);
    TurnTakes(m, words, disk);
    TickMeaning(m.(running := false));
    StoppedTurn(Typed(m, words, disk), later);
  }

  lemma ParseExit(words: seq<Text>)
    requires words != [] && words[0] in {"exit", "halt"}
    ensures Parse(words) == if words[0] == "exit" then Exit else Halt
  {
  }

  // halt stops the shell, too, and leaves RAM with no inode in use, no text and one free block.
  lemma TypedHalt(m: Machine, words: seq<Text>, disk: bool, later: Input)
    requires m.running && Words(words) && words[0] == "halt"
    ensures var m' := Typed(m, words, disk);
            && !m'.running && Turn(m', later) == m'
            && |m'.fs.table| == 128 && m'.fs.texts == map[] && m'.fs.next == m.fs.next
            && (forall i | 0 <= i < 128 :: !m'.fs.table[i].active && m'.fs.table[i].name == [])
            && m'.fs.chain == [Block(DATA_REGION_OFFSET, DATA_REGION_SIZE - 12, true)]
            && |m'.procs| == 16 && (forall i | 0 <= i < 16 :: m'.procs[i] == Process(0, 0, 0))
            && m'.cwd == m.cwd && m'.ticks == m.ticks + 1 && m'.image == m.image
  {
    hide Typed, AreWords, Printable, Parse, AfterTick, Turn, Step;
    ParseExit(words);
    TurnTakes(m, words, disk);
    var h := Step(m, Halt, disk);
    HaltMeaning(m, disk);
    TickMeaning(h);
    StoppedTurn(Typed(m, words, disk), later);
  }

  lemma HaltMeaning(m: Machine, disk: bool)
    ensures var h := Step(m, Halt, disk);
            && !h.running && |h.fs.table| == 128 && h.fs.texts == map[] && h.fs.next == m.fs.next
            && (forall i | 0 <= i < 128 :: !h.fs.table[i].active && h.fs.table[i].name == [])
            && h.fs.chain == [Block(DATA_REGION_OFFSET, DATA_REGION_SIZE - 12, true)]
            && |h.procs| == 16 && (forall i | 0 <= i < 16 :: h.procs[i] == Process(0, 0, 0))
            && h.cwd == m.cwd && h.ticks == m.ticks && h.image == m.image
  {
  }

  // ---------- sessions ----------

  // A session is the turns of its lines, one after the other.
  lemma SessionIsTurns(start: Machine, inputs: seq<Input>, last: Input)
    ensures Session(start, []) == start
    ensures Session(start, inputs + [last]) == Turn(Session(start, inputs), last)
  {
    assert (inputs + [last])[..|inputs|] == inputs;
  }
}
