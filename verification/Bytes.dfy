/** Bytes of virtual RAM: 32-bit integers in little-endian two's complement, and NUL-terminated strings. */
module Bytes {
  import opened Layout

  type Byte = c: char | c as int < 256 witness '\0'
  type Text = seq<Byte>

  const NUL: Byte := '\0'

  // s and t hold the same bytes from lo up to hi.
  predicate Agree(s: seq<Byte>, t: seq<Byte>, lo: int, hi: int) {
    |s| == |t| && forall p | 0 <= p < |s| && lo <= p < hi :: s[p] == t[p]
  }

  // s and t differ at most from lo up to hi.
  predicate AgreeOutside(s: seq<Byte>, t: seq<Byte>, lo: int, hi: int) {
    |s| == |t| && forall p | 0 <= p < |s| && !(lo <= p < hi) :: s[p] == t[p]
  }

  // ---------- integers ----------

  function Signed(u: int): int {
    if u <= MAX_INT then u else u - 0x1_0000_0000
  }

  function IntAt(s: seq<Byte>, o: int): (v: int)
    requires 0 <= o && o + 4 <= |s|
    ensures MIN_INT <= v <= MAX_INT
  {
    Signed(s[o] as int + 0x100 * s[o + 1] as int + 0x1_0000 * s[o + 2] as int + 0x100_0000 * s[o + 3] as int)
  }

  lemma ByteDigits(u: int)
    requires 0 <= u < 0x1_0000_0000
    ensures u % 0x100 + 0x100 * (u / 0x100 % 0x100) + 0x1_0000 * (u / 0x1_0000 % 0x100)
            + 0x100_0000 * (u / 0x100_0000) == u
    ensures 0 <= u / 0x100_0000 < 0x100
  {
    var a := u / 0x100;
    var b := a / 0x100;
    assert u / 0x1_0000 == b;
    assert u / 0x100_0000 == b / 0x100;
  }

  // The assignment of an int through a pointer into a.
  method PutInt(a: array<Byte>, o: int, v: int)
    requires 0 <= o && o + 4 <= a.Length
    requires MIN_INT <= v <= MAX_INT
    modifies a
    ensures IntAt(a[..], o) == v
    ensures AgreeOutside(old(a[..]), a[..], o, o + 4)
  {
    var u := if v < 0 then v + 0x1_0000_0000 else v;
    ByteDigits(u);
    var b0, b1, b2, b3 := u % 0x100, u / 0x100 % 0x100, u / 0x1_0000 % 0x100, u / 0x100_0000;
    a[o] := b0 as char;
    a[o + 1] := b1 as char;
    a[o + 2] := b2 as char;
    a[o + 3] := b3 as char;
    assert a[..][o] == b0 as char && a[..][o + 1] == b1 as char;
    assert a[..][o + 2] == b2 as char && a[..][o + 3] == b3 as char;
  }

  // ---------- strings ----------

  // The C string at o: the bytes up to the first NUL.
  function CStr(s: seq<Byte>, o: int): (t: Text)
    requires 0 <= o <= |s|
    decreases |s| - o
  {
    if o == |s| || s[o] == NUL then [] else [s[o]] + CStr(s, o + 1)
  }

  // A pointer to a properly terminated string.
  predicate Terminated(s: seq<Byte>, o: int) {
    0 <= o < |s| && o + |CStr(s, o)| < |s|
  }

  // Text t lies at o, followed by a NUL.
  predicate IsCStr(s: seq<Byte>, o: int, t: Text) {
    && 0 <= o && o + |t| < |s| && s[o + |t|] == NUL
    && forall k | 0 <= k < |t| :: s[o + k] == t[k] && t[k] != NUL
  }

  // Character i of a string; the NUL comes right after the last one.
  lemma CharAt(s: seq<Byte>, o: int, t: Text, i: int)
    requires IsCStr(s, o, t) && 0 <= i <= |t|
    ensures if i < |t| then s[o + i] == t[i] && t[i] != NUL else s[o + i] == NUL
  {
  }

  // The string constant t as it lies in memory.
  function Lit(t: Text): seq<Byte> { t + [NUL] }

  lemma {:induction false} CStrIs(s: seq<Byte>, o: int, t: Text)
    requires IsCStr(s, o, t)
    ensures CStr(s, o) == t && Terminated(s, o)
    decreases |t|
  {
    if t != [] {
      assert s[o + 0] == t[0];
      assert forall k | 0 <= k < |t| - 1 :: s[o + 1 + k] == s[o + (k + 1)] == t[k + 1] == t[1..][k];
      CStrIs(s, o + 1, t[1..]);
      assert t == [t[0]] + t[1..];
    }
  }

  lemma {:induction false} CStrFacts(s: seq<Byte>, o: int)
    requires Terminated(s, o)
    ensures IsCStr(s, o, CStr(s, o))
    ensures NUL !in CStr(s, o)
    decreases |s| - o
  {
    if s[o] != NUL {
      CStrFacts(s, o + 1);
      var t, u := CStr(s, o), CStr(s, o + 1);
      forall k | 0 <= k < |t| ensures s[o + k] == t[k] && t[k] != NUL {
        if k > 0 { assert t[k] == u[k - 1] && s[o + 1 + (k - 1)] == u[k - 1]; }
      }
    }
  }

  lemma CStrLit(t: Text)
    requires NUL !in t
    ensures CStr(Lit(t), 0) == t && Terminated(Lit(t), 0)
  {
    assert forall k | 0 <= k < |t| :: t[k] in t;
    CStrIs(Lit(t), 0, t);
  }

  // A string does not change while its bytes, the NUL included, do not.
  lemma CStrFrame(s: seq<Byte>, t: seq<Byte>, o: int)
    requires Terminated(s, o) && Agree(s, t, o, o + |CStr(s, o)| + 1)
    ensures CStr(t, o) == CStr(s, o) && Terminated(t, o)
  {
    CStrFacts(s, o);
    CStrIs(t, o, CStr(s, o));
  }
}
