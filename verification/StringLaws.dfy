/** What libs/string.c computes, as functions on texts, and how these functions undo one another. */
module StringLaws {
  import opened Layout
  import opened Bytes

  // ---------- splitting and joining ----------

  // The length of the longest prefix without d.
  function RunLength(s: Text, d: Byte): (n: nat)
    ensures n <= |s| && d !in s[..n] && (n < |s| ==> s[n] == d)
  {
    if s == [] || s[0] == d then 0 else 1 + RunLength(s[1..], d)
  }

  // The maximal runs of s without d, in order.
  function Split(s: Text, d: Byte): seq<Text>
    decreases |s|
  {
    if s == [] then []
    else if s[0] == d then Split(s[1..], d)
    else
      var n := RunLength(s, d);
      [s[..n]] + Split(s[n..], d)
  }

  function Join(words: seq<Text>, d: Byte): Text {
    if words == [] then []
    else if |words| == 1 then words[0]
    else words[0] + [d] + Join(words[1..], d)
  }

  predicate IsWord(w: Text, d: Byte) { w != [] && d !in w }

  predicate AreWords(words: seq<Text>, d: Byte) {
    forall i | 0 <= i < |words| :: IsWord(words[i], d)
  }

  lemma {:induction false} RunOfWord(w: Text, rest: Text, d: Byte)
    requires d !in w && (rest != [] ==> rest[0] == d)
    ensures RunLength(w + rest, d) == |w|
  {
    if w == [] {
      assert w + rest == rest;
    } else {
      assert (w + rest)[1..] == w[1..] + rest;
      RunOfWord(w[1..], rest, d);
    }
  }

  // A word up to the end or to a delimiter is the first token.
  lemma SplitWord(w: Text, rest: Text, d: Byte)
    requires IsWord(w, d) && (rest != [] ==> rest[0] == d)
    ensures Split(w + rest, d) == [w] + Split(rest, d)
  {
    var s := w + rest;
    RunOfWord(w, rest, d);
    assert s[0] == w[0] && s[..|w|] == w && s[|w|..] == rest;
  }

  // Splitting undoes joining, for any words.
  lemma {:induction false} SplitJoin(words: seq<Text>, d: Byte)
    requires AreWords(words, d)
    ensures Split(Join(words, d), d) == words
  {
    if |words| == 1 {
      SplitWord(words[0], [], d);
      assert words[0] + [] == words[0];
    } else if |words| > 1 {
      SplitJoin(words[1..], d);
      var tail := Join(words[1..], d);
      SplitWord(words[0], [d] + tail, d);
      assert words[0] + ([d] + tail) == Join(words, d);
      assert ([d] + tail)[1..] == tail;
    }
  }

  // Tokens are words, and there are at most half as many as there are characters, rounded up.
  lemma {:induction false} SplitWords(s: Text, d: Byte)
    ensures AreWords(Split(s, d), d)
    ensures 2 * |Split(s, d)| <= |s| + 1
    decreases |s|
  {
    if s != [] {
      if s[0] == d {
        SplitWords(s[1..], d);
      } else {
        var n := RunLength(s, d);
        SplitWords(s[n..], d);
        if n < |s| {
          SplitWords(s[n + 1..], d);
          assert s[n..][1..] == s[n + 1..];
        }
      }
    }
  }

  function Without(s: Text, d: Byte): Text {
    if s == [] then [] else (if s[0] == d then [] else [s[0]]) + Without(s[1..], d)
  }

  function Concat(words: seq<Text>): Text {
    if words == [] then [] else words[0] + Concat(words[1..])
  }

  lemma {:induction false} WithoutAppend(a: Text, b: Text, d: Byte)
    ensures Without(a + b, d) == Without(a, d) + Without(b, d)
  {
    if a == [] {
      assert a + b == b;
    } else {
      assert (a + b)[1..] == a[1..] + b;
      WithoutAppend(a[1..], b, d);
    }
  }

  lemma {:induction false} WithoutNone(s: Text, d: Byte)
    requires d !in s
    ensures Without(s, d) == s
  {
    if s != [] {
      WithoutNone(s[1..], d);
    }
  }

  // The tokens together are the characters of s other than d: nothing is lost, added or reordered.
  lemma {:induction false} SplitKeeps(s: Text, d: Byte)
    ensures Concat(Split(s, d)) == Without(s, d)
    decreases |s|
  {
    if s != [] {
      if s[0] == d {
        SplitKeeps(s[1..], d);
      } else {
        var n := RunLength(s, d);
        SplitKeeps(s[n..], d);
        assert s == s[..n] + s[n..];
        WithoutAppend(s[..n], s[n..], d);
        WithoutNone(s[..n], d);
        assert ([s[..n]] + Split(s[n..], d))[1..] == Split(s[n..], d);
      }
    }
  }

  // ---------- trimming ----------

  predicate IsSpace(c: Byte) { c == ' ' || c == '\t' || c == '\n' || c == '\r' }

  function Lead(s: Text): (n: nat)
    ensures n <= |s| && (forall i | 0 <= i < n :: IsSpace(s[i])) && (n < |s| ==> !IsSpace(s[n]))
  {
    if s != [] && IsSpace(s[0]) then 1 + Lead(s[1..]) else 0
  }

  function Trail(s: Text): (n: nat)
    ensures n <= |s| && (forall i | |s| - n <= i < |s| :: IsSpace(s[i])) && (n < |s| ==> !IsSpace(s[|s| - n - 1]))
  {
    if s != [] && IsSpace(s[|s| - 1]) then 1 + Trail(s[..|s| - 1]) else 0
  }

  function Trim(s: Text): Text {
    var t := s[Lead(s)..];
    t[..|t| - Trail(t)]
  }

  predicate AllAre(s: Text, d: Byte) {
    forall i | 0 <= i < |s| :: s[i] == d
  }

  // All whitespace that trimming takes away is blanks.
  predicate TrimsBlanksOnly(s: Text) {
    var t := s[Lead(s)..];
    AllAre(s[..Lead(s)], ' ') && AllAre(t[|t| - Trail(t)..], ' ')
  }

  lemma {:induction false} SplitLeading(a: Text, s: Text, d: Byte)
    requires AllAre(a, d)
    ensures Split(a + s, d) == Split(s, d)
  {
    if a == [] {
      assert a + s == s;
    } else {
      assert (a + s)[1..] == a[1..] + s;
      SplitLeading(a[1..], s, d);
    }
  }

  lemma {:induction false} SplitTrailing(s: Text, b: Text, d: Byte)
    requires AllAre(b, d)
    ensures Split(s + b, d) == Split(s, d)
    decreases |s|
  {
    if s == [] {
      SplitLeading(b, [], d);
      assert s + b == b + [];
    } else if s[0] == d {
      assert (s + b)[1..] == s[1..] + b;
      SplitTrailing(s[1..], b, d);
    } else {
      var n := RunLength(s, d);
      SplitTrailing(s[n..], b, d);
      assert s + b == s[..n] + (s[n..] + b);
      assert s == s[..n] + s[n..];
      SplitWord(s[..n], s[n..] + b, d);
      SplitWord(s[..n], s[n..], d);
    }
  }

  lemma {:induction false} WithoutLength(s: Text, d: Byte)
    ensures |Without(s, d)| == 0 <==> AllAre(s, d)
  {
    if s != [] {
      WithoutLength(s[1..], d);
      assert s == [s[0]] + s[1..];
    }
  }

  // Trimming a line first leaves its tokens alone exactly when it takes away nothing but blanks.
  lemma SplitTrim(s: Text)
    ensures Split(Trim(s), ' ') == Split(s, ' ') <==> TrimsBlanksOnly(s)
  {
    hide Split, Without, Concat, Trim, TrimsBlanksOnly, AllAre;
    var a, b := Trimmed(s);
    var m := Trim(s);
    if TrimsBlanksOnly(s) {
      SplitLeading(a, m + b, ' ');
      SplitTrailing(m, b, ' ');
    } else {
      SplitKeeps(s, ' ');
      SplitKeeps(m, ' ');
      WithoutAppend(a, m + b, ' ');
      WithoutAppend(m, b, ' ');
      WithoutLength(a, ' ');
      WithoutLength(b, ' ');
    }
  }

  // What trimming takes away at either end.
  lemma {:induction false} Trimmed(s: Text) returns (a: Text, b: Text)
    ensures s == a + (Trim(s) + b)
    ensures TrimsBlanksOnly(s) <==> AllAre(a, ' ') && AllAre(b, ' ')
  {
    hide Lead, Trail, AllAre;
    var t := s[Lead(s)..];
    a, b := s[..Lead(s)], t[|t| - Trail(t)..];
    assert t == Trim(s) + b;
  }

  // What read_line lets through: no tabs, no line ends.
  predicate Printable(s: Text) {
    forall c | c in s :: ' ' <= c <= '~'
  }

  lemma PrintableTrims(s: Text)
    requires Printable(s)
    ensures Split(Trim(s), ' ') == Split(s, ' ')
  {
    SplitTrim(s);
    var t := s[Lead(s)..];
    assert forall i | 0 <= i < Lead(s) :: s[i] in s;
    assert forall i | |t| - Trail(t) <= i < |t| :: t[i] == s[Lead(s) + i] && t[i] in s;
  }

  // ---------- comparing ----------

  // A character converted to int.
  function Code(c: Byte): int { if CHAR_IS_SIGNED && c as int >= 0x80 then c as int - 0x100 else c as int }

  function First(s: Text): int { if s == [] then 0 else Code(s[0]) }

  // The difference of the first characters in which two strings differ, the NUL counting as 0.
  function Compare(a: Text, b: Text): int {
    if a == [] || b == [] || a[0] != b[0] then First(a) - First(b) else Compare(a[1..], b[1..])
  }

  lemma {:induction false} CompareZero(a: Text, b: Text)
    requires NUL !in a && NUL !in b
    ensures Compare(a, b) == 0 <==> a == b
  {
    if a != [] && b != [] {
      CompareZero(a[1..], b[1..]);
      assert a == [a[0]] + a[1..] && b == [b[0]] + b[1..];
    }
  }

  // ---------- decimal numbers ----------

  function Digit(n: int): Byte
    requires 0 <= n < 10
  {
    (n + '0' as int) as char
  }

  predicate IsDigit(c: Byte) { '0' <= c <= '9' }

  function Digits(n: nat): Text {
    if n < 10 then [Digit(n)] else Digits(n / 10) + [Digit(n % 10)]
  }

  function Decimal(n: int): Text {
    if n < 0 then ['-'] + Digits(-n) else Digits(n)
  }

  function Skipped(s: Text): Text {
    if s != [] && (s[0] == ' ' || s[0] == '\t') then Skipped(s[1..]) else s
  }

  // The number read so far is acc; reading stops at the first character that is not a digit.
  function Value(s: Text, acc: int): int {
    if s != [] && IsDigit(s[0]) then Value(s[1..], acc * 10 + (s[0] as int - '0' as int)) else acc
  }

  function Unsigned(s: Text): Text {
    if s != [] && (s[0] == '-' || s[0] == '+') then s[1..] else s
  }

  function Magnitude(s: Text): int { Value(Unsigned(Skipped(s)), 0) }

  function ParseInt(s: Text): int {
    var t := Skipped(s);
    if t != [] && t[0] == '-' then -Magnitude(s) else Magnitude(s)
  }

  lemma {:induction false} ValueAppend(a: Text, c: Byte, acc: int)
    requires (forall i | 0 <= i < |a| :: IsDigit(a[i])) && IsDigit(c)
    ensures Value(a + [c], acc) == Value(a, acc) * 10 + (c as int - '0' as int)
  {
    if a == [] {
      assert a + [c] == [c];
    } else {
      assert (a + [c])[1..] == a[1..] + [c];
      ValueAppend(a[1..], c, acc * 10 + (a[0] as int - '0' as int));
    }
  }

  lemma {:induction false} DigitsValue(n: nat)
    ensures Digits(n) != [] && (forall i | 0 <= i < |Digits(n)| :: IsDigit(Digits(n)[i]))
    ensures Value(Digits(n), 0) == n
  {
    if n >= 10 {
      DigitsValue(n / 10);
      ValueAppend(Digits(n / 10), Digit(n % 10), 0);
    }
  }

  function Pow10(k: nat): nat { if k == 0 then 1 else 10 * Pow10(k - 1) }

  lemma {:induction false} DigitsLength(n: nat, k: nat)
    requires 0 < k && n < Pow10(k)
    ensures |Digits(n)| <= k
  {
    if n >= 10 {
      DigitsLength(n / 10, k - 1);
    }
  }

  lemma {:induction false} ValuePrefix(s: Text, k: nat, acc: int)
    requires k <= |s| && acc >= 0 && forall i | 0 <= i < |s| :: IsDigit(s[i])
    ensures acc <= Value(s[..k], acc) <= Value(s, acc)
    decreases |s|
  {
    if s != [] {
      var next := acc * 10 + (s[0] as int - '0' as int);
      if k == 0 {
        ValuePrefix(s[1..], 0, next);
      } else {
        assert s[..k][1..] == s[1..][..k - 1];
        ValuePrefix(s[1..], k - 1, next);
      }
    }
  }

  // Reading back the decimal form of any integer gives that integer, and no value on the way exceeds it: after any
  // number of digits the magnitude read so far is at most that of the integer.
  lemma ParseDecimal(n: int)
    ensures ParseInt(Decimal(n)) == n
    ensures Magnitude(Decimal(n)) == if n < 0 then -n else n
    ensures var digits := Digits(if n < 0 then -n else n);
            forall k | 0 <= k <= |digits| :: 0 <= Value(digits[..k], 0) <= (if n < 0 then -n else n)
  {
    DigitsValue(if n < 0 then -n else n);
    var digits := Digits(if n < 0 then -n else n);
    forall k | 0 <= k <= |digits| ensures 0 <= Value(digits[..k], 0) <= Value(digits, 0) {
      ValuePrefix(digits, k, 0);
    }
    var s := Decimal(n);
    assert Skipped(s) == s;
    if n < 0 {
      assert s[1..] == Digits(-n);
    } else {
      assert IsDigit(s[0]);
    }
  }

  // A 32-bit integer takes at most 11 characters.
  lemma DecimalLength(n: int)
    requires MIN_INT < n <= MAX_INT
    ensures |Decimal(n)| <= 11
  {
    assert Pow10(5) == 100_000;
    assert Pow10(10) == 10_000_000_000;
    DigitsLength(if n < 0 then -n else n, 10);
  }

  // ---------- numbers as written by hand ----------

  // The number a row of decimal digits denotes.
  function Denoted(digits: Text): int {
    if digits == [] then 0
    else 10 * Denoted(digits[..|digits| - 1]) + (digits[|digits| - 1] as int - '0' as int)
  }

  lemma {:induction false} ValueDenotes(digits: Text)
    requires forall i | 0 <= i < |digits| :: '0' <= digits[i] <= '9'
    ensures Value(digits, 0) == Denoted(digits) >= 0
  {
    if digits != [] {
      var k := |digits| - 1;
      assert digits == digits[..k] + [digits[k]];
      ValueDenotes(digits[..k]);
      ValueAppend(digits[..k], digits[k], 0);
    }
  }

  // The decimal form: digits, after a minus sign for a negative number and after nothing otherwise, without leading
  // zeros.
  lemma DecimalForm(n: int)
    ensures n >= 0 ==> Decimal(n) != [] && forall i | 0 <= i < |Decimal(n)| :: '0' <= Decimal(n)[i] <= '9'
    ensures n < 0 ==> |Decimal(n)| > 1 && Decimal(n)[0] == '-'
                      && forall i | 1 <= i < |Decimal(n)| :: '0' <= Decimal(n)[i] <= '9'
    ensures Decimal(n)[if n < 0 then 1 else 0] == '0' <==> n == 0
    ensures Denoted(Decimal(n)[if n < 0 then 1 else 0..]) == if n < 0 then -n else n
  {
    var m := if n < 0 then -n else n;
    DigitsValue(m);
    ValueDenotes(Digits(m));
    LeadingDigit(m);
    assert Decimal(n)[if n < 0 then 1 else 0..] == Digits(m);
  }

  lemma {:induction false} LeadingDigit(n: nat)
    ensures Digits(n) != [] && (Digits(n)[0] == '0' <==> n == 0)
  {
    if n >= 10 {
      LeadingDigit(n / 10);
    }
  }

  lemma {:induction false} OnlyDigits(digits: Text)
    requires digits != [] && forall i | 0 <= i < |digits| :: '0' <= digits[i] <= '9'
    requires digits[0] == '0' ==> |digits| == 1
    ensures Denoted(digits) >= 0 && digits == Digits(Denoted(digits))
    ensures digits[0] != '0' ==> Denoted(digits) > 0
  {
    var k := |digits| - 1;
    var c := digits[k] as int - '0' as int;
    assert digits == digits[..k] + [digits[k]];
    if k > 0 {
      OnlyDigits(digits[..k]);
      var v := Denoted(digits[..k]);
      assert (10 * v + c) / 10 == v && (10 * v + c) % 10 == c;
    } else {
      assert digits[..k] == [];
    }
  }

  // Any text of that form that denotes n is the decimal form of n.
  lemma DecimalUnique(n: int, t: Text)
    requires |t| > (if n < 0 then 1 else 0) && (n < 0 ==> t[0] == '-')
    requires var digits := t[if n < 0 then 1 else 0..];
             && (forall i | 0 <= i < |digits| :: '0' <= digits[i] <= '9')
             && (digits[0] == '0' ==> |digits| == 1)
             && Denoted(digits) == if n < 0 then -n else n
    ensures t == Decimal(n)
  {
    var digits := t[if n < 0 then 1 else 0..];
    OnlyDigits(digits);
    assert n < 0 ==> t == ['-'] + digits;
  }

  lemma {:induction false} SkippedPrefix(blanks: Text, s: Text)
    requires forall i | 0 <= i < |blanks| :: blanks[i] in {' ', '\t'}
    ensures Skipped(blanks + s) == Skipped(s)
  {
    if blanks == [] {
      assert blanks + s == s;
    } else {
      assert (blanks + s)[1..] == blanks[1..] + s;
      SkippedPrefix(blanks[1..], s);
    }
  }

  lemma {:induction false} ValueStops(digits: Text, rest: Text, acc: int)
    requires forall i | 0 <= i < |digits| :: '0' <= digits[i] <= '9'
    requires rest != [] ==> !('0' <= rest[0] <= '9')
    ensures Value(digits + rest, acc) == Value(digits, acc)
  {
    if digits == [] {
      assert digits + rest == rest;
    } else {
      assert (digits + rest)[1..] == digits[1..] + rest;
      ValueStops(digits[1..], rest, acc * 10 + (digits[0] as int - '0' as int));
    }
  }

  // Reading a number: blanks and tabs, at most one sign, digits, and anything that does not begin with a digit.
  lemma ParseMeaning(blanks: Text, sign: Text, digits: Text, rest: Text)
    requires forall i | 0 <= i < |blanks| :: blanks[i] in {' ', '\t'}
    requires sign in {[], ['-'], ['+']}
    requires forall i | 0 <= i < |digits| :: '0' <= digits[i] <= '9'
    requires rest != [] ==> !('0' <= rest[0] <= '9')
    requires rest != [] && sign == [] && digits == [] ==> rest[0] !in {' ', '\t', '-', '+'}
    ensures ParseInt(blanks + (sign + (digits + rest))) == if sign == ['-'] then -Denoted(digits) else Denoted(digits)
  {
    var s := sign + (digits + rest);
    SkippedPrefix(blanks, s);
    assert Skipped(s) == s;
    assert Unsigned(s) == digits + rest;
    ValueStops(digits, rest, 0);
    ValueDenotes(digits);
  }

  // ---------- splitting, trimming and comparing, equation by equation ----------

  lemma {:induction false} SplitAppend(a: Text, b: Text, d: Byte)
    ensures Split(a + ([d] + b), d) == Split(a, d) + Split(b, d)
    decreases |a|
  {
    var s := a + ([d] + b);
    if a == [] {
      assert s[1..] == b;
    } else if a[0] == d {
      assert s[1..] == a[1..] + ([d] + b);
      SplitAppend(a[1..], b, d);
    } else {
      hide Split;
      var n := RunLength(a, d);
      assert a == a[..n] + a[n..];
      assert s == a[..n] + (a[n..] + ([d] + b));
      SplitWord(a[..n], a[n..] + ([d] + b), d);
      SplitWord(a[..n], a[n..], d);
      SplitAppend(a[n..], b, d);
    }
  }

  // Nothing has no tokens, a word is its own token, and a delimiter separates what is before it from what is after it.
  lemma SplitEquations(a: Text, b: Text, d: Byte)
    ensures Split([], d) == []
    ensures a != [] && d !in a ==> Split(a, d) == [a]
    ensures Split(a + ([d] + b), d) == Split(a, d) + Split(b, d)
  {
    SplitAppend(a, b, d);
    if a != [] && d !in a {
      SplitWord(a, [], d);
      assert a + [] == a;
    }
  }

  // Trimming takes away blanks, tabs and line ends on both sides, nothing else, and leaves none of them at either end.
  lemma TrimMeaning(s: Text) returns (a: Text, b: Text)
    ensures s == a + (Trim(s) + b)
    ensures forall i | 0 <= i < |a| :: a[i] in {' ', '\t', '\n', '\r'}
    ensures forall i | 0 <= i < |b| :: b[i] in {' ', '\t', '\n', '\r'}
    ensures Trim(s) != [] ==> Trim(s)[0] !in {' ', '\t', '\n', '\r'}
    ensures Trim(s) != [] ==> Trim(s)[|Trim(s)| - 1] !in {' ', '\t', '\n', '\r'}
  {
    hide Lead, Trail;
    var t := s[Lead(s)..];
    a, b := s[..Lead(s)], t[|t| - Trail(t)..];
    assert t == Trim(s) + b;
    if Trim(s) != [] {
      assert Trim(s)[|Trim(s)| - 1] == t[|t| - Trail(t) - 1];
      assert Trim(s)[0] == t[0] == s[Lead(s)];
    }
  }

  // A common beginning does not matter; then the first characters decide, and a missing one counts as 0.
  lemma {:induction false} CompareMeaning(p: Text, a: Text, b: Text)
    requires a == [] || b == [] || a[0] != b[0]
    requires forall c | c in a + b :: 0 < c as int < 0x80
    ensures Compare(p + a, p + b) == (if a == [] then 0 else a[0] as int) - (if b == [] then 0 else b[0] as int)
    decreases |p|
  {
    if p == [] {
      assert p + a == a && p + b == b;
      assert a != [] ==> a[0] in a + b;
      assert b != [] ==> b[0] in a + b;
    } else {
      assert (p + a)[1..] == p[1..] + a && (p + b)[1..] == p[1..] + b;
      CompareMeaning(p[1..], a, b);
    }
  }
}
