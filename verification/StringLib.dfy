/**
 libs/string.c: loops over characters in memory. A `char *` that is written through is an array with an offset into
 it; a `const char *` is the sequence of bytes it points into with an offset.
 */
module StringLib {
  import opened Layout
  import opened Bytes
  import opened StringLaws

  method StrLen(s: seq<Byte>, o: int) returns (len: int)
    requires Terminated(s, o)
    ensures len == |CStr(s, o)|
  {
    CStrFacts(s, o);
    hide CStr;
    len := 0;
    while s[o + len] != NUL
      invariant 0 <= len <= |CStr(s, o)|
      decreases |CStr(s, o)| - len
    {
      CharAt(s, o, CStr(s, o), len);
      len := len + 1;
    }
    CharAt(s, o, CStr(s, o), len);
  }

  method StrCpy(dst: array<Byte>, d: int, src: seq<Byte>, o: int)
    requires Terminated(src, o) && 0 <= d && d + |CStr(src, o)| < dst.Length
    modifies dst
    ensures CStr(dst[..], d) == CStr(src, o) && Terminated(dst[..], d)
    ensures AgreeOutside(old(dst[..]), dst[..], d, d + |CStr(src, o)| + 1)
  {
    CStrFacts(src, o);
    ghost var x := CStr(src, o);
    hide CStr;
    var i := 0;
    while src[o + i] != NUL
      invariant 0 <= i <= |x|
      invariant forall k | 0 <= k < i :: dst[d + k] == x[k]
      invariant AgreeOutside(old(dst[..]), dst[..], d, d + i)
      decreases |x| - i
    {
      CharAt(src, o, x, i);
      dst[d + i] := src[o + i];
      i := i + 1;
    }
    CharAt(src, o, x, i);
    dst[d + i] := NUL;
    CStrIs(dst[..], d, x);
  }

  method StrCmp(a: seq<Byte>, i0: int, b: seq<Byte>, j0: int) returns (r: int)
    requires Terminated(a, i0) && Terminated(b, j0)
    ensures r == Compare(CStr(a, i0), CStr(b, j0))
    ensures r == 0 <==> CStr(a, i0) == CStr(b, j0)
  {
    ghost var x, y := CStr(a, i0), CStr(b, j0);
    CStrFacts(a, i0);
    CStrFacts(b, j0);
    CompareZero(x, y);
    hide CStr;
    var i := 0;
    while a[i0 + i] != NUL && b[j0 + i] != NUL
      invariant 0 <= i <= |x| && i <= |y|
      invariant Compare(x, y) == Compare(x[i..], y[i..])
      decreases |x| - i
    {
      if a[i0 + i] != b[j0 + i] {
        return Code(a[i0 + i]) - Code(b[j0 + i]);
      }
      assert x[i..][1..] == x[i + 1..] && y[i..][1..] == y[i + 1..];
      i := i + 1;
    }
    r := Code(a[i0 + i]) - Code(b[j0 + i]);
  }

  method StrCat(dst: array<Byte>, d: int, src: seq<Byte>, o: int)
    requires Terminated(dst[..], d) && Terminated(src, o)
    requires d + |CStr(dst[..], d)| + |CStr(src, o)| < dst.Length
    modifies dst
    ensures CStr(dst[..], d) == old(CStr(dst[..], d)) + CStr(src, o) && Terminated(dst[..], d)
    ensures AgreeOutside(old(dst[..]), dst[..], d, d + |CStr(dst[..], d)| + 1)
  {
    ghost var x, y := CStr(dst[..], d), CStr(src, o);
    CStrFacts(dst[..], d);
    CStrFacts(src, o);
    hide CStr;
    var dstLen := StrLen(dst[..], d);
    var i := 0;
    while src[o + i] != NUL
      invariant 0 <= i <= |y|
      invariant forall k | 0 <= k < |x| :: dst[d + k] == x[k]
      invariant forall k | 0 <= k < i :: dst[d + dstLen + k] == y[k]
      invariant AgreeOutside(old(dst[..]), dst[..], d, d + dstLen + i)
      decreases |y| - i
    {
      CharAt(src, o, y, i);
      dst[d + dstLen + i] := src[o + i];
      i := i + 1;
    }
    CharAt(src, o, y, i);
    dst[d + dstLen + i] := NUL;
    Appended(dst[..], d, x, y);
  }

  lemma Appended(s: seq<Byte>, d: int, x: Text, y: Text)
    requires 0 <= d && d + |x| + |y| < |s| && s[d + |x| + |y|] == NUL
    requires forall k | 0 <= k < |x| :: s[d + k] == x[k] && x[k] != NUL
    requires forall k | 0 <= k < |y| :: s[d + |x| + k] == y[k] && y[k] != NUL
    ensures CStr(s, d) == x + y && Terminated(s, d)
  {
    forall k | |x| <= k < |x| + |y| ensures s[d + k] == (x + y)[k] && (x + y)[k] != NUL {
      assert s[d + |x| + (k - |x|)] == y[k - |x|];
    }
    CStrIs(s, d, x + y);
  }

  // ---------- the tokenizer ----------

  // Token w of the original text s starts at b and ends at a delimiter or at the end.
  predicate TokenAt(s: Text, d: Byte, b: int, w: Text) {
    && 0 <= b && b + |w| <= |s| && s[b..b + |w|] == w && IsWord(w, d)
    && (b + |w| < |s| ==> s[b + |w|] == d)
  }

  // The buffer while the first i characters of s have been scanned: delimiters are blotted out with NULs.
  predicate Blotted(t: seq<Byte>, s: Text, d: Byte, i: int) {
    && 0 <= i <= |s| < |t| && t[|s|] == NUL
    && forall p | 0 <= p < |s| :: t[p] == if p < i && s[p] == d then NUL else s[p]
  }

  lemma BlotBegins(t: seq<Byte>, s: Text, d: Byte)
    requires IsCStr(t, 0, s)
    ensures Blotted(t, s, d, 0)
  {
    assert forall k | 0 <= k < |s| :: t[0 + k] == s[k];
  }

  lemma BlotStep(t: seq<Byte>, s: Text, d: Byte, i: int)
    requires Blotted(t, s, d, i) && i < |s|
    ensures |s| < |t| && t[i] == s[i]
    ensures if s[i] == d then Blotted(t[i := NUL], s, d, i + 1) else Blotted(t, s, d, i + 1)
  {
  }

  lemma TokenReads(t: seq<Byte>, s: Text, d: Byte, b: int, w: Text)
    requires NUL !in s && Blotted(t, s, d, |s|) && TokenAt(s, d, b, w)
    ensures 0 <= b < |t| && CStr(t, b) == w && Terminated(t, b)
  {
    assert forall p | 0 <= p < |w| :: s[b + p] == s[b..b + |w|][p] && w[p] in w && s[b + p] in s;
    CStrIs(t, b, w);
  }

  // The scan has reached position i: the finished words, and where each token started, the open one included.
  ghost predicate Scanned(s: Text, d: Byte, i: int, words: seq<Text>, starts: seq<int>, inToken: bool) {
    var open := |starts| - 1;
    && 0 <= i <= |s|
    && |starts| == |words| + (if inToken then 1 else 0)
    && (inToken ==> 0 <= starts[open] < i && d !in s[starts[open]..i])
    && Split(s, d) == words + Split(s[if inToken then starts[open] else i..], d)
    && forall k | 0 <= k < |words| :: TokenAt(s, d, starts[k], words[k])
  }

  lemma OpenToken(s: Text, d: Byte, b: int, i: int)
    requires 0 <= b < i <= |s| && d !in s[b..i] && (i < |s| ==> s[i] == d)
    ensures TokenAt(s, d, b, s[b..i])
  {
  }

  // The open token ends at i.
  lemma {:induction false} ScanEnds(s: Text, d: Byte, i: int, words: seq<Text>, starts: seq<int>)
    returns (words': seq<Text>)
    requires Scanned(s, d, i, words, starts, true) && (i < |s| ==> s[i] == d)
    ensures Scanned(s, d, i, words', starts, false)
  {
    hide Split, IsWord;
    var b := starts[|starts| - 1];
    var w := s[b..i];
    words' := words + [w];
    assert s[b..] == w + s[i..];
    SplitWord(w, s[i..], d);
    OpenToken(s, d, b, i);
    assert words + ([w] + Split(s[i..], d)) == words' + Split(s[i..], d);
  }

  lemma ScanSkips(s: Text, d: Byte, i: int, words: seq<Text>, starts: seq<int>)
    requires Scanned(s, d, i, words, starts, false) && i < |s| && s[i] == d
    ensures Scanned(s, d, i + 1, words, starts, false)
  {
    assert s[i..][1..] == s[i + 1..];
  }

  lemma ScanStarts(s: Text, d: Byte, i: int, words: seq<Text>, starts: seq<int>)
    requires Scanned(s, d, i, words, starts, false) && i < |s| && s[i] != d
    ensures Scanned(s, d, i + 1, words, starts + [i], true)
  {
  }

  lemma ScanGoesOn(s: Text, d: Byte, i: int, words: seq<Text>, starts: seq<int>)
    requires Scanned(s, d, i, words, starts, true) && i < |s| && s[i] != d
    ensures Scanned(s, d, i + 1, words, starts, true)
  {
  }

  // One turn of the loop of my_tokenize.
  lemma ScanStep(s: Text, d: Byte, i: int, words: seq<Text>, starts: seq<int>, inToken: bool)
    returns (words': seq<Text>, starts': seq<int>)
    requires Scanned(s, d, i, words, starts, inToken) && i < |s|
    ensures Scanned(s, d, i + 1, words', starts', s[i] != d)
    ensures starts' == if s[i] != d && !inToken then starts + [i] else starts
    ensures |starts'| <= |Split(s, d)|
  {
    words', starts' := words, starts;
    if s[i] == d {
      if inToken { words' := ScanEnds(s, d, i, words, starts); }
      ScanSkips(s, d, i, words', starts);
    } else if inToken {
      ScanGoesOn(s, d, i, words, starts);
    } else {
      ScanStarts(s, d, i, words, starts);
      starts' := starts + [i];
    }
    ScanCount(s, d, i + 1, words', starts', s[i] != d);
  }

  method Tokenize(input: array<Byte>, tokens: array<int>, delim: Byte) returns (count: int)
    requires Terminated(input[..], 0)
    requires |Split(CStr(input[..], 0), delim)| <= tokens.Length
    modifies input, tokens
    ensures count == |Split(old(CStr(input[..], 0)), delim)|
    ensures forall k | 0 <= k < count :: 0 <= tokens[k] < input.Length && Terminated(input[..], tokens[k])
                                         && CStr(input[..], tokens[k]) == Split(old(CStr(input[..], 0)), delim)[k]
  {
    ghost var s := CStr(input[..], 0);
    CStrFacts(input[..], 0);
    hide CStr, Split, Scanned, TokenAt, Blotted;
    BlotBegins(input[..], s, delim);
    ghost var words, starts;
    var len := StrLen(input[..], 0);
    count, words, starts := Scan(input, tokens, delim, len, s);
    ScanDone(input[..], s, delim, words, starts);
  }

  // The loop of my_tokenize.
  method Scan(input: array<Byte>, tokens: array<int>, delim: Byte, len: int, ghost s: Text)
    returns (count: int, ghost words: seq<Text>, ghost starts: seq<int>)
    requires len == |s| && Blotted(input[..], s, delim, 0) && |Split(s, delim)| <= tokens.Length
    modifies input, tokens
    ensures count == |starts| <= tokens.Length && forall k | 0 <= k < count :: tokens[k] == starts[k]
    ensures Blotted(input[..], s, delim, len) && Scanned(s, delim, len, words, starts, false)
  {
    hide CStr, Split, Scanned, TokenAt, Blotted;
    words, starts := [], [];
    count := 0;
    var i := 0;
    var inToken := false;
    ScanBegins(s, delim);
    while i < len
      invariant 0 <= i <= len && count == |starts| <= tokens.Length
      invariant Blotted(input[..], s, delim, i)
      invariant Scanned(s, delim, i, words, starts, inToken)
      invariant forall k | 0 <= k < count :: tokens[k] == starts[k]
    {
      BlotStep(input[..], s, delim, i);
      words, starts := ScanStep(s, delim, i, words, starts, inToken);
      if input[i] == delim {
        ghost var t0 := input[..];
        input[i] := NUL;
        assert input[..] == t0[i := NUL];
        inToken := false;
      } else {
        if !inToken {
          tokens[count] := i;
          count := count + 1;
          inToken := true;
        }
      }
      i := i + 1;
    }
    if inToken {
      words := ScanEnds(s, delim, i, words, starts);
    }
  }

  lemma ScanBegins(s: Text, d: Byte)
    ensures Scanned(s, d, 0, [], [], false)
  {
    assert s[0..] == s;
  }

  lemma ScanCount(s: Text, d: Byte, i: int, words: seq<Text>, starts: seq<int>, inToken: bool)
    requires Scanned(s, d, i, words, starts, inToken)
    ensures |starts| <= |Split(s, d)|
  {
  }

  lemma ScanDone(t: seq<Byte>, s: Text, d: Byte, words: seq<Text>, starts: seq<int>)
    requires NUL !in s && Blotted(t, s, d, |s|) && Scanned(s, d, |s|, words, starts, false)
    ensures |starts| == |words| && words == Split(s, d)
    ensures forall k | 0 <= k < |starts| ::
              0 <= starts[k] < |t| && Terminated(t, starts[k]) && CStr(t, starts[k]) == Split(s, d)[k]
  {
    assert s[|s|..] == [];
    forall k | 0 <= k < |starts|
      ensures 0 <= starts[k] < |t| && Terminated(t, starts[k]) && CStr(t, starts[k]) == words[k]
    {
      TokenReads(t, s, d, starts[k], words[k]);
    }
  }

  // ---------- trimming ----------

  method StrTrim(s: array<Byte>)
    requires Terminated(s[..], 0)
    modifies s
    ensures CStr(s[..], 0) == Trim(old(CStr(s[..], 0))) && Terminated(s[..], 0)
  {
    ghost var x := CStr(s[..], 0);
    CStrFacts(s[..], 0);
    var start := 0;
    var len := StrLen(s[..], 0);
    if len == 0 {
      return;
    }
    hide CStr, Trim, Lead, Trail;
    CharAt(s[..], 0, x, 0);
    while IsSpace(s[start])
      invariant 0 <= start <= len && forall k | 0 <= k < start :: IsSpace(x[k])
      invariant IsCStr(s[..], 0, x)
      decreases len - start
    {
      CharAt(s[..], 0, x, start);
      start := start + 1;
    }
    CharAt(s[..], 0, x, start);
    var end := len - 1;
    while end >= start && IsSpace(s[end])
      invariant start - 1 <= end < len && forall k | end < k < len :: IsSpace(x[k])
      invariant IsCStr(s[..], 0, x)
    {
      CharAt(s[..], 0, x, end);
      end := end - 1;
    }
    if end >= start { CharAt(s[..], 0, x, end); }
    TrimIs(x, start, end);
    Keep(s, start, end, x);
  }

  // The last part of my_str_trim: characters start..end become the whole string.
  method Keep(s: array<Byte>, start: int, end: int, ghost x: Text)
    requires IsCStr(s[..], 0, x) && 0 <= start <= end + 1 <= |x|
    modifies s
    ensures CStr(s[..], 0) == x[start..end + 1] && Terminated(s[..], 0)
  {
    hide CStr;
    ghost var s0 := s[..];
    if start > 0 {
      var i := 0;
      while start + i <= end
        invariant 0 <= i <= end + 1 - start
        invariant forall k | 0 <= k < i :: s[k] == s0[start + k]
        invariant forall p | i <= p < s.Length :: s[p] == s0[p]
      {
        s[i] := s[start + i];
        i := i + 1;
      }
      s[i] := NUL;
    } else {
      s[end + 1] := NUL;
    }
    forall k | 0 <= k <= end - start ensures s[k] == x[start..end + 1][k] != NUL {
      CharAt(s0, 0, x, start + k);
    }
    CStrIs(s[..], 0, x[start..end + 1]);
  }

  // Trimming is determined by the first and the last character that is not whitespace.
  lemma TrimIs(x: Text, start: int, end: int)
    requires 0 <= start <= |x| && start - 1 <= end < |x|
    requires (forall k | 0 <= k < start :: IsSpace(x[k])) && (start < |x| ==> !IsSpace(x[start]))
    requires (forall k | end < k < |x| :: IsSpace(x[k])) && (end >= start ==> !IsSpace(x[end]))
    ensures Trim(x) == x[start..end + 1]
  {
    assert Lead(x) == start;
    var t := x[start..];
    assert Trail(t) == |x| - 1 - end by {
      assert forall k | 0 <= k < |t| :: t[k] == x[start + k];
    }
  }

  // And whatever is left when blanks, tabs and line ends are taken away on both sides until there are none is the
  // trimmed text.
  lemma TrimExact(a: Text, m: Text, b: Text)
    requires forall i | 0 <= i < |a| :: a[i] in {' ', '\t', '\n', '\r'}
    requires forall i | 0 <= i < |b| :: b[i] in {' ', '\t', '\n', '\r'}
    requires m != [] ==> m[0] !in {' ', '\t', '\n', '\r'} && m[|m| - 1] !in {' ', '\t', '\n', '\r'}
    ensures Trim(a + (m + b)) == m
  {
    hide Trim;
    var s := a + (m + b);
    if m == [] {
      assert forall k | 0 <= k < |s| :: s[k] == if k < |a| then a[k] else b[k - |a|];
      TrimIs(s, |s|, |s| - 1);
    } else {
      assert forall k | |a| + |m| <= k < |s| :: s[k] == b[k - |a| - |m|];
      TrimIs(s, |a|, |a| + |m| - 1);
    }
  }

  // ---------- numbers ----------

  function Reverse(s: Text): Text { if s == [] then [] else Reverse(s[1..]) + [s[0]] }

  lemma {:induction false} ReverseAt(s: Text, k: nat)
    requires k < |s|
    ensures |Reverse(s)| == |s| && Reverse(s)[k] == s[|s| - 1 - k]
  {
    if |s| > 1 {
      ReverseAt(s[1..], if k < |s| - 1 then k else 0);
    }
  }

  lemma {:induction false} ReverseSnoc(s: Text, c: Byte)
    ensures Reverse(s + [c]) == [c] + Reverse(s)
  {
    if s == [] {
      assert s + [c] == [c];
    } else {
      assert (s + [c])[1..] == s[1..] + [c];
      ReverseSnoc(s[1..], c);
    }
  }

  // What is left of n, and the digits of n0 already written, last digit first.
  ghost predicate Converted(whole: Text, n: int, written: Text) {
    0 <= n && whole == (if n > 0 then Digits(n) else []) + Reverse(written)
  }

  lemma ConvertStep(whole: Text, n: int, written: Text)
    requires Converted(whole, n, written) && n > 0
    ensures Converted(whole, n / 10, written + [Digit(n % 10)])
    ensures |written| < |whole|
  {
    ReverseSnoc(written, Digit(n % 10));
    ReverseLength(written);
    assert Digits(n) == (if n / 10 > 0 then Digits(n / 10) else []) + [Digit(n % 10)];
  }

  method IntToStr(n0: int, buf: array<Byte>)
    requires MIN_INT < n0 <= MAX_INT && buf.Length >= 12
    modifies buf
    ensures CStr(buf[..], 0) == Decimal(n0) && Terminated(buf[..], 0)
    ensures |Decimal(n0)| + 1 <= 12 && AgreeOutside(old(buf[..]), buf[..], 0, |Decimal(n0)| + 1)
  {
    hide Digits, Reverse, Pow10, CStr;
    DecimalLength(n0);
    NoNul(n0);
    if n0 == 0 {
      buf[0] := '0';
      buf[1] := NUL;
      DecimalZero();
      CStrIs(buf[..], 0, Decimal(0));
      return;
    }
    var i, n := 0, n0;
    if n0 < 0 {
      n := -n0;
    }
    i := WriteDigits(n, buf, |Decimal(n0)|);
    if n0 < 0 {
      ghost var written := buf[..i];
      buf[i] := '-';
      assert buf[..i + 1] == written + ['-'];
      ReverseSnoc(written, '-');
      i := i + 1;
    }
    ReverseLength(buf[..i]);
    buf[i] := NUL;
    ReverseInPlace(buf, i);
    assert buf[..i] == Decimal(n0);
    PrefixIsCStr(buf[..], Decimal(n0));
  }

  // The first loop of my_int_to_str: the digits of n0, the last one first.
  method WriteDigits(n0: int, buf: array<Byte>, ghost bound: int) returns (i: int)
    requires 0 < n0 <= MAX_INT && |Digits(n0)| <= bound < buf.Length
    modifies buf
    ensures i == |Digits(n0)| && Reverse(buf[..i]) == Digits(n0)
    ensures AgreeOutside(old(buf[..]), buf[..], 0, i)
  {
    var n := n0;
    i := 0;
    ghost var whole := Digits(n);
    assert Converted(whole, n, buf[..0]);
    hide Digits, Converted, Reverse;
    while n > 0
      invariant 0 <= n <= MAX_INT && 0 <= i <= |whole|
      invariant Converted(whole, n, buf[..i])
      invariant AgreeOutside(old(buf[..]), buf[..], 0, i)
    {
      ConvertStep(whole, n, buf[..i]);
      ghost var written := buf[..i];
      var digit := n - n / 10 * 10;
      buf[i] := (digit + '0' as int) as char;
      assert buf[..i + 1] == written + [Digit(n % 10)];
      n := n / 10;
      i := i + 1;
    }
    ConvertEnds(whole, buf[..i]);
  }

  lemma PrefixIsCStr(s: seq<Byte>, t: Text)
    requires |t| < |s| && s[..|t|] == t && s[|t|] == NUL && NUL !in t
    ensures CStr(s, 0) == t && Terminated(s, 0)
  {
    assert forall k | 0 <= k < |t| :: s[..|t|][k] == s[k] && t[k] in t;
    CStrIs(s, 0, t);
  }

  lemma ConvertEnds(whole: Text, written: Text)
    requires Converted(whole, 0, written)
    ensures Reverse(written) == whole && |written| == |whole|
  {
    ReverseLength(written);
  }

  lemma NoNul(n: int)
    ensures NUL !in Decimal(n) && Decimal(n) != []
  {
    DigitsValue(if n < 0 then -n else n);
  }

  lemma DecimalZero()
    ensures Decimal(0) == ['0']
  {
  }

  lemma ReverseLength(s: Text)
    ensures |Reverse(s)| == |s|
  {
    if s != [] { ReverseAt(s, 0); }
  }

  // The loop at the end of my_int_to_str: the first len characters change places.
  method ReverseInPlace(buf: array<Byte>, len: int)
    requires 0 < len <= buf.Length
    modifies buf
    ensures buf[..len] == Reverse(old(buf[..len]))
    ensures AgreeOutside(old(buf[..]), buf[..], 0, len)
  {
    var j, i := 0, len - 1;
    while j < i
      invariant 0 <= j <= i + 1 && i == len - 1 - j
      invariant forall k | 0 <= k < j :: buf[k] == old(buf[len - 1 - k]) && buf[len - 1 - k] == old(buf[k])
      invariant forall k | j <= k <= i :: buf[k] == old(buf[k])
      invariant forall k | len <= k < buf.Length :: buf[k] == old(buf[k])
    {
      var temp := buf[j];
      buf[j] := buf[i];
      buf[i] := temp;
      j := j + 1;
      i := i - 1;
    }
    ghost var was := old(buf[..len]);
    ReverseLength(was);
    forall k | 0 <= k < len ensures buf[k] == Reverse(was)[k] {
      ReverseAt(was, k);
      assert was[len - 1 - k] == old(buf[len - 1 - k]);
    }
  }

  lemma {:induction false} ValueGrows(s: Text, acc: int)
    requires acc >= 0
    ensures Value(s, acc) >= acc
  {
    if s != [] && IsDigit(s[0]) {
      ValueGrows(s[1..], acc * 10 + (s[0] as int - '0' as int));
    }
  }

  // Every value on the way fits an int when the magnitude does.
  method StrToInt(s: seq<Byte>, o: int) returns (result: int)
    requires Terminated(s, o) && Magnitude(CStr(s, o)) <= MAX_INT
    ensures result == ParseInt(CStr(s, o)) && -MAX_INT <= result <= MAX_INT
  {
    ghost var x := CStr(s, o);
    CStrFacts(s, o);
    hide CStr, Value, Skipped;
    var i := SkipBlanks(s, o, x);
    var isNegative := false;
    ghost var t := x[i..];
    CharAt(s, o, x, i);
    if s[o + i] == '-' {
      isNegative := true;
      i := i + 1;
    } else if s[o + i] == '+' {
      i := i + 1;
    }
    assert Unsigned(t) == x[i..];
    result := ReadDigits(s, o, x, i);
    if isNegative {
      result := 0 - result;
    }
  }

  // The first loop of my_str_to_int.
  method SkipBlanks(s: seq<Byte>, o: int, ghost x: Text) returns (i: int)
    requires IsCStr(s, o, x)
    ensures 0 <= i <= |x| && Skipped(x) == x[i..]
  {
    i := 0;
    SkipStep(x, 0);
    while s[o + i] == ' ' || s[o + i] == '\t'
      invariant 0 <= i <= |x| && Skipped(x) == Skipped(x[i..])
      decreases |x| - i
    {
      CharAt(s, o, x, i);
      SkipStep(x, i);
      i := i + 1;
    }
    CharAt(s, o, x, i);
    SkipStep(x, i);
  }

  // The last loop of my_str_to_int.
  method ReadDigits(s: seq<Byte>, o: int, ghost x: Text, start: int) returns (result: int)
    requires IsCStr(s, o, x) && 0 <= start <= |x| && Value(x[start..], 0) <= MAX_INT
    ensures result == Value(x[start..], 0) && 0 <= result
  {
    hide Value;
    result := 0;
    var i := start;
    while '0' <= s[o + i] <= '9'
      invariant 0 <= i <= |x| && 0 <= result
      invariant Value(x[i..], result) == Value(x[start..], 0)
      decreases |x| - i
    {
      CharAt(s, o, x, i);
      ValueStep(x, i, result);
      ValueGrows(x[i + 1..], result * 10 + (s[o + i] as int - '0' as int));
      result := result * 10 + (s[o + i] as int - '0' as int);
      assert MIN_INT <= result <= MAX_INT;
      i := i + 1;
    }
    CharAt(s, o, x, i);
    ValueStep(x, i, result);
  }

  lemma SkipStep(x: Text, i: int)
    requires 0 <= i <= |x|
    ensures Skipped(x[i..]) == if i < |x| && (x[i] == ' ' || x[i] == '\t') then Skipped(x[i + 1..]) else x[i..]
    ensures x[0..] == x
  {
    if i < |x| { assert x[i..][1..] == x[i + 1..]; }
  }

  lemma ValueStep(x: Text, i: int, acc: int)
    requires 0 <= i <= |x|
    ensures Value(x[i..], acc)
         == if i < |x| && IsDigit(x[i]) then Value(x[i + 1..], acc * 10 + (x[i] as int - '0' as int)) else acc
  {
    if i < |x| { assert x[i..][1..] == x[i + 1..]; }
  }

  // my_str_to_int(my_int_to_str(n)) == n for every int but the least.
  method IntRoundTrip(n: int, buf: array<Byte>) returns (m: int)
    requires MIN_INT < n <= MAX_INT && buf.Length >= 12
    modifies buf
    ensures m == n
  {
    IntToStr(n, buf);
    ParseDecimal(n);
    m := StrToInt(buf[..], 0);
  }
}
