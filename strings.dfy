/** Text primitives the parsers are built from: the ASCII reading of the regex
    classes `\w` and `\d`, white space as Python defines it for `\s` and
    `str.strip`, case mapping as `str.upper` does it on ASCII,
    `str.split`, `str.join`, `str(int)` / `int(str)` and
    substring search. */
module Strings {
  import opened Basics

  // ---------------------------------------------------------------- classes

  /** `\w` on ASCII: letters, digits and underscore. */
  predicate IsWordChar(c: char) {
    ('a' <= c <= 'z') || ('A' <= c <= 'Z') || ('0' <= c <= '9') || c == '_'
  }

  /** `\d` on ASCII. */
  predicate IsDigit(c: char) {
    '0' <= c <= '9'
  }

  /** `str.isspace()` on one character, which is what `\s` matches in a
      text pattern and what `str.strip()` removes: space, tab, line feed,
      vertical tab, form feed, carriage return, the four separators
      0x1c-0x1f, next line, no-break space, and the Unicode space and
      separator characters. */
  predicate IsSpace(c: char) {
    || c == ' ' || ('\t' <= c <= '\r') || ('\U{1C}' <= c <= '\U{1F}')
    || c == '\U{85}' || c == '\U{A0}' || c == '\U{1680}' || ('\U{2000}' <= c <= '\U{200A}')
    || c == '\U{2028}' || c == '\U{2029}' || c == '\U{202F}' || c == '\U{205F}' || c == '\U{3000}'
  }

  predicate IsAsciiLetter(c: char) {
    ('a' <= c <= 'z') || ('A' <= c <= 'Z')
  }

  predicate All(s: string, p: char -> bool) {
    forall k | 0 <= k < |s| :: p(s[k])
  }

  // ---------------------------------------------------------------- scanning

  /** End of the maximal run of characters satisfying `p` that starts at `i`
      (what a greedy `p*` consumes). */
  function Span(s: string, i: nat, p: char -> bool): (j: nat)
    requires i <= |s|
    ensures i <= j <= |s|
    ensures forall k | i <= k < j :: p(s[k])
    ensures j == |s| || !p(s[j])
    decreases |s| - i
  {
    if i < |s| && p(s[i]) then Span(s, i + 1, p) else i
  }

  /** Start of the maximal run of characters satisfying `p` that ends at `j`. */
  function SpanBack(s: string, j: nat, p: char -> bool): (i: nat)
    requires j <= |s|
    ensures i <= j
    ensures forall k | i <= k < j :: p(s[k])
    ensures i == 0 || !p(s[i - 1])
    decreases j
  {
    if j > 0 && p(s[j - 1]) then SpanBack(s, j - 1, p) else j
  }

  /** A run is determined by where it starts: any `j` with the two defining
      properties of a maximal run is the one `Span` finds. */
  lemma {:induction false} SpanUnique(s: string, i: nat, j: nat, p: char -> bool)
    requires i <= j <= |s|
    requires forall k | i <= k < j :: p(s[k])
    requires j == |s| || !p(s[j])
    ensures Span(s, i, p) == j
    decreases j - i
  {
    if i < j {
      SpanUnique(s, i + 1, j, p);
    }
  }

  /** The run starting at `i` ends at `j` when the text between them
      satisfies `p` and the character at `j` does not. */
  lemma {:induction false} SpanSlice(s: string, i: nat, j: nat, p: char -> bool)
    requires i <= j <= |s| && All(s[i..j], p)
    requires j == |s| || !p(s[j])
    ensures Span(s, i, p) == j
  {
    assert forall k | i <= k < j :: s[k] == s[i..j][k - i];
    SpanUnique(s, i, j, p);
  }

  /** A slice of a slice is a slice of the original. */
  lemma {:induction false} SliceOfSlice(s: string, i: nat, j: nat, u: nat, v: nat)
    requires i <= j <= |s| && u <= v <= j - i
    ensures s[i..j][u..v] == s[i + u..i + v]
  {
    assert forall k | 0 <= k < v - u :: s[i..j][u..v][k] == s[i + u + k];
  }

  /** The text a run covers satisfies `p` throughout. */
  lemma {:induction false} SpanAll(s: string, i: nat, p: char -> bool)
    requires i <= |s|
    ensures All(s[i..Span(s, i, p)], p)
  {
  }

  // ---------------------------------------------------------------- case

  /** `str.upper()` on one ASCII character. */
  function UpperChar(c: char): char {
    if 'a' <= c <= 'z' then (c as int - 32) as char else c
  }

  function ToUpper(s: string): string {
    seq(|s|, k requires 0 <= k < |s| => UpperChar(s[k]))
  }

  /** Upper-casing twice is upper-casing once, and it keeps white space
      where it was, so a stripped text stays stripped. */
  lemma {:induction false} ToUpperIdempotent(s: string)
    ensures ToUpper(ToUpper(s)) == ToUpper(s)
    ensures IsTrimmed(s) ==> IsTrimmed(ToUpper(s))
  {
    var u := ToUpper(s);
    assert forall k | 0 <= k < |s| :: UpperChar(UpperChar(s[k])) == UpperChar(s[k]);
    assert forall k | 0 <= k < |s| :: IsSpace(UpperChar(s[k])) == IsSpace(s[k]);
  }

  /** `s` starts with `prefix`. */
  predicate StartsWith(s: string, prefix: string) {
    |prefix| <= |s| && s[..|prefix|] == prefix
  }

  /** The upper-case word `kw` occurs at `p` when case is ignored
      (how a pattern compiled with `re.IGNORECASE` matches a literal). */
  predicate KeywordAt(s: string, p: nat, kw: string) {
    p + |kw| <= |s| && ToUpper(s[p..p + |kw|]) == kw
  }

  // ---------------------------------------------------------------- strip

  predicate IsTrimmed(t: string) {
    t == [] || (!IsSpace(t[0]) && !IsSpace(t[|t| - 1]))
  }

  /** `str.strip()`: drop leading and trailing white space. */
  function Trim(s: string): (r: string)
    ensures IsTrimmed(r)
    ensures r == [] <==> All(s, IsSpace)
    ensures |r| <= |s|
  {
    var a := Span(s, 0, IsSpace);
    if a == |s| then [] else s[a..SpanBack(s, |s|, IsSpace)]
  }

  /** `Trim` is the inverse of padding with white space on both sides. */
  lemma {:induction false} TrimPadded(w1: string, t: string, w2: string)
    requires All(w1, IsSpace) && All(w2, IsSpace) && IsTrimmed(t)
    ensures Trim(w1 + t + w2) == t
  {
    var s := w1 + t + w2;
    if t == [] {
      assert All(s, IsSpace) by {
        forall k | 0 <= k < |s| ensures IsSpace(s[k]) {
          if k < |w1| { assert s[k] == w1[k]; } else { assert s[k] == w2[k - |w1|]; }
        }
      }
    } else {
      assert forall k | 0 <= k < |w1| :: s[k] == w1[k];
      assert s[|w1|] == t[0];
      SpanUnique(s, 0, |w1|, IsSpace);
      var b := |w1| + |t|;
      assert s[b - 1] == t[|t| - 1];
      assert forall k | b <= k < |s| :: s[k] == w2[k - b];
      SpanBackUnique(s, b, |s|, IsSpace);
      assert s[|w1|..b] == t;
    }
  }

  /** White space outside ASCII is stripped too: a name padded with a
      no-break space in front and an ideographic space behind is the name. */
  lemma {:induction false} TrimUnicodePadded(t: string)
    requires IsTrimmed(t)
    ensures Trim(['\U{A0}'] + t + ['\U{3000}']) == t
  {
    TrimPadded(['\U{A0}'], t, ['\U{3000}']);
  }

  lemma {:induction false} SpanBackUnique(s: string, i: nat, j: nat, p: char -> bool)
    requires i <= j <= |s|
    requires forall k | i <= k < j :: p(s[k])
    requires i == 0 || !p(s[i - 1])
    ensures SpanBack(s, j, p) == i
    decreases j - i
  {
    if i < j {
      SpanBackUnique(s, i, j - 1, p);
    }
  }

  /** A stripped text is left as it is. */
  lemma {:induction false} TrimTrimmed(s: string)
    requires IsTrimmed(s)
    ensures Trim(s) == s
  {
    TrimPadded([], s, []);
    assert [] + s + [] == s;
  }

  /** Stripping twice is stripping once. */
  lemma {:induction false} TrimIdempotent(s: string)
    ensures Trim(Trim(s)) == Trim(s)
  {
    TrimPadded([], Trim(s), []);
    assert [] + Trim(s) + [] == Trim(s);
  }

  // ---------------------------------------------------------------- numerals

  function Pow10(k: nat): (r: nat)
    ensures r >= 1
  {
    if k == 0 then 1 else 10 * Pow10(k - 1)
  }

  lemma {:induction false} Pow10Monotone(a: nat, b: nat)
    requires a <= b
    ensures Pow10(a) <= Pow10(b)
    decreases b
  {
    if a < b {
      Pow10Monotone(a, b - 1);
    }
  }

  function DigitValue(c: char): nat
    requires IsDigit(c)
  {
    c as int - '0' as int
  }

  function DigitChar(d: nat): char
    requires d < 10
  {
    ('0' as int + d) as char
  }

  /** `int(s)` for a string of decimal digits (leading zeros allowed). */
  function NumeralValue(s: string): nat
    requires All(s, IsDigit)
  {
    PrefixValue(s, |s|)
  }

  /** The value of the first `j` digits of `s`. */
  function PrefixValue(s: string, j: nat): nat
    requires j <= |s| && All(s, IsDigit)
    decreases j
  {
    if j == 0 then 0 else PrefixValue(s, j - 1) * 10 + DigitValue(s[j - 1])
  }

  /** The value of a prefix depends on nothing but that prefix. */
  lemma {:induction false} PrefixValueAgree(s: string, t: string, j: nat)
    requires j <= |s| && j <= |t| && All(s, IsDigit) && All(t, IsDigit)
    requires forall k | 0 <= k < j :: s[k] == t[k]
    ensures PrefixValue(s, j) == PrefixValue(t, j)
    decreases j
  {
    if j > 0 {
      PrefixValueAgree(s, t, j - 1);
    }
  }

  /** The last digit is the units digit. */
  lemma {:induction false} NumeralSnoc(init: string, c: char)
    requires All(init, IsDigit) && IsDigit(c)
    ensures All(init + [c], IsDigit)
    ensures NumeralValue(init + [c]) == NumeralValue(init) * 10 + DigitValue(c)
  {
    var s := init + [c];
    assert forall k | 0 <= k < |s| :: IsDigit(s[k]) by {
      forall k | 0 <= k < |s| ensures IsDigit(s[k]) {
        if k < |init| { assert s[k] == init[k]; }
      }
    }
    PrefixValueAgree(s, init, |init|);
  }

  /** The text `str(n)` produces for a non-negative `n`: digits, no leading zero. */
  predicate IsCanonicalNumeral(s: string) {
    |s| >= 1 && All(s, IsDigit) && (|s| == 1 || s[0] != '0')
  }

  /** `str(n)` for a non-negative integer; `int` reads it back. */
  function NatToString(n: nat): (s: string)
    ensures IsCanonicalNumeral(s) && NumeralValue(s) == n
    decreases n
  {
    if n < 10 then [DigitChar(n)]
    else
      var init := NatToString(n / 10);
      NumeralSnoc(init, DigitChar(n % 10));
      init + [DigitChar(n % 10)]
  }

  /** A numeral without a leading zero is at least 10^(digits-1). */
  lemma {:induction false} NumeralLowerBound(s: string)
    requires |s| >= 1 && All(s, IsDigit) && s[0] != '0'
    ensures NumeralValue(s) >= Pow10(|s| - 1)
    decreases |s|
  {
    if |s| > 1 {
      var init := s[..|s| - 1];
      assert init[0] == s[0];
      assert All(init, IsDigit) by {
        forall k | 0 <= k < |init| ensures IsDigit(init[k]) { assert init[k] == s[k]; }
      }
      NumeralLowerBound(init);
      assert s == init + [s[|s| - 1]];
      NumeralSnoc(init, s[|s| - 1]);
    }
  }

  /** `str` gives back every canonical numeral from its value. */
  lemma {:induction false} NatToStringOfNumeral(s: string)
    requires IsCanonicalNumeral(s)
    ensures NatToString(NumeralValue(s)) == s
    decreases |s|
  {
    if |s| == 1 {
      assert s == [s[0]];
      NumeralSnoc([], s[0]);
    } else {
      var init, c := s[..|s| - 1], s[|s| - 1];
      assert init[0] == s[0];
      assert All(init, IsDigit) by {
        forall k | 0 <= k < |init| ensures IsDigit(init[k]) { assert init[k] == s[k]; }
      }
      assert s == init + [c];
      NumeralSnoc(init, c);
      NumeralLowerBound(init);
      NatToStringOfNumeral(init);
      var n := NumeralValue(s);
      assert n / 10 == NumeralValue(init) && n % 10 == DigitValue(c);
      assert DigitChar(DigitValue(c)) == c;
    }
  }

  /** A canonical numeral whose value is below 10^k has at most k digits
      (one digit when k is 0: the numeral "0"). */
  lemma {:induction false} NumeralLengthBound(s: string, k: nat)
    requires IsCanonicalNumeral(s) && NumeralValue(s) < Pow10(k)
    ensures |s| <= k || |s| == 1
  {
    if |s| > 1 && |s| > k {
      NumeralLowerBound(s);
      Pow10Monotone(k, |s| - 1);
    }
  }

  // ---------------------------------------------------------------- join / split

  /** `sep.join(parts)`. */
  function Join(parts: seq<string>, sep: string): string
    decreases |parts|
  {
    if |parts| == 0 then []
    else if |parts| == 1 then parts[0]
    else Join(parts[..|parts| - 1], sep) + sep + parts[|parts| - 1]
  }

  /** `s.split(sep)` for a one-character separator. */
  function SplitOn(s: string, sep: char): (parts: seq<string>)
    ensures |parts| >= 1
    decreases |s|
  {
    if s == [] then [[]]
    else
      var init := SplitOn(s[..|s| - 1], sep);
      var c := s[|s| - 1];
      if c == sep then init + [[]]
      else init[..|init| - 1] + [init[|init| - 1] + [c]]
  }

  /** Splitting loses nothing: joining the pieces with the separator gives `s`
      back. */
  lemma {:induction false} SplitOnJoin(s: string, sep: char)
    ensures Join(SplitOn(s, sep), [sep]) == s
    decreases |s|
  {
    if s != [] {
      var pre := s[..|s| - 1];
      SplitOnJoin(pre, sep);
      var c := s[|s| - 1];
      assert s == pre + [c];
      if c == sep {
        JoinAppendEmpty(SplitOn(pre, sep), [sep]);
      } else {
        JoinExtendLast(SplitOn(pre, sep), [sep], c);
      }
    }
  }

  /** No piece of a split contains the separator. */
  lemma {:induction false} SplitOnPieces(s: string, sep: char)
    ensures forall i | 0 <= i < |SplitOn(s, sep)| :: sep !in SplitOn(s, sep)[i]
    decreases |s|
  {
    if s != [] {
      SplitOnPieces(s[..|s| - 1], sep);
    }
  }

  /** Joining with one more, empty, piece appends the separator. */
  lemma {:induction false} JoinAppendEmpty(parts: seq<string>, sep: string)
    requires |parts| >= 1
    ensures Join(parts + [[]], sep) == Join(parts, sep) + sep
  {
    var q := parts + [[]];
    assert q[..|q| - 1] == parts;
  }

  /** Extending the last piece extends the joined text. */
  lemma {:induction false} JoinExtendLast(parts: seq<string>, sep: string, c: char)
    requires |parts| >= 1
    ensures Join(parts[..|parts| - 1] + [parts[|parts| - 1] + [c]], sep) == Join(parts, sep) + [c]
  {
    var n := |parts|;
    var q := parts[..n - 1] + [parts[n - 1] + [c]];
    if n > 1 {
      assert q[..n - 1] == parts[..n - 1];
      assert Join(q, sep) == Join(parts[..n - 1], sep) + sep + (parts[n - 1] + [c]);
    }
  }

  /** Joining separator-free pieces and splitting again gives the pieces back. */
  lemma {:induction false} JoinSplitOn(parts: seq<string>, sep: char)
    requires |parts| >= 1
    requires forall i | 0 <= i < |parts| :: sep !in parts[i]
    ensures SplitOn(Join(parts, [sep]), sep) == parts
    decreases |parts|
  {
    if |parts| == 1 {
      SplitOnFree(parts[0], sep);
    } else {
      var init, last := parts[..|parts| - 1], parts[|parts| - 1];
      assert forall i | 0 <= i < |init| :: init[i] == parts[i];
      JoinSplitOn(init, sep);
      assert Join(parts, [sep]) == Join(init, [sep]) + [sep] + last;
      SplitOnAppend(Join(init, [sep]), last, sep);
      assert parts == init + [last];
    }
  }

  /** A separator-free string is one piece. */
  lemma {:induction false} SplitOnFree(s: string, sep: char)
    requires sep !in s
    ensures SplitOn(s, sep) == [s]
    decreases |s|
  {
    if s != [] {
      assert sep !in s[..|s| - 1];
      SplitOnFree(s[..|s| - 1], sep);
      assert s == s[..|s| - 1] + [s[|s| - 1]];
    }
  }

  /** Splitting `a + sep + b` splits `a` and `b` separately (`b` separator-free). */
  lemma {:induction false} SplitOnAppend(a: string, b: string, sep: char)
    requires sep !in b
    ensures SplitOn(a + [sep] + b, sep) == SplitOn(a, sep) + [b]
    decreases |b|
  {
    var s := a + [sep] + b;
    if b == [] {
      assert s[..|s| - 1] == a;
    } else {
      var b', c := b[..|b| - 1], b[|b| - 1];
      assert sep !in b';
      SplitOnAppend(a, b', sep);
      assert s[..|s| - 1] == a + [sep] + b';
      assert b == b' + [c];
      SplitOnAppendStep(SplitOn(a, sep), b', c, SplitOn(s, sep), sep, s);
    }
  }

  /** One separator-free character more extends the last piece. */
  lemma {:induction false} SplitOnAppendStep(front: seq<string>, b': string, c: char,
                                             parts: seq<string>, sep: char, s: string)
    requires s != [] && s[|s| - 1] == c && c != sep && parts == SplitOn(s, sep)
    requires SplitOn(s[..|s| - 1], sep) == front + [b']
    ensures parts == front + [b' + [c]]
  {
    var init := front + [b'];
    assert init[..|init| - 1] == front;
  }

  // ---------------------------------------------------------------- search

  /** `s.find(c)` as an option. */
  function IndexOf(s: string, c: char): (r: Option<nat>)
    ensures r.None? <==> c !in s
    ensures r.Some? ==> r.value < |s| && s[r.value] == c && c !in s[..r.value]
    decreases |s|
  {
    if s == [] then None
    else if s[0] == c then Some(0)
    else
      match IndexOf(s[1..], c)
      case None => None
      case Some(i) => assert s[..i + 1] == [s[0]] + s[1..][..i]; Some(i + 1)
  }

  /** `IndexOf` finds the first occurrence, or none when there is none. */
  lemma {:induction false} IndexOfFirst(s: string, c: char, i: nat)
    requires i <= |s| && (forall m | 0 <= m < i :: s[m] != c) && (i == |s| || s[i] == c)
    ensures IndexOf(s, c) == if i == |s| then None else Some(i)
  {
    if i == |s| {
      assert forall m | 0 <= m < |s| :: s[m] != c;
    } else {
      assert s[..i + 1][i] == c;
    }
  }

  /** Python's `needle in hay` for two strings. */
  predicate Contains(hay: string, needle: string)
    decreases |hay|
  {
    StartsWith(hay, needle) || (|hay| > 0 && Contains(hay[1..], needle))
  }

  /** No text contains a longer one. */
  lemma {:induction false} ContainsLonger(hay: string, needle: string)
    requires |needle| > |hay|
    ensures !Contains(hay, needle)
    decreases |hay|
  {
    if |hay| > 0 {
      ContainsLonger(hay[1..], needle);
    }
  }

  /** `needle` sits in `hay` at offset `i`. */
  predicate OccursAt(hay: string, needle: string, i: int) {
    0 <= i <= |hay| - |needle| && hay[i..i + |needle|] == needle
  }

  /** `Contains` is substring containment: the needle sits at some offset. */
  lemma {:induction false} ContainsAt(hay: string, needle: string)
    ensures Contains(hay, needle) <==> exists i :: OccursAt(hay, needle, i)
    decreases |hay|
  {
    if Contains(hay, needle) {
      if StartsWith(hay, needle) {
        assert OccursAt(hay, needle, 0);
      } else {
        ContainsAt(hay[1..], needle);
        var i :| OccursAt(hay[1..], needle, i);
        assert hay[i + 1..i + 1 + |needle|] == hay[1..][i..i + |needle|];
        assert OccursAt(hay, needle, i + 1);
      }
    }
    if exists i :: OccursAt(hay, needle, i) {
      var i :| OccursAt(hay, needle, i);
      if i > 0 {
        assert hay[1..][i - 1..i - 1 + |needle|] == hay[i..i + |needle|];
        assert OccursAt(hay[1..], needle, i - 1);
        ContainsAt(hay[1..], needle);
      } else {
        assert StartsWith(hay, needle);
      }
    }
  }
}
