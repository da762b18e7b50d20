/** `parse_data_type` (sql_generator/utils.py): the anchored, case-insensitive
    pattern  `(\w+)\s*(?:\((\d+)\s*(?:,\s*(\d+))?\))?\s*(\bNOT\s+NULL)?`
    written out as a scanner, followed by the conversions of its groups. */
module TypeParser {
  import opened Basics
  import opened Strings

  /** What the parser returns: upper-cased base word, optional length,
      optional precision and the NOT NULL flag. */
  datatype TypeSpec = TypeSpec(baseType: string, length: Option<nat>, precision: Option<nat>, notNull: bool)

  /** Where the second number's white space and digits end, when there is one. */
  datatype Tail = NoPrecision | PrecisionEnds(spaceEnd: nat, digitEnd: nat)

  /** A match of the argument group, as the ends of its runs: the first
      number's digits end at `digitEnd`, the white space after them at
      `spaceEnd`. */
  datatype ArgSpans = ArgSpans(digitEnd: nat, spaceEnd: nat, tail: Tail) {
    /** Where the closing parenthesis is. */
    function Close(): nat {
      match tail
      case NoPrecision => spaceEnd
      case PrecisionEnds(_, d2) => d2
    }
  }

  /** The optional group `\((\d+)\s*(?:,\s*(\d+))?\)` tried at `p`. Every
      quantifier in it is greedy and giving characters back never helps, so
      one pass over maximal runs decides it. */
  function ParseArgs(s: string, p: nat): (r: Option<ArgSpans>)
    requires p <= |s|
    ensures r.Some? ==> p < r.value.Close() < |s|
  {
    if p < |s| && s[p] == '(' then
      var d1 := Span(s, p + 1, IsDigit);
      var w1 := Span(s, d1, IsSpace);
      if d1 == p + 1 || w1 == |s| then None
      else if s[w1] == ')' then Some(ArgSpans(d1, w1, NoPrecision))
      else if s[w1] == ',' then
        var w2 := Span(s, w1 + 1, IsSpace);
        var d2 := Span(s, w2, IsDigit);
        if w2 < d2 < |s| && s[d2] == ')' then Some(ArgSpans(d1, w1, PrecisionEnds(w2, d2)))
        else None
      else None
    else None
  }

  /** The argument group's match at `p` has the shape the pattern
      describes: `(`, digits up to `digitEnd`, white space up to `spaceEnd`,
      then either `)` or `,`, white space, digits and `)`. There is no white
      space admitted right after `(` nor, with two numbers, before `)`. */
  predicate ArgListAt(s: string, p: nat, r: ArgSpans) {
    && p + 1 < r.digitEnd <= r.spaceEnd < |s| && s[p] == '('
    && All(s[p + 1..r.digitEnd], IsDigit) && All(s[r.digitEnd..r.spaceEnd], IsSpace)
    && match r.tail
       case NoPrecision => s[r.spaceEnd] == ')'
       case PrecisionEnds(w2, d2) =>
         && s[r.spaceEnd] == ',' && r.spaceEnd + 1 <= w2 < d2 < |s|
         && All(s[r.spaceEnd + 1..w2], IsSpace) && All(s[w2..d2], IsDigit) && s[d2] == ')'
  }

  /** `int` of the two number groups of a match. */
  function ArgValues(s: string, p: nat, r: ArgSpans): (nat, Option<nat>)
    requires p <= |s| && ParseArgs(s, p) == Some(r)
  {
    ParseArgsSound(s, p);
    (NumeralValue(s[p + 1..r.digitEnd]),
     match r.tail
     case NoPrecision => None
     case PrecisionEnds(w2, d2) => Some(NumeralValue(s[w2..d2])))
  }

  /** Length and precision after the base word ending at `w`: both absent
      when the argument group does not match. */
  function ArgGroups(s: string, w: nat): (Option<nat>, Option<nat>)
    requires w <= |s|
  {
    var a := Span(s, w, IsSpace);
    match ParseArgs(s, a)
    case None => (None, None)
    case Some(r) => var v := ArgValues(s, a, r); (Some(v.0), v.1)
  }

  /** Where the optional argument group ends: after the base word, white space
      and, when it is recognised, the argument list. */
  function ArgsEnd(s: string, w: nat): (e: nat)
    requires w <= |s|
    ensures w <= e <= |s|
  {
    var a := Span(s, w, IsSpace);
    match ParseArgs(s, a)
    case Some(r) => r.Close() + 1
    case None => a
  }

  /** `\b` at `q`: exactly one side of `q` is a word character. */
  predicate WordBoundaryAt(s: string, q: nat)
    requires q <= |s|
  {
    (q > 0 && IsWordChar(s[q - 1])) != (q < |s| && IsWordChar(s[q]))
  }

  /** `NOT\s+NULL`, ignoring case, at `q`. */
  predicate NotNullAt(s: string, q: nat)
    requires q <= |s|
  {
    KeywordAt(s, q, "NOT") &&
    var r := Span(s, q + 3, IsSpace);
    r > q + 3 && KeywordAt(s, r, "NULL")
  }

  /** The fourth group, tried after the white space that follows `e`. */
  predicate NotNullFlag(s: string, e: nat)
    requires e <= |s|
  {
    var q := Span(s, e, IsSpace);
    WordBoundaryAt(s, q) && NotNullAt(s, q)
  }

  /** `parse_data_type`: a `ValueError` message when the pattern does not match
      at the start, else the four converted groups. Text after the matched
      prefix is never looked at. */
  function ParseDataType(s: string): (r: Result<TypeSpec, string>)
    ensures r.Err? <==> s == [] || !IsWordChar(s[0])
    ensures r.Err? ==> r.error == "Invalid data type format: " + s
    ensures r.Ok? ==>
              var n := |r.value.baseType|;
              && 0 < n <= |s|
              && All(s[..n], IsWordChar)
              && (n == |s| || !IsWordChar(s[n]))
              && r.value.baseType == ToUpper(s[..n])
    ensures r.Ok? && r.value.precision.Some? ==> r.value.length.Some?
  {
    var w := Span(s, 0, IsWordChar);
    if w == 0 then Err("Invalid data type format: " + s)
    else
      var g := ArgGroups(s, w);
      Ok(TypeSpec(ToUpper(s[..w]), g.0, g.1, NotNullFlag(s, ArgsEnd(s, w))))
  }

  // ------------------------------------------------------------ argument form

  /** The runs the scanner finds in an argument list of the accepted shape
      end where the shape says. */
  lemma {:induction false} ArgListRuns(s: string, p: nat, r: ArgSpans)
    requires ArgListAt(s, p, r)
    ensures Span(s, p + 1, IsDigit) == r.digitEnd && Span(s, r.digitEnd, IsSpace) == r.spaceEnd
    ensures r.tail.PrecisionEnds? ==>
              Span(s, r.spaceEnd + 1, IsSpace) == r.tail.spaceEnd && Span(s, r.tail.spaceEnd, IsDigit) == r.tail.digitEnd
  {
    var d1e, w1e := r.digitEnd, r.spaceEnd;
    assert !IsDigit(s[d1e]) by {
      if d1e < w1e { assert s[d1e] == s[d1e..w1e][0]; }
    }
    SpanSlice(s, p + 1, d1e, IsDigit);
    SpanSlice(s, d1e, w1e, IsSpace);
    match r.tail
    case NoPrecision =>
    case PrecisionEnds(w2e, d2e) =>
      assert !IsSpace(s[w2e]) by { assert s[w2e] == s[w2e..d2e][0]; }
      SpanSlice(s, w1e + 1, w2e, IsSpace);
      SpanSlice(s, w2e, d2e, IsDigit);
  }

  /** Every text of the accepted shape is recognised, whatever follows it. */
  lemma {:induction false} ParseArgsComplete(s: string, p: nat, r: ArgSpans)
    requires ArgListAt(s, p, r)
    ensures ParseArgs(s, p) == Some(r)
  {
    ArgListRuns(s, p, r);
  }

  /** Whatever the argument group recognises has the accepted shape. */
  lemma {:induction false} ParseArgsSound(s: string, p: nat)
    requires p <= |s| && ParseArgs(s, p).Some?
    ensures ArgListAt(s, p, ParseArgs(s, p).value)
  {
    var r := ParseArgs(s, p).value;
    SpanAll(s, p + 1, IsDigit);
    SpanAll(s, r.digitEnd, IsSpace);
    match r.tail
    case NoPrecision =>
    case PrecisionEnds(w2e, d2e) =>
      SpanAll(s, r.spaceEnd + 1, IsSpace);
      SpanAll(s, w2e, IsDigit);
  }

  /** The scanner and the shape agree: the group matches at `p` with these
      run ends exactly when the text there has the accepted shape with them. */
  lemma {:induction false} ParseArgsMatches(s: string, p: nat, r: ArgSpans)
    requires p <= |s|
    ensures ParseArgs(s, p) == Some(r) <==> ArgListAt(s, p, r)
  {
    if ParseArgs(s, p) == Some(r) { ParseArgsSound(s, p); }
    if ArgListAt(s, p, r) { ParseArgsComplete(s, p, r); }
  }

  /** A length is reported exactly when the accepted argument shape follows
      the base word and optional white space; a precision only with it. */
  lemma {:induction false} LengthPresentIff(s: string)
    requires ParseDataType(s).Ok?
    ensures var t := ParseDataType(s).value;
            t.length.Some? <==> exists r :: ArgListAt(s, Span(s, |t.baseType|, IsSpace), r)
  {
    var t := ParseDataType(s).value;
    var w := |t.baseType|;
    var a := Span(s, w, IsSpace);
    assert Span(s, 0, IsWordChar) == w by { SpanUnique(s, 0, w, IsWordChar); }
    assert t.length.Some? <==> ParseArgs(s, a).Some?;
    if t.length.Some? {
      ParseArgsSound(s, a);
      var r := ParseArgs(s, a).value;
      assert ArgListAt(s, a, r);
      assert exists r' :: ArgListAt(s, Span(s, |ParseDataType(s).value.baseType|, IsSpace), r');
    } else if r :| ArgListAt(s, a, r) {
      ParseArgsComplete(s, a, r);
      assert false;
    }
  }

  // ------------------------------------------------------------ NOT NULL

  /** Where the fourth group is tried, a word boundary cannot lie inside a
      word: either a `)` or white space comes before, or the base word
      has just ended. */
  lemma {:induction false} ArgsEndBoundary(s: string, w: nat)
    requires 0 < w <= |s| && Span(s, 0, IsWordChar) == w
    ensures var e := ArgsEnd(s, w); !IsWordChar(s[e - 1]) || e == |s| || !IsWordChar(s[e])
  {
    var a := Span(s, w, IsSpace);
    if ParseArgs(s, a).Some? {
      ParseArgsSound(s, a);
    }
  }

  /** The `\b` in front of `NOT` never changes the outcome: the flag is set
      exactly when `NOT`, white space and `NULL` (any case) come right after
      the base word or argument list and some white space. Anything after
      `NULL` is not examined, so `NOT NULLABLE` sets it too. */
  lemma {:induction false} NotNullIff(s: string)
    requires ParseDataType(s).Ok?
    ensures var t := ParseDataType(s).value;
            var q := Span(s, ArgsEnd(s, |t.baseType|), IsSpace);
            t.notNull <==> NotNullAt(s, q)
  {
    var w := Span(s, 0, IsWordChar);
    ParseDataTypeAt(s, w);
    NotNullAfterBase(s, w);
  }

  /** The same, stated at the end `w` of the base word. */
  lemma {:induction false} NotNullAfterBase(s: string, w: nat)
    requires 0 < w <= |s| && Span(s, 0, IsWordChar) == w
    ensures NotNullFlag(s, ArgsEnd(s, w)) <==> NotNullAt(s, Span(s, ArgsEnd(s, w), IsSpace))
  {
    ArgsEndBoundary(s, w);
    NotNullFlagIff(s, ArgsEnd(s, w));
  }

  /** Tried at `e`, next to which no word continues, the flag is the keyword
      test alone. */
  lemma {:induction false} NotNullFlagIff(s: string, e: nat)
    requires 0 < e <= |s| && (!IsWordChar(s[e - 1]) || e == |s| || !IsWordChar(s[e]))
    ensures NotNullFlag(s, e) <==> NotNullAt(s, Span(s, e, IsSpace))
  {
    var q := Span(s, e, IsSpace);
    if NotNullAt(s, q) {
      KeywordStartsWord(s, q);
      BoundaryAfter(s, e, q);
    }
  }

  /** `NOT` begins with a word character. */
  lemma {:induction false} KeywordStartsWord(s: string, q: nat)
    requires q <= |s| && NotNullAt(s, q)
    ensures q < |s| && IsWordChar(s[q])
  {
    assert UpperChar(s[q]) == ToUpper(s[q..q + 3])[0] == 'N';
  }

  /** A word character reached over white space, or right after a non-word
      character, stands at a word boundary. */
  lemma {:induction false} BoundaryAfter(s: string, e: nat, q: nat)
    requires 0 < e <= |s| && q == Span(s, e, IsSpace)
    requires q < |s| && IsWordChar(s[q])
    requires q > e || !IsWordChar(s[e - 1])
    ensures WordBoundaryAt(s, q)
  {
    if q > e {
      assert IsSpace(s[q - 1]);
    }
  }

  // ------------------------------------------------------------ round trip

  /** A type descriptor the parser can produce without loss: a non-empty word
      in upper case, and a precision only together with a length. */
  predicate WellFormed(t: TypeSpec) {
    && |t.baseType| >= 1 && All(t.baseType, IsWordChar) && ToUpper(t.baseType) == t.baseType
    && (t.precision.Some? ==> t.length.Some?)
  }

  /** The canonical spelling of a descriptor, e.g. `DECIMAL(5,2) NOT NULL`. */
  function Render(t: TypeSpec): string {
    t.baseType + ArgText(t.length, t.precision) + NotNullText(t.notNull)
  }

  /** `(M)` or `(M,D)` without white space; empty when there is no length. */
  function ArgText(length: Option<nat>, precision: Option<nat>): string {
    match length
    case None => ""
    case Some(l) =>
      "(" + NatToString(l) + (match precision case None => "" case Some(d) => "," + NatToString(d)) + ")"
  }

  function NotNullText(notNull: bool): string {
    if notNull then " NOT NULL" else ""
  }

  /** The base word is the maximal word run when a non-word character (or
      nothing) follows it. */
  lemma {:induction false} BaseRun(s: string, b: string)
    requires |b| <= |s| && s[..|b|] == b && All(b, IsWordChar)
    requires |b| == |s| || !IsWordChar(s[|b|])
    ensures Span(s, 0, IsWordChar) == |b|
  {
    SpanSlice(s, 0, |b|, IsWordChar);
  }

  /** `(M)` found at `w` is recognised, its digits being M. */
  lemma {:induction false} OneArgAt(s: string, w: nat, m: string)
    requires |m| >= 1 && All(m, IsDigit)
    requires w + |m| + 2 <= |s| && s[w..w + |m| + 2] == "(" + m + ")"
    ensures ParseArgs(s, w) == Some(ArgSpans(w + 1 + |m|, w + 1 + |m|, NoPrecision))
    ensures ArgValues(s, w, ParseArgs(s, w).value) == (NumeralValue(m), None)
  {
    var x := s[w..w + |m| + 2];
    var d1e := w + 1 + |m|;
    assert s[w] == x[0] == '(';
    SliceOfSlice(s, w, w + |m| + 2, 1, 1 + |m|);
    assert x[1..1 + |m|] == m;
    assert s[d1e] == x[1 + |m|] == ')';
    assert s[d1e..d1e] == [];
    ParseArgsComplete(s, w, ArgSpans(d1e, d1e, NoPrecision));
  }

  /** `(M,D)` found at `w` has the accepted shape, its digit groups being M and D. */
  lemma {:induction false} TwoArgsShape(s: string, w: nat, m: string, d: string)
    requires |m| >= 1 && All(m, IsDigit) && |d| >= 1 && All(d, IsDigit)
    requires w + |m| + |d| + 3 <= |s| && s[w..w + |m| + |d| + 3] == "(" + m + "," + d + ")"
    ensures var d1e := w + 1 + |m|;
            var d2e := d1e + 1 + |d|;
            && ArgListAt(s, w, ArgSpans(d1e, d1e, PrecisionEnds(d1e + 1, d2e)))
            && s[w + 1..d1e] == m && s[d1e + 1..d2e] == d
  {
    var e := w + |m| + |d| + 3;
    var x := s[w..e];
    var d1e := w + 1 + |m|;
    var d2e := d1e + 1 + |d|;
    assert s[w] == x[0] == '(';
    assert s[d1e] == x[1 + |m|] == ',';
    assert s[d2e] == x[2 + |m| + |d|] == ')';
    SliceOfSlice(s, w, e, 1, 1 + |m|);
    assert x[1..1 + |m|] == m;
    SliceOfSlice(s, w, e, 2 + |m|, 2 + |m| + |d|);
    assert x[2 + |m|..2 + |m| + |d|] == d;
    assert s[d1e..d1e] == [] && s[d1e + 1..d1e + 1] == [];
  }

  /** `(M,D)` found at `w` is recognised, its digit groups being M and D. */
  lemma {:induction false} TwoArgsAt(s: string, w: nat, m: string, d: string)
    requires |m| >= 1 && All(m, IsDigit) && |d| >= 1 && All(d, IsDigit)
    requires w + |m| + |d| + 3 <= |s| && s[w..w + |m| + |d| + 3] == "(" + m + "," + d + ")"
    ensures var d1e := w + 1 + |m|;
            var d2e := d1e + 1 + |d|;
            && ParseArgs(s, w) == Some(ArgSpans(d1e, d1e, PrecisionEnds(d1e + 1, d2e)))
    ensures ArgValues(s, w, ParseArgs(s, w).value) == (NumeralValue(m), Some(NumeralValue(d)))
  {
    var d1e := w + 1 + |m|;
    TwoArgsShape(s, w, m, d);
    ParseArgsComplete(s, w, ArgSpans(d1e, d1e, PrecisionEnds(d1e + 1, d1e + 1 + |d|)));
  }

  /** A canonical argument list found at `w` is read back as the numbers it
      spells and ends where the list does. */
  lemma {:induction false} ArgTextAt(s: string, w: nat, l: nat, precision: Option<nat>)
    requires var a := ArgText(Some(l), precision); w + |a| <= |s| && s[w..w + |a|] == a
    ensures ParseArgs(s, w).Some?
    ensures ArgValues(s, w, ParseArgs(s, w).value) == (l, precision)
    ensures ParseArgs(s, w).value.Close() + 1 == w + |ArgText(Some(l), precision)|
  {
    match precision
    case None => OneArgAt(s, w, NatToString(l));
    case Some(d) => TwoArgsAt(s, w, NatToString(l), NatToString(d));
  }

  /** The same, read from the end of the base word. */
  lemma {:induction false} ArgGroupsAt(s: string, w: nat, e: nat, l: nat, precision: Option<nat>)
    requires e == w + |ArgText(Some(l), precision)| <= |s| && s[w..e] == ArgText(Some(l), precision)
    ensures ArgGroups(s, w) == (Some(l), precision)
    ensures ArgsEnd(s, w) == e
  {
    assert s[w] == s[w..e][0] == '(';
    SpanUnique(s, w, w, IsSpace);
    ArgTextAt(s, w, l, precision);
  }

  /** `NOT NULL` in upper case at `q` is recognised by the fourth group. */
  lemma {:induction false} NotNullWordsAt(s: string, q: nat)
    requires q + 8 <= |s| && s[q..q + 8] == "NOT NULL"
    ensures NotNullAt(s, q) && IsWordChar(s[q])
  {
    assert s[q] == s[q..q + 8][0] == 'N';
    assert s[q + 3] == s[q..q + 8][3] == ' ';
    assert s[q + 4] == s[q..q + 8][4] == 'N';
    SpanUnique(s, q + 3, q + 4, IsSpace);
    assert s[q..q + 3] == s[q..q + 8][0..3] == "NOT";
    assert s[q + 4..q + 8] == s[q..q + 8][4..8] == "NULL";
    assert ToUpper("NOT") == "NOT" && ToUpper("NULL") == "NULL";
  }

  /** The flag is set when the white space after `e` ends at `NOT NULL`
      and a non-word character comes before it. */
  lemma {:induction false} NotNullFlagAt(s: string, e: nat, q: nat)
    requires e <= q && 0 < q && q + 8 <= |s| && s[q..q + 8] == "NOT NULL"
    requires !IsWordChar(s[q - 1]) && Span(s, e, IsSpace) == q
    ensures NotNullFlag(s, e)
  {
    NotNullWordsAt(s, q);
  }

  /** ` NOT NULL` found at `e` sets the flag. */
  lemma {:induction false} FlagAfterArgs(s: string, e: nat)
    requires e + 9 <= |s| && s[e..e + 9] == " NOT NULL"
    ensures NotNullFlag(s, e)
  {
    assert s[e] == s[e..e + 9][0] == ' ';
    assert s[e + 1] == s[e..e + 9][1] == 'N';
    assert s[e + 1..e + 9] == s[e..e + 9][1..9] == "NOT NULL";
    SpanUnique(s, e, e + 1, IsSpace);
    NotNullFlagAt(s, e, e + 1);
  }

  /** Without an argument list, ` NOT NULL` right after the base word: no
      argument list can start after its white space. */
  lemma {:induction false} NotNullAfterWord(s: string, w: nat)
    requires w + 9 <= |s| && s[w..w + 9] == " NOT NULL"
    ensures ArgGroups(s, w) == (None, None)
    ensures NotNullFlag(s, ArgsEnd(s, w))
  {
    assert s[w] == s[w..w + 9][0] == ' ';
    assert s[w + 1] == s[w..w + 9][1] == 'N';
    assert s[w + 1..w + 9] == s[w..w + 9][1..9] == "NOT NULL";
    SpanUnique(s, w, w + 1, IsSpace);
    SpanUnique(s, w + 1, w + 1, IsSpace);
    assert ArgsEnd(s, w) == w + 1;
    NotNullFlagAt(s, w + 1, w + 1);
  }

  /** At the end of the text no argument list is found ... */
  lemma {:induction false} NoArgsAtEnd(s: string)
    ensures ArgGroups(s, |s|) == (None, None) && ArgsEnd(s, |s|) == |s|
  {
    SpanUnique(s, |s|, |s|, IsSpace);
  }

  /** ... and no flag. */
  lemma {:induction false} NoFlagAtEnd(s: string)
    ensures !NotNullFlag(s, |s|)
  {
    SpanUnique(s, |s|, |s|, IsSpace);
  }

  /** Unfolds `ParseDataType` once the base word is known to end at `w`. */
  lemma {:induction false} ParseDataTypeAt(s: string, w: nat)
    requires 0 < w <= |s| && Span(s, 0, IsWordChar) == w
    ensures ParseDataType(s) == Ok(TypeSpec(ToUpper(s[..w]), ArgGroups(s, w).0, ArgGroups(s, w).1, NotNullFlag(s, ArgsEnd(s, w))))
  {
  }

  /** Where the three parts of a rendering sit in the text. */
  lemma {:induction false} RenderedParts(t: TypeSpec, rest: string, s: string)
    requires s == Render(t) + rest
    ensures var w := |t.baseType|;
            var e := w + |ArgText(t.length, t.precision)|;
            var nn := NotNullText(t.notNull);
            && e + |nn| + |rest| == |s|
            && s[..w] == t.baseType && s[w..e] == ArgText(t.length, t.precision) && s[e..e + |nn|] == nn
  {
    var b, a, nn := t.baseType, ArgText(t.length, t.precision), NotNullText(t.notNull);
    assert s == b + a + nn + rest;
  }

  /** An argument list at `w` followed by ` NOT NULL` or by the end. */
  lemma {:induction false} ArgsThenFlag(s: string, w: nat, e: nat, l: nat, precision: Option<nat>, notNull: bool)
    requires e == w + |ArgText(Some(l), precision)| <= |s| && s[w..e] == ArgText(Some(l), precision)
    requires if notNull then e + 9 <= |s| && s[e..e + 9] == " NOT NULL" else e == |s|
    ensures ArgGroups(s, w) == (Some(l), precision)
    ensures NotNullFlag(s, ArgsEnd(s, w)) == notNull
  {
    ArgGroupsAt(s, w, e, l, precision);
    if notNull {
      FlagAfterArgs(s, e);
    } else {
      NoFlagAtEnd(s);
    }
  }

  /** After the base word of a rendering: the argument list, if any, and the flag. */
  lemma {:induction false} RenderedTail(t: TypeSpec, rest: string, s: string)
    requires WellFormed(t) && (t.notNull || rest == []) && s == Render(t) + rest
    ensures ArgGroups(s, |t.baseType|) == (t.length, t.precision)
    ensures NotNullFlag(s, ArgsEnd(s, |t.baseType|)) == t.notNull
  {
    var w := |t.baseType|;
    RenderedParts(t, rest, s);
    if t.length.Some? {
      ArgsThenFlag(s, w, w + |ArgText(t.length, t.precision)|, t.length.value, t.precision, t.notNull);
    } else if t.notNull {
      NotNullAfterWord(s, w);
    } else {
      NoArgsAtEnd(s);
      NoFlagAtEnd(s);
    }
  }

  /** Parsing inverts rendering. After `NOT NULL` any text may follow
      without changing the result. */
  lemma {:induction false} RenderParse(t: TypeSpec, rest: string)
    requires WellFormed(t)
    requires t.notNull || rest == []
    ensures ParseDataType(Render(t) + rest) == Ok(t)
  {
    var s := Render(t) + rest;
    var b := t.baseType;
    var w := |b|;
    assert s[..w] == b;
    assert w == |s| || !IsWordChar(s[w]) by {
      var a, nn := ArgText(t.length, t.precision), NotNullText(t.notNull);
      assert s == b + a + nn + rest;
      if w < |s| {
        if a != [] { assert s[w] == a[0] == '('; } else { assert s[w] == nn[0] == ' '; }
      }
    }
    BaseRun(s, b);
    RenderedTail(t, rest, s);
    ParseDataTypeAt(s, w);
  }
}
