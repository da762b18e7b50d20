/** `DataGenerator.generate_value`: a literal for one column, chosen by the
    base word `parse_data_type` finds in the column's type. The random
    number generator is a stream of draws passed in and handed on; today's
    date and the text of a rounded float are passed in as well. */
module DataGenerator {
  import opened Basics
  import opened Strings
  import opened TypeParser
  import opened Dates

  // ------------------------------------------------------------ randomness

  /** A stream of draws: `source(next)` is the next one. Each call into
      Python's `random` module takes one draw. */
  datatype Rng = Rng(source: nat -> nat, next: nat)

  /** The stream after one draw. */
  function Advance(rng: Rng): Rng {
    Rng(rng.source, rng.next + 1)
  }

  /** `random.randint(lo, hi)`. */
  function RandInt(rng: Rng, lo: int, hi: int): (r: (int, Rng))
    requires lo <= hi
    ensures lo <= r.0 <= hi
    ensures r.1 == Advance(rng)
  {
    (lo + rng.source(rng.next) % (hi - lo + 1), Advance(rng))
  }

  /** `random.choice(population)`. */
  function Choice<T>(rng: Rng, population: seq<T>): (r: (T, Rng))
    requires |population| > 0
    ensures r.0 in population
    ensures r.1 == Advance(rng)
  {
    (population[rng.source(rng.next) % |population|], Advance(rng))
  }

  /** The letter at index `i` of `string.ascii_letters`: the lower-case
      letters, then the upper-case ones. */
  function LetterOf(i: nat): char
    requires i < 52
  {
    if i < 26 then ('a' as int + i) as char else ('A' as int + (i - 26)) as char
  }

  /** `string.ascii_letters`. */
  function AsciiLetters(): (s: string)
    ensures |s| == 52
  {
    seq(52, i requires 0 <= i < 52 => LetterOf(i))
  }

  /** Where a letter sits in `AsciiLetters()`. */
  function LetterIndex(c: char): nat {
    if 'a' <= c <= 'z' then c as int - 'a' as int
    else if 'A' <= c <= 'Z' then 26 + (c as int - 'A' as int)
    else 0
  }

  /** `AsciiLetters()` holds the ASCII letters and nothing else. */
  lemma {:induction false} AsciiLettersSpec(c: char)
    ensures c in AsciiLetters() <==> IsAsciiLetter(c)
  {
    if IsAsciiLetter(c) {
      LetterAt(c);
    }
    if c in AsciiLetters() {
      var i :| 0 <= i < 52 && AsciiLetters()[i] == c;
      assert c == LetterOf(i);
    }
  }

  /** `LetterIndex` finds a letter in `AsciiLetters()`. */
  lemma {:induction false} LetterAt(c: char)
    requires IsAsciiLetter(c)
    ensures LetterIndex(c) < 52 && AsciiLetters()[LetterIndex(c)] == c
  {
    assert AsciiLetters()[LetterIndex(c)] == LetterOf(LetterIndex(c));
  }

  /** `''.join(random.choices(string.ascii_letters, k=n))`. */
  function RandomLetters(rng: Rng, n: nat): (r: (string, Rng))
    ensures |r.0| == n && All(r.0, IsAsciiLetter)
    ensures r.1.source == rng.source && r.1.next == rng.next + n
    decreases n
  {
    if n == 0 then ("", rng)
    else
      var (c, r1) := Choice(rng, AsciiLetters());
      AsciiLettersSpec(c);
      var (rest, r2) := RandomLetters(r1, n - 1);
      ([c] + rest, r2)
  }

  /** `''.join(str(random.randint(0, 9)) for _ in range(n))`. */
  function RandomDigits(rng: Rng, n: nat): (r: (string, Rng))
    ensures |r.0| == n && All(r.0, IsDigit)
    ensures r.1.source == rng.source && r.1.next == rng.next + n
    decreases n
  {
    if n == 0 then ("", rng)
    else
      var (d, r1) := RandInt(rng, 0, 9);
      var (rest, r2) := RandomDigits(r1, n - 1);
      ([DigitChar(d)] + rest, r2)
  }

  /** A stream whose draws from `start` on pick the letters of `v`. */
  predicate SpellsFrom(src: nat -> nat, start: nat, v: string) {
    forall j | 0 <= j < |v| :: src(start + j) == LetterIndex(v[j])
  }

  /** Every string of ASCII letters is drawn by a stream that spells it. */
  lemma {:induction false} RandomLettersCover(src: nat -> nat, start: nat, v: string)
    requires All(v, IsAsciiLetter) && SpellsFrom(src, start, v)
    ensures RandomLetters(Rng(src, start), |v|).0 == v
    decreases |v|
  {
    if v != [] {
      var rest := v[1..];
      SpellsRest(src, start, v);
      RandomLettersCover(src, start + 1, rest);
      RandomLettersFirst(src, start, v);
    }
  }

  /** The rest of a spelled string is spelled from the next draw on. */
  lemma {:induction false} SpellsRest(src: nat -> nat, start: nat, v: string)
    requires v != [] && All(v, IsAsciiLetter) && SpellsFrom(src, start, v)
    ensures All(v[1..], IsAsciiLetter) && SpellsFrom(src, start + 1, v[1..])
  {
    var rest := v[1..];
    forall j | 0 <= j < |rest| ensures IsAsciiLetter(rest[j]) && src(start + 1 + j) == LetterIndex(rest[j]) {
      assert rest[j] == v[j + 1];
      assert src(start + (j + 1)) == LetterIndex(v[j + 1]);
    }
  }

  /** The first draw of a spelling stream picks the first letter. */
  lemma {:induction false} RandomLettersFirst(src: nat -> nat, start: nat, v: string)
    requires v != [] && All(v, IsAsciiLetter) && SpellsFrom(src, start, v)
    requires RandomLetters(Rng(src, start + 1), |v| - 1).0 == v[1..]
    ensures RandomLetters(Rng(src, start), |v|).0 == v
  {
    var rng := Rng(src, start);
    assert src(start + 0) == LetterIndex(v[0]);
    LetterAt(v[0]);
    var c := Choice(rng, AsciiLetters());
    assert c.0 == v[0] && c.1 == Rng(src, start + 1);
    assert v == [v[0]] + v[1..];
  }

  // ------------------------------------------------------------ environment

  /** What the generator reads from outside the model: today's date
      (`datetime.now()`) and the text `str(round(x, scale))` gives for the
      float `x` that `random.uniform(0, 1000)` makes of a draw. */
  datatype Env = Env(today: Date, floatText: (nat, nat) -> string)

  /** Today is a date from which five years back is still a date, in a
      year `datetime` has. */
  predicate ValidEnv(env: Env) {
    Valid(env.today) && env.today.year < 10000 && Ordinal(env.today) >= Window
  }

  /** Python's truth value of an optional number: present and not zero. */
  predicate Truthy(n: Option<nat>) {
    n.Some? && n.value != 0
  }

  /** `f"'{value}'"`. */
  function Quoted(s: string): string {
    "'" + s + "'"
  }

  const Unknown: string := "'Unknown'"

  /** The first day of the `DATE` window, 1 January 2020. */
  const DateStart: Date := Date(2020, 1, 1)

  /** The largest `DECIMAL` without a length, `10 ** 10 - 1`. */
  const UnsizedDecimalMax: nat := Pow10(10) - 1

  /** The length of both date windows, `365 * 5` days. */
  const Window: nat := 1825

  // ------------------------------------------------------------ literals

  /** A quoted run of ASCII letters of the declared length, or of 5 to 20
      letters when the length is missing or 0. */
  predicate TextLiteral(s: string, length: Option<nat>) {
    && |s| >= 2 && s[0] == '\'' && s[|s| - 1] == '\''
    && All(s[1..|s| - 1], IsAsciiLetter)
    && (if Truthy(length) then |s| - 2 == length.value else 5 <= |s| - 2 <= 20)
  }

  /** `str(n)` for some `n` from `lo` to `hi`. */
  predicate NumberIn(s: string, lo: nat, hi: nat) {
    IsCanonicalNumeral(s) && lo <= NumeralValue(s) <= hi
  }

  /** What `DECIMAL(M)` / `DECIMAL(M,D)` yields: `'0.0'` when `D > M`;
      otherwise an integer part of at most `M - D` digits and, only when
      `D > 0`, possibly a point and 1 to `D` fraction digits. */
  predicate DecimalFits(s: string, m: nat, precision: Option<nat>) {
    var d := if precision.Some? then precision.value else 0;
    if m < d then s == "'0.0'"
    else
      match IndexOf(s, '.')
      case None => NumberIn(s, 0, Pow10(m - d) - 1)
      case Some(i) =>
        && d > 0 && NumberIn(s[..i], 0, Pow10(m - d) - 1)
        && 1 <= |s| - (i + 1) <= d && All(s[i + 1..], IsDigit)
  }

  /** A quoted `YYYY-MM-DD` naming a valid date whose ordinal is from `lo`
      to `hi`. */
  predicate DateLiteralIn(s: string, lo: int, hi: int) {
    && |s| == 12 && s[0] == '\'' && s[11] == '\''
    && match ReadDate(s[1..11])
       case None => false
       case Some(d) => Valid(d) && lo <= Ordinal(d) <= hi
  }

  // ------------------------------------------------------------ branches

  /** `CHAR` and `VARCHAR`. */
  function TextValue(length: Option<nat>, rng: Rng): (r: (string, Rng))
    ensures TextLiteral(r.0, length)
    ensures r.1.source == rng.source && rng.next <= r.1.next
  {
    var (n, r1) := if Truthy(length) then (length.value, rng) else RandInt(rng, 5, 20);
    var (v, r2) := RandomLetters(r1, n);
    assert Quoted(v)[1..|v| + 1] == v;
    (Quoted(v), r2)
  }

  /** `str(random.randint(lo, hi))`. */
  function IntegerValue(lo: nat, hi: nat, rng: Rng): (r: (string, Rng))
    requires lo <= hi
    ensures NumberIn(r.0, lo, hi)
    ensures r.1.source == rng.source && rng.next <= r.1.next
  {
    var (v, r1) := RandInt(rng, lo, hi);
    (NatToString(v), r1)
  }

  /** `DECIMAL(M)` / `DECIMAL(M,D)` with `M` not zero. */
  function SizedDecimalValue(m: nat, precision: Option<nat>, rng: Rng): (r: (string, Rng))
    ensures DecimalFits(r.0, m, precision)
    ensures r.1.source == rng.source && rng.next <= r.1.next
  {
    var d := if precision.Some? then precision.value else 0;
    var integerDigits := m - d;
    if integerDigits < 0 then ("'0.0'", rng)
    else
      var maxInteger := if integerDigits > 0 then Pow10(integerDigits) - 1 else 0;
      var (integerPart, r1) := RandInt(rng, 0, maxInteger);
      var whole := NatToString(integerPart);
      if d == 0 then
        NoPoint(whole);
        (whole, r1)
      else
        var (decimalDigits, r2) := RandInt(r1, 0, d);
        if decimalDigits == 0 then
          NoPoint(whole);
          (whole, r2)
        else
          var (decimalPart, r3) := RandomDigits(r2, decimalDigits);
          PointAt(whole, decimalPart);
          (whole + "." + decimalPart, r3)
  }

  /** A numeral has no point in it. */
  lemma {:induction false} NoPoint(a: string)
    requires All(a, IsDigit)
    ensures IndexOf(a, '.') == None
  {
    IndexOfFirst(a, '.', |a|);
  }

  /** The point after a numeral is the first one, and splits the text back
      into its two parts. */
  lemma {:induction false} PointAt(a: string, b: string)
    requires All(a, IsDigit)
    ensures IndexOf(a + "." + b, '.') == Some(|a|)
    ensures (a + "." + b)[..|a|] == a && (a + "." + b)[|a| + 1..] == b
  {
    var s := a + "." + b;
    assert forall k | 0 <= k < |a| :: s[k] == a[k];
    IndexOfFirst(s, '.', |a|);
  }

  /** The places `round` keeps: the precision, or 2 without one (or when
      it is 0). */
  function Scale(precision: Option<nat>): nat {
    if Truthy(precision) then precision.value else 2
  }

  /** The text of the float drawn as `x`, rounded to `scale` places. */
  function FloatText(env: Env, scale: nat, x: nat): string {
    env.floatText(scale, x)
  }

  /** Some float's text, rounded to `scale` places. */
  ghost predicate FloatLiteral(s: string, env: Env, scale: nat) {
    exists x: nat :: s == FloatText(env, scale, x)
  }

  /** `FLOAT` and `DOUBLE`: the text of a float rounded to the precision,
      or to 2 places without one. */
  function FloatValue(precision: Option<nat>, env: Env, rng: Rng): (r: (string, Rng))
    ensures FloatLiteral(r.0, env, Scale(precision))
    ensures r.1 == Advance(rng)
  {
    var x := rng.source(rng.next);
    (FloatText(env, Scale(precision), x), Advance(rng))
  }

  /** A date taken as a quoted `'%Y-%m-%d'` literal. */
  lemma {:induction false} DateLiteralOf(day: Date, lo: int, hi: int)
    requires Valid(day) && day.year < 10000 && lo <= Ordinal(day) <= hi
    ensures DateLiteralIn(Quoted(FormatDate(day)), lo, hi)
  {
    var s := Quoted(FormatDate(day));
    assert s[1..11] == FormatDate(day);
    ReadFormatDate(day);
  }

  /** `DATE`: a random day of the 1826 from 1 January 2020 on. */
  function DateValue(rng: Rng): (r: (string, Rng))
    ensures DateLiteralIn(r.0, Ordinal(DateStart), Ordinal(DateStart) + Window)
    ensures r.1.source == rng.source && rng.next <= r.1.next
  {
    var (offset, r1) := RandInt(rng, 0, Window);
    var day := AddDays(DateStart, offset);
    AddDaysYear(DateStart, offset);
    DateLiteralOf(day, Ordinal(DateStart), Ordinal(DateStart) + Window);
    (Quoted(FormatDate(day)), r1)
  }

  /** `DATETIME`: a random day of the 1826 that end today. */
  function DateTimeValue(env: Env, rng: Rng): (r: (string, Rng))
    requires ValidEnv(env)
    ensures DateLiteralIn(r.0, Ordinal(env.today) - Window, Ordinal(env.today))
    ensures r.1.source == rng.source && rng.next <= r.1.next
  {
    var start := SubDays(env.today, Window);
    var (offset, r1) := RandInt(rng, 0, Window);
    var day := AddDays(start, offset);
    YearOrder(day, env.today);
    DateLiteralOf(day, Ordinal(env.today) - Window, Ordinal(env.today));
    (Quoted(FormatDate(day)), r1)
  }

  /** `random.choice(['TRUE', 'FALSE'])`, unquoted. */
  function BooleanValue(rng: Rng): (r: (string, Rng))
    ensures r.0 == "TRUE" || r.0 == "FALSE"
    ensures r.1.source == rng.source && rng.next <= r.1.next
  {
    Choice(rng, ["TRUE", "FALSE"])
  }

  // ------------------------------------------------------------ dispatch

  /** The branch `generate_value` takes for a base word, tested in the
      source's order. `DATE` and `DATETIME` are tested with `in` against a
      parenthesised string, not a tuple, so any substring of theirs takes
      that branch. */
  datatype Kind = Text | Integer(lo: nat, hi: nat) | Decimal | Float | Day | Moment | Truth | Other

  function KindOf(base: string): Kind {
    if base == "CHAR" || base == "VARCHAR" then Text
    else if base == "INT" || base == "INTEGER" then Integer(1, 1000)
    else if base == "BIGINT" then Integer(1, 1000000000)
    else if base == "BIT" then Integer(0, 1)
    else if base == "DECIMAL" then Decimal
    else if base == "FLOAT" || base == "DOUBLE" then Float
    else if Contains("DATE", base) then Day
    else if Contains("DATETIME", base) then Moment
    else if base == "BOOLEAN" then Truth
    else Other
  }

  /** `DATE` is tested by substring: any part of `DATE` takes that branch. */
  lemma {:induction false} DateParts()
    ensures KindOf("DATE") == Day && KindOf("AT") == Day && KindOf("TE") == Day
  {
    assert StartsWith("DATE", "DATE");
    assert StartsWith("DATE"[1..], "AT");
    assert StartsWith("DATE"[1..][1..], "TE");
  }

  /** Parts of `DATETIME` that are not parts of `DATE`, such as `TIME`,
      take the `DATETIME` branch. */
  lemma {:induction false} DateTimeParts()
    ensures KindOf("TIME") == Moment && KindOf("DATETIME") == Moment
  {
    assert "DATE"[..4][0] != "TIME"[0];
    ContainsLonger("DATE"[1..], "TIME");
    assert "DATETIME"[4..] == "TIME";
    SuffixContained("DATETIME", 4);
    ContainsLonger("DATE", "DATETIME");
    assert StartsWith("DATETIME", "DATETIME");
  }

  /** Words longer than `DATETIME` take neither date branch. */
  lemma {:induction false} NotDateParts()
    ensures KindOf("TIMESTAMP") == Other && KindOf("DATETIME2") == Other
  {
    ContainsLonger("DATE", "TIMESTAMP");
    ContainsLonger("DATETIME", "TIMESTAMP");
    ContainsLonger("DATE", "DATETIME2");
    ContainsLonger("DATETIME", "DATETIME2");
  }

  /** A text contains every text it starts with from offset `k`. */
  lemma {:induction false} SuffixContained(hay: string, k: nat)
    requires k <= |hay|
    ensures Contains(hay, hay[k..])
    decreases k
  {
    if k > 0 {
      SuffixContained(hay[1..], k - 1);
      assert hay[1..][k - 1..] == hay[k..];
    } else {
      assert StartsWith(hay, hay[0..]);
    }
  }

  /** The literals a column of type `spec` may receive: the reference the
      generator is proved against. */
  ghost predicate MayGenerate(spec: TypeSpec, env: Env, s: string)
    requires ValidEnv(env)
  {
    match KindOf(spec.baseType)
    case Text => TextLiteral(s, spec.length)
    case Integer(lo, hi) => lo <= hi && NumberIn(s, lo, hi)
    case Decimal =>
      if Truthy(spec.length) then DecimalFits(s, spec.length.value, spec.precision)
      else NumberIn(s, 0, UnsizedDecimalMax)
    case Float => FloatLiteral(s, env, Scale(spec.precision))
    case Day => DateLiteralIn(s, Ordinal(DateStart), Ordinal(DateStart) + Window)
    case Moment => DateLiteralIn(s, Ordinal(env.today) - Window, Ordinal(env.today))
    case Truth => s == "TRUE" || s == "FALSE"
    case Other => s == Unknown
  }

  /** The branches of `generate_value` once the type has parsed. */
  function ValueFor(spec: TypeSpec, env: Env, rng: Rng): (r: (string, Rng))
    requires ValidEnv(env)
    ensures r.1.source == rng.source && rng.next <= r.1.next
    ensures MayGenerate(spec, env, r.0)
  {
    match KindOf(spec.baseType)
    case Text => TextValue(spec.length, rng)
    case Integer(lo, hi) => IntegerValue(lo, hi, rng)
    case Decimal =>
      if Truthy(spec.length) then SizedDecimalValue(spec.length.value, spec.precision, rng)
      else IntegerValue(0, UnsizedDecimalMax, rng)
    case Float => FloatValue(spec.precision, env, rng)
    case Day => DateValue(rng)
    case Moment => DateTimeValue(env, rng)
    case Truth => BooleanValue(rng)
    case Other => (Unknown, rng)
  }

  /** `generate_value(full_data_type)`: the literal and the stream after
      the draws it took. A type that does not parse gets `'Unknown'` and
      takes no draw. */
  function GenerateValue(fullType: string, env: Env, rng: Rng): (r: (string, Rng))
    requires ValidEnv(env)
    ensures r.1.source == rng.source && rng.next <= r.1.next
    ensures ParseDataType(fullType).Err? ==> r.0 == Unknown && r.1.next == rng.next
    ensures ParseDataType(fullType).Ok? ==> MayGenerate(ParseDataType(fullType).value, env, r.0)
  {
    match ParseDataType(fullType)
    case Err(_) => (Unknown, rng)
    case Ok(spec) => ValueFor(spec, env, rng)
  }

  // ------------------------------------------------------------ coverage

  /** A stream that spells `v` from draw `start` on. */
  function Spelling(v: string, start: nat): nat -> nat {
    k => SpellingDraw(v, start, k)
  }

  function SpellingDraw(v: string, start: nat, k: nat): nat {
    if start <= k < start + |v| then LetterIndex(v[k - start]) else 0
  }

  /** A stream that first draws `first` and then spells `v`. */
  function LengthThenSpelling(first: nat, v: string, start: nat): nat -> nat {
    k => if k == start then first else SpellingDraw(v, start + 1, k)
  }

  /** Every string has a stream that spells it, with or without a first
      draw in front. */
  lemma {:induction false} SpellingSpells(v: string, first: nat, start: nat)
    ensures SpellsFrom(Spelling(v, start), start, v)
    ensures LengthThenSpelling(first, v, start)(start) == first
    ensures SpellsFrom(LengthThenSpelling(first, v, start), start + 1, v)
  {
  }

  /** A draw below the size of the range picks its own offset. */
  lemma {:induction false} RandIntPicks(rng: Rng, lo: int, hi: int, c: nat)
    requires lo <= hi && c <= hi - lo && rng.source(rng.next) == c
    ensures RandInt(rng, lo, hi).0 == lo + c
  {
    ModSmall(c, hi - lo + 1);
  }

  lemma {:induction false} ModSmall(c: nat, m: nat)
    requires c < m
    ensures c % m == c
  {
  }

  /** Every number of the range is `str(randint(lo, hi))` for the streams
      whose next draw is its offset in the range. */
  lemma {:induction false} IntegerValueCovers(lo: nat, hi: nat, s: string, rng: Rng)
    requires lo <= hi && NumberIn(s, lo, hi) && rng.source(rng.next) == NumeralValue(s) - lo
    ensures IntegerValue(lo, hi, rng).0 == s
  {
    RandIntPicks(rng, lo, hi, NumeralValue(s) - lo);
    NatToStringOfNumeral(s);
  }

  /** Every literal `TextLiteral` admits is `TextValue` for the streams that
      spell it (after a draw of its length less 5 when no length is
      given). */
  lemma {:induction false} TextValueCovers(length: Option<nat>, s: string, rng: Rng)
    requires TextLiteral(s, length)
    requires Truthy(length) ==> SpellsFrom(rng.source, rng.next, s[1..|s| - 1])
    requires !Truthy(length) ==>
      rng.source(rng.next) == |s| - 7 && SpellsFrom(rng.source, rng.next + 1, s[1..|s| - 1])
    ensures TextValue(length, rng).0 == s
  {
    var v := s[1..|s| - 1];
    QuotedInner(s);
    if Truthy(length) {
      RandomLettersCover(rng.source, rng.next, v);
      assert Rng(rng.source, rng.next) == rng;
    } else {
      RandomLettersCover(rng.source, rng.next + 1, v);
      FreeTextValue(length, v, rng);
    }
  }

  /** A quoted text is its inside, quoted. */
  lemma {:induction false} QuotedInner(s: string)
    requires |s| >= 2 && s[0] == '\'' && s[|s| - 1] == '\''
    ensures s == Quoted(s[1..|s| - 1])
  {
  }

  /** Without a length, the first draw fixes it and the letters follow. */
  lemma {:induction false} FreeTextValue(length: Option<nat>, v: string, rng: Rng)
    requires !Truthy(length) && 5 <= |v| <= 20 && rng.source(rng.next) == |v| - 5
    requires RandomLetters(Rng(rng.source, rng.next + 1), |v|).0 == v
    ensures TextValue(length, rng).0 == Quoted(v)
  {
    RandIntPicks(rng, 5, 20, |v| - 5);
  }

  /** A stream whose next draw is a day's offset from the window's first day
      lands on that day. */
  lemma {:induction false} DayCovers(start: Date, d: Date, rng: Rng)
    requires Valid(start) && Valid(d) && Ordinal(start) <= Ordinal(d) <= Ordinal(start) + Window
    requires rng.source(rng.next) == Ordinal(d) - Ordinal(start)
    ensures AddDays(start, RandInt(rng, 0, Window).0) == d
  {
    var offset := Ordinal(d) - Ordinal(start);
    RandIntPicks(rng, 0, Window, offset);
    OrdinalInjective(AddDays(start, offset), d);
  }

  /** Each `DateLiteralIn` literal is the formatted text of the date it
      names. */
  lemma {:induction false} DateLiteralRead(s: string, lo: int, hi: int)
    requires DateLiteralIn(s, lo, hi)
    ensures var d := ReadDate(s[1..11]).value; d.year < 10000 && s == Quoted(FormatDate(d))
  {
    FormatReadDate(s[1..11]);
    QuotedInner(s);
  }

  /** Every day of the `DATE` window is `DateValue` for the streams whose
      next draw is its offset from 1 January 2020. */
  lemma {:induction false} DateValueCovers(d: Date, rng: Rng)
    requires Valid(d) && d.year < 10000
    requires Ordinal(DateStart) <= Ordinal(d) <= Ordinal(DateStart) + Window
    requires rng.source(rng.next) == Ordinal(d) - Ordinal(DateStart)
    ensures DateValue(rng).0 == Quoted(FormatDate(d))
  {
    DayCovers(DateStart, d, rng);
  }

  /** Every day of the `DATETIME` window is `DateTimeValue` for the streams
      whose next draw is its offset from five years before today. */
  lemma {:induction false} DateTimeValueCovers(env: Env, d: Date, rng: Rng)
    requires ValidEnv(env) && Valid(d) && d.year < 10000
    requires Ordinal(env.today) - Window <= Ordinal(d) <= Ordinal(env.today)
    requires rng.source(rng.next) == Ordinal(d) - (Ordinal(env.today) - Window)
    ensures DateTimeValue(env, rng).0 == Quoted(FormatDate(d))
  {
    DayCovers(SubDays(env.today, Window), d, rng);
  }

  /** An even draw gives `TRUE`, an odd one `FALSE`. */
  lemma {:induction false} BooleanValueCovers(rng: Rng)
    ensures BooleanValue(rng).0 == if rng.source(rng.next) % 2 == 0 then "TRUE" else "FALSE"
  {
  }
}
