/** `SchemaParser.parse_schema` on the text of a schema file: the table name
    from the first `CREATE TABLE name (`, the column block after the first
    `(` up to its matching `)`, the column definitions split on the commas
    outside parentheses, and the column dictionary built from those that are
    not table constraints. */
module SchemaParser {
  import opened Basics
  import opened Strings
  import opened Types

  // ------------------------------------------------------------ table name

  /** The pattern `CREATE\s+TABLE\s+(\w+)\s*\(` (ignoring case) tried at `i`:
      the captured name, with its case kept. Every repetition in it is
      greedy and what follows it cannot start with a character it consumes,
      so maximal runs are the only way the pattern can match. */
  function TableAt(s: string, i: nat): (r: Option<string>)
    requires i <= |s|
    ensures r.Some? ==> |r.value| > 0 && All(r.value, IsWordChar)
  {
    if KeywordAt(s, i, "CREATE") then
      var a := Span(s, i + 6, IsSpace);
      if a > i + 6 && KeywordAt(s, a, "TABLE") then
        var b := Span(s, a + 5, IsSpace);
        var c := Span(s, b, IsWordChar);
        var d := Span(s, c, IsSpace);
        if b > a + 5 && c > b && d < |s| && s[d] == '(' then Some(s[b..c]) else None
      else None
    else None
  }

  /** The outcome of trying the pattern at every position of `s`. */
  function Attempts(s: string): (ms: seq<Option<string>>)
    ensures |ms| == |s| + 1 && forall j | 0 <= j <= |s| :: ms[j] == TableAt(s, j)
  {
    seq(|s| + 1, j requires 0 <= j <= |s| => TableAt(s, j))
  }

  /** The first present entry of `ms` from `i` on. */
  function FirstSome(ms: seq<Option<string>>, i: nat): Option<string>
    requires i <= |ms|
    decreases |ms| - i
  {
    if i == |ms| then None
    else if ms[i].Some? then ms[i]
    else FirstSome(ms, i + 1)
  }

  /** `FirstSome` is absent exactly when every entry is, and otherwise it is
      the entry at the least position that is present. */
  lemma {:induction false} FirstSomeLeftmost(ms: seq<Option<string>>, i: nat)
    requires i <= |ms|
    ensures FirstSome(ms, i).None? <==> forall j | i <= j < |ms| :: ms[j].None?
    ensures FirstSome(ms, i).Some? ==>
              exists j | i <= j < |ms| :: FirstSome(ms, i) == ms[j] && forall m | i <= m < j :: ms[m].None?
    decreases |ms| - i
  {
    if i < |ms| && ms[i].None? {
      FirstSomeLeftmost(ms, i + 1);
      if FirstSome(ms, i).Some? {
        var j :| i + 1 <= j < |ms| && FirstSome(ms, i + 1) == ms[j] && forall m | i + 1 <= m < j :: ms[m].None?;
        assert forall m | i <= m < j :: ms[m].None?;
      }
    }
  }

  /** `re.search` for the table pattern: the name captured at the leftmost
      position where the pattern matches, if any. */
  function FindTable(s: string): Option<string> {
    FirstSome(Attempts(s), 0)
  }

  /** No table name is found exactly when the pattern matches nowhere. */
  lemma {:induction false} FindTableNone(s: string)
    ensures FindTable(s).None? <==> forall j | 0 <= j <= |s| :: TableAt(s, j).None?
  {
    FirstSomeLeftmost(Attempts(s), 0);
  }

  /** A name found is the one captured at the leftmost matching position. */
  lemma {:induction false} FindTableLeftmost(s: string)
    requires FindTable(s).Some?
    ensures exists j | 0 <= j <= |s| :: FindTable(s) == TableAt(s, j) && forall m | 0 <= m < j :: TableAt(s, m).None?
  {
    var ms := Attempts(s);
    FirstSomeLeftmost(ms, 0);
    var j :| 0 <= j < |ms| && FirstSome(ms, 0) == ms[j] && forall m | 0 <= m < j :: ms[m].None?;
    LeftmostAt(s, j);
  }

  /** Moving the leftmost facts from the attempts to the pattern. */
  lemma {:induction false} LeftmostAt(s: string, j: nat)
    requires j <= |s| && forall m | 0 <= m < j :: Attempts(s)[m].None?
    ensures forall m | 0 <= m < j :: TableAt(s, m).None?
  {
    forall m | 0 <= m < j ensures TableAt(s, m).None? {
      assert Attempts(s)[m].None?;
    }
  }

  // ------------------------------------------------------------ nesting depth

  /** +1 for `(`, -1 for `)`. */
  function Delta(c: char): int {
    if c == '(' then 1 else if c == ')' then -1 else 0
  }

  /** The change in nesting depth over `s[j..m]`. */
  function DepthBetween(s: string, j: nat, m: nat): int
    requires j <= m <= |s|
    decreases m
  {
    if m == j then 0 else DepthBetween(s, j, m - 1) + Delta(s[m - 1])
  }

  /** Depth can be counted from the front as well. */
  lemma {:induction false} DepthFront(s: string, j: nat, m: nat)
    requires j < m <= |s|
    ensures DepthBetween(s, j, m) == Delta(s[j]) + DepthBetween(s, j + 1, m)
    decreases m
  {
    if m > j + 1 {
      DepthFront(s, j, m - 1);
    }
  }

  // ------------------------------------------------------------ column block

  /** Where the block that starts at `j`, at nesting depth `depth`, ends: at
      the first `)` met at depth zero, or at the end of the text. */
  function BlockEnd(s: string, j: nat, depth: nat): (e: nat)
    requires j <= |s|
    ensures j <= e <= |s|
    decreases |s| - j
  {
    if j == |s| then j
    else if s[j] == '(' then BlockEnd(s, j + 1, depth + 1)
    else if s[j] == ')' then (if depth == 0 then j else BlockEnd(s, j + 1, depth - 1))
    else BlockEnd(s, j + 1, depth)
  }

  /** The column block: the text after the first `(` of the whole content
      up to (not including) the `)` that closes it; empty without any `(`. */
  function ColumnBlock(s: string): string {
    match IndexOf(s, '(')
    case None => ""
    case Some(k) => s[k + 1..BlockEnd(s, k + 1, 0)]
  }

  /** What `BlockEnd` finds: from `j` to the end the depth, starting at
      `depth`, never goes below zero, every `)` before the end is met at a
      positive depth, and the end is the text's end or a `)` at depth zero. */
  lemma {:induction false} BlockEndSpec(s: string, j: nat, depth: nat)
    requires j <= |s|
    ensures var e := BlockEnd(s, j, depth);
            && (forall m | j <= m <= e :: depth + DepthBetween(s, j, m) >= 0)
            && (forall m | j <= m < e :: s[m] == ')' ==> depth + DepthBetween(s, j, m) > 0)
            && (e == |s| || (s[e] == ')' && depth + DepthBetween(s, j, e) == 0))
    decreases |s| - j
  {
    var e := BlockEnd(s, j, depth);
    if j < |s| && !(s[j] == ')' && depth == 0) {
      var d' := depth + Delta(s[j]);
      BlockEndSpec(s, j + 1, d');
      forall m | j < m <= e ensures depth + DepthBetween(s, j, m) == d' + DepthBetween(s, j + 1, m) {
        DepthFront(s, j, m);
      }
    }
  }

  /** One step of `BlockEnd` on a character that does not end the block. */
  lemma {:induction false} BlockEndStep(s: string, i: nat, depth: nat)
    requires i < |s| && !(s[i] == ')' && depth == 0)
    ensures depth + Delta(s[i]) >= 0
    ensures BlockEnd(s, i, depth) == BlockEnd(s, i + 1, depth + Delta(s[i]))
  {
  }

  /** No `(` before `i`. */
  predicate NoOpenBefore(s: string, i: nat)
    requires i <= |s|
  {
    forall m | 0 <= m < i :: s[m] != '('
  }

  /** The state of the extraction loop at `i` once the first `(` was met at
      `k`: `block` holds what followed it, and the block from `i` at `depth`
      ends where the block from `k + 1` at depth zero ends. */
  predicate Collected(s: string, k: nat, i: nat, block: string, depth: nat)
    requires i <= |s|
  {
    && k < i && s[k] == '(' && NoOpenBefore(s, k)
    && |block| == i - (k + 1) && (forall m | 0 <= m < |block| :: block[m] == s[k + 1 + m])
    && BlockEnd(s, i, depth) == BlockEnd(s, k + 1, 0)
  }

  lemma {:induction false} OpenStep(s: string, i: nat)
    requires i < |s| && NoOpenBefore(s, i) && s[i] == '('
    ensures Collected(s, i, i + 1, "", 0)
  {
  }

  lemma {:induction false} SkipStep(s: string, i: nat)
    requires i < |s| && NoOpenBefore(s, i) && s[i] != '('
    ensures NoOpenBefore(s, i + 1)
  {
  }

  lemma {:induction false} CollectStep(s: string, k: nat, i: nat, block: string, depth: nat)
    requires i < |s| && Collected(s, k, i, block, depth) && !(s[i] == ')' && depth == 0)
    ensures depth + Delta(s[i]) >= 0
    ensures Collected(s, k, i + 1, block + [s[i]], depth + Delta(s[i]))
  {
    BlockEndStep(s, i, depth);
  }

  /** Where the loop stops once inside the block, the block is complete. */
  lemma {:induction false} CollectedEnd(s: string, k: nat, i: nat, block: string, depth: nat)
    requires i <= |s| && Collected(s, k, i, block, depth)
    requires i == |s| || (s[i] == ')' && depth == 0)
    ensures block == ColumnBlock(s)
  {
    IndexOfFirst(s, '(', k);
    assert BlockEnd(s, i, depth) == i;
    assert block == s[k + 1..i];
  }

  /** Without any `(` there is no block. */
  lemma {:induction false} NoOpenEnd(s: string)
    requires NoOpenBefore(s, |s|)
    ensures ColumnBlock(s) == ""
  {
    IndexOfFirst(s, '(', |s|);
  }

  /** The extraction loop: before the first `(` nothing is collected; after
      it every character is collected, `(` and `)` tracking the depth,
      until a `)` at depth zero. */
  method ExtractColumnBlock(content: string) returns (block: string)
    ensures block == ColumnBlock(content)
  {
    block := "";
    var depth: nat := 0;
    var inColumns := false;
    var i := 0;
    ghost var k := 0;
    while i < |content|
      invariant 0 <= i <= |content|
      invariant !inColumns ==> NoOpenBefore(content, i) && block == "" && depth == 0
      invariant inColumns ==> Collected(content, k, i, block, depth)
      decreases |content| - i
    {
      if content[i] == '(' && !inColumns {
        OpenStep(content, i);
        k := i;
        inColumns := true;
        i := i + 1;
        continue;
      }
      if inColumns {
        if content[i] == ')' && depth == 0 {
          break;
        }
        CollectStep(content, k, i, block, depth);
        depth := depth + Delta(content[i]);
        block := block + [content[i]];
      } else {
        SkipStep(content, i);
      }
      i := i + 1;
    }
    if inColumns {
      CollectedEnd(content, k, i, block, depth);
    } else {
      NoOpenEnd(content);
    }
  }

  // ------------------------------------------------------------ splitting

  /** The raw pieces of `t[..i]`: a new piece starts after every comma met
      at depth zero; every other character, parentheses included, goes to
      the current piece. */
  function Pieces(t: string, i: nat): (ps: seq<string>)
    requires i <= |t|
    ensures |ps| >= 1
    decreases i
  {
    if i == 0 then [""]
    else
      var ps := Pieces(t, i - 1);
      if t[i - 1] == ',' && DepthBetween(t, 0, i - 1) == 0 then ps + [""]
      else ps[..|ps| - 1] + [ps[|ps| - 1] + [t[i - 1]]]
  }

  /** The pieces kept: each one trimmed, the blank ones dropped. */
  function Kept(ps: seq<string>): seq<string>
    decreases |ps|
  {
    if ps == [] then []
    else
      var p := Trim(ps[|ps| - 1]);
      Kept(ps[..|ps| - 1]) + (if p == "" then [] else [p])
  }

  /** The column definitions of a block. */
  function SplitDefs(t: string): seq<string> {
    Kept(Pieces(t, |t|))
  }

  /** Every definition kept is trimmed and not blank. */
  lemma {:induction false} KeptTrimmed(ps: seq<string>)
    ensures forall k | 0 <= k < |Kept(ps)| :: Kept(ps)[k] != "" && IsTrimmed(Kept(ps)[k])
    decreases |ps|
  {
    if ps != [] {
      KeptTrimmed(ps[..|ps| - 1]);
    }
  }

  /** One step of `Pieces`, given the pieces so far. */
  lemma {:induction false} PiecesStep(t: string, i: nat, done: seq<string>, current: string)
    requires i < |t| && Pieces(t, i) == done + [current]
    ensures Pieces(t, i + 1) ==
              if t[i] == ',' && DepthBetween(t, 0, i) == 0 then done + [current] + [""]
              else done + [current + [t[i]]]
  {
    assert (done + [current])[..|done|] == done;
  }

  /** Keeping one more piece. */
  lemma {:induction false} KeptSnoc(done: seq<string>, p: string)
    ensures Kept(done + [p]) == Kept(done) + (if Trim(p) == "" then [] else [Trim(p)])
  {
    assert (done + [p])[..|done|] == done;
  }

  /** The split loop: `current` collects characters, `depth` follows the
      parentheses, and a comma at depth zero closes the current piece,
      which is kept, trimmed, unless it is blank. */
  method SplitColumnDefs(content: string) returns (defs: seq<string>)
    ensures defs == SplitDefs(content)
  {
    defs := [];
    var current := "";
    var depth := 0;
    ghost var done: seq<string> := [];
    for i := 0 to |content|
      invariant depth == DepthBetween(content, 0, i)
      invariant Pieces(content, i) == done + [current]
      invariant defs == Kept(done)
    {
      var c := content[i];
      PiecesStep(content, i, done, current);
      if c == '(' {
        depth := depth + 1;
      } else if c == ')' {
        depth := depth - 1;
      } else if c == ',' && depth == 0 {
        var piece := Trim(current);
        KeptSnoc(done, current);
        if piece != "" {
          defs := defs + [piece];
        }
        done := done + [current];
        current := "";
        continue;
      }
      current := current + [c];
    }
    var piece := Trim(current);
    KeptSnoc(done, current);
    if piece != "" {
      defs := defs + [piece];
    }
  }

  // ------------------------------------------------------------ splitting: properties

  /** Splitting loses nothing but the separating commas: joining the raw
      pieces with `,` gives the text back. */
  lemma {:induction false} PiecesJoin(t: string, i: nat)
    requires i <= |t|
    ensures Join(Pieces(t, i), [',']) == t[..i]
    decreases i
  {
    if i > 0 {
      var k: nat := i - 1;
      PiecesJoin(t, k);
      PiecesJoinStep(t, k);
      assert k + 1 == i;
    }
  }

  lemma {:induction false} PiecesJoinStep(t: string, k: nat)
    requires k < |t| && Join(Pieces(t, k), [',']) == t[..k]
    ensures Join(Pieces(t, k + 1), [',']) == t[..k + 1]
  {
    var ps, c := Pieces(t, k), t[k];
    assert t[..k + 1] == t[..k] + [c];
    assert ps == ps[..|ps| - 1] + [ps[|ps| - 1]];
    PiecesStep(t, k, ps[..|ps| - 1], ps[|ps| - 1]);
    if c == ',' && DepthBetween(t, 0, k) == 0 {
      JoinAppendEmpty(ps, [',']);
    } else {
      JoinExtendLast(ps, [','], c);
    }
  }

  /** Every comma of `t` lies inside parentheses. */
  predicate NoTopLevelComma(t: string) {
    forall m | 0 <= m < |t| :: t[m] == ',' ==> DepthBetween(t, 0, m) != 0
  }

  /** A text without a comma at depth zero is one piece. */
  lemma {:induction false} PiecesWhole(t: string, i: nat)
    requires i <= |t| && NoTopLevelComma(t)
    ensures Pieces(t, i) == [t[..i]]
    decreases i
  {
    if i > 0 {
      var k: nat := i - 1;
      PiecesWhole(t, k);
      PiecesWholeStep(t, k);
      assert k + 1 == i;
    }
  }

  lemma {:induction false} PiecesWholeStep(t: string, k: nat)
    requires k < |t| && NoTopLevelComma(t) && Pieces(t, k) == [t[..k]]
    ensures Pieces(t, k + 1) == [t[..k + 1]]
  {
    assert t[..k + 1] == t[..k] + [t[k]];
    PiecesStep(t, k, [], t[..k]);
  }

  /** The depth over a prefix does not see what follows it. */
  lemma {:induction false} DepthPrefix(a: string, r: string, m: nat)
    requires m <= |a|
    ensures DepthBetween(a + r, 0, m) == DepthBetween(a, 0, m)
    decreases m
  {
    if m > 0 {
      DepthPrefix(a, r, m - 1);
    }
  }

  /** The depth after `a + ","` continues with the depth over `b`. */
  lemma {:induction false} DepthConcat(a: string, b: string, m: nat)
    requires m <= |b|
    ensures DepthBetween(a + [','] + b, 0, |a| + 1 + m) == DepthBetween(a, 0, |a|) + DepthBetween(b, 0, m)
    decreases m
  {
    var s := a + [','] + b;
    if m == 0 {
      DepthPrefix(a, [','] + b, |a|);
      assert a + [','] + b == a + ([','] + b);
    } else {
      DepthConcat(a, b, m - 1);
      assert s[|a| + 1 + (m - 1)] == b[m - 1];
    }
  }

  /** The pieces of a prefix do not see what follows it. */
  lemma {:induction false} PiecesPrefix(a: string, r: string, i: nat)
    requires i <= |a|
    ensures Pieces(a + r, i) == Pieces(a, i)
    decreases i
  {
    if i > 0 {
      PiecesPrefix(a, r, i - 1);
      DepthPrefix(a, r, i - 1);
    }
  }

  /** After a comma at depth zero the pieces are those of what follows. */
  lemma {:induction false} PiecesAfterComma(s: string, a: string, b: string, m: nat)
    requires s == a + [','] + b
    requires DepthBetween(a, 0, |a|) == 0 && m <= |b|
    ensures Pieces(s, |a| + 1 + m) == Pieces(a, |a|) + Pieces(b, m)
    decreases m
  {
    if m == 0 {
      PiecesAtComma(s, a, b);
    } else {
      var k: nat := m - 1;
      PiecesAfterComma(s, a, b, k);
      PiecesAfterCommaStep(s, a, b, k);
      assert k + 1 == m;
    }
  }

  /** The comma itself starts a new, empty, piece. */
  lemma {:induction false} PiecesAtComma(s: string, a: string, b: string)
    requires s == a + [','] + b
    requires DepthBetween(a, 0, |a|) == 0
    ensures Pieces(s, |a| + 1) == Pieces(a, |a|) + Pieces(b, 0)
  {
    var P := Pieces(a, |a|);
    assert s == a + ([','] + b);
    PiecesPrefix(a, [','] + b, |a|);
    DepthPrefix(a, [','] + b, |a|);
    assert P == P[..|P| - 1] + [P[|P| - 1]];
    PiecesStep(s, |a|, P[..|P| - 1], P[|P| - 1]);
  }

  /** One character of `b` after the comma. */
  lemma {:induction false} PiecesAfterCommaStep(s: string, a: string, b: string, k: nat)
    requires s == a + [','] + b
    requires DepthBetween(a, 0, |a|) == 0 && k < |b|
    requires Pieces(s, |a| + 1 + k) == Pieces(a, |a|) + Pieces(b, k)
    ensures Pieces(s, |a| + 1 + k + 1) == Pieces(a, |a|) + Pieces(b, k + 1)
  {
    var n := |a| + 1 + k;
    DepthConcat(a, b, k);
    assert s[n] == b[k];
    PiecesTrack(s, n, b, k, Pieces(a, |a|));
  }

  /** Two texts that agree on the next character and on the depth before it
      take the same step, whatever pieces `P` precede in the first. */
  lemma {:induction false} PiecesTrack(s: string, n: nat, b: string, k: nat, P: seq<string>)
    requires n < |s| && k < |b| && s[n] == b[k] && DepthBetween(s, 0, n) == DepthBetween(b, 0, k)
    requires Pieces(s, n) == P + Pieces(b, k)
    ensures Pieces(s, n + 1) == P + Pieces(b, k + 1)
  {
    var Q := Pieces(b, k);
    var Qd, Qc := Q[..|Q| - 1], Q[|Q| - 1];
    var c := b[k];
    assert Q == Qd + [Qc];
    ConcatAssoc(P, Qd, [Qc]);
    PiecesStep(s, n, P + Qd, Qc);
    PiecesStep(b, k, Qd, Qc);
    if c == ',' && DepthBetween(b, 0, k) == 0 {
      ConcatAssoc(P + Qd, [Qc], [""]);
      ConcatAssoc(P, Qd, [Qc] + [""]);
      ConcatAssoc(Qd, [Qc], [""]);
    } else {
      ConcatAssoc(P, Qd, [Qc + [c]]);
    }
  }

  /** A column definition the split keeps whole: balanced parentheses and
      every comma inside them. */
  predicate WholeDef(d: string) {
    DepthBetween(d, 0, |d|) == 0 && NoTopLevelComma(d)
  }

  /** Joining whole definitions with commas and splitting again gives
      them back as the raw pieces. */
  lemma {:induction false} JoinPieces(ds: seq<string>)
    requires |ds| >= 1 && forall k | 0 <= k < |ds| :: WholeDef(ds[k])
    ensures DepthBetween(Join(ds, [',']), 0, |Join(ds, [','])|) == 0
    ensures Pieces(Join(ds, [',']), |Join(ds, [','])|) == ds
    decreases |ds|
  {
    if |ds| == 1 {
      PiecesWhole(ds[0], |ds[0]|);
      assert ds[0][..|ds[0]|] == ds[0];
    } else {
      var init, last := ds[..|ds| - 1], ds[|ds| - 1];
      assert ds == init + [last];
      JoinPieces(init);
      var a := Join(init, [',']);
      assert Join(ds, [',']) == a + [','] + last;
      PiecesWhole(last, |last|);
      assert last[..|last|] == last;
      JoinPiecesSnoc(Join(ds, [',']), a, init, last);
    }
  }

  /** One more whole definition after a comma. */
  lemma {:induction false} JoinPiecesSnoc(s: string, a: string, init: seq<string>, last: string)
    requires s == a + [','] + last
    requires DepthBetween(last, 0, |last|) == 0 && Pieces(last, |last|) == [last]
    requires DepthBetween(a, 0, |a|) == 0 && Pieces(a, |a|) == init
    ensures DepthBetween(s, 0, |s|) == 0
    ensures Pieces(s, |s|) == init + [last]
  {
    DepthConcat(a, last, |last|);
    PiecesAfterComma(s, a, last, |last|);
    assert |s| == |a| + 1 + |last|;
  }

  /** Pieces already trimmed and not blank are all kept unchanged. */
  lemma {:induction false} KeptAll(ds: seq<string>)
    requires forall k | 0 <= k < |ds| :: ds[k] != "" && IsTrimmed(ds[k])
    ensures Kept(ds) == ds
    decreases |ds|
  {
    if ds != [] {
      var init, last := ds[..|ds| - 1], ds[|ds| - 1];
      assert ds == init + [last];
      KeptAll(init);
      TrimPadded([], last, []);
      assert [] + last + [] == last;
      KeptSnoc(init, last);
    }
  }

  /** The split of a block written as trimmed, whole definitions joined by
      commas gives exactly those definitions, in order. */
  lemma {:induction false} SplitDefsJoin(ds: seq<string>)
    requires |ds| >= 1
    requires forall k | 0 <= k < |ds| :: ds[k] != "" && IsTrimmed(ds[k]) && WholeDef(ds[k])
    ensures SplitDefs(Join(ds, [','])) == ds
  {
    JoinPieces(ds);
    KeptAll(ds);
  }

  // ------------------------------------------------------------ column definitions

  /** A definition that declares a table constraint rather than a column. */
  predicate IsConstraint(d: string) {
    var u := ToUpper(d);
    StartsWith(u, "PRIMARY") || StartsWith(u, "FOREIGN") || StartsWith(u, "CONSTRAINT")
  }

  predicate NotNewline(c: char) {
    c != '\n'
  }

  /** Where `(.+)` starts once `\s+` has backtracked from `j` (the end of the
      white-space run after the name at `w`): the largest position in
      `(w, j]` that holds a character other than a line feed. */
  function TypeStart(d: string, w: nat, j: nat): (r: Option<nat>)
    requires w <= j <= |d|
    ensures r.Some? ==> w < r.value <= j && r.value < |d| && NotNewline(d[r.value])
    ensures r.Some? ==> forall m | r.value < m <= j :: m == |d| || !NotNewline(d[m])
    ensures r.None? <==> forall m | w < m <= j :: m == |d| || !NotNewline(d[m])
    decreases j
  {
    if j <= w then None
    else if j < |d| && NotNewline(d[j]) then Some(j)
    else TypeStart(d, w, j - 1)
  }

  /** `re.match(r'(\w+)\s+(.+)', d)`: the name and the rest of its line. */
  function MatchColumn(d: string): (r: Option<Entry>)
    ensures r.Some? ==> |r.value.key| > 0 && All(r.value.key, IsWordChar)
    ensures r.Some? ==> |r.value.value| > 0 && All(r.value.value, NotNewline)
  {
    var w := Span(d, 0, IsWordChar);
    var q := Span(d, w, IsSpace);
    if w == 0 || q == w then None
    else
      match TypeStart(d, w, q)
      case None => None
      case Some(j) =>
        SpanAll(d, 0, IsWordChar);
        SpanAll(d, j, NotNewline);
        Some(Entry(d[..w], d[j..Span(d, j, NotNewline)]))
  }

  predicate IsBacktick(c: char) {
    c == '`'
  }

  /** `str.strip('`')`. */
  function StripBackticks(s: string): string {
    var a := Span(s, 0, IsBacktick);
    if a == |s| then [] else s[a..SpanBack(s, |s|, IsBacktick)]
  }

  /** A captured name is a word, and stripping backticks leaves a word as it is. */
  lemma {:induction false} StripBackticksWord(s: string)
    requires All(s, IsWordChar)
    ensures StripBackticks(s) == s
  {
    if s != [] {
      assert !IsBacktick(s[0]);
      SpanUnique(s, 0, 0, IsBacktick);
      assert !IsBacktick(s[|s| - 1]);
      SpanBackUnique(s, |s|, |s|, IsBacktick);
      assert s[0..|s|] == s;
    }
  }

  /** The column one definition declares: none for a blank definition, a
      table constraint or one the pattern does not match; otherwise the name
      without backticks and the rest of the line, stripped and upper-cased. */
  function ColumnOf(def: string): Option<Entry> {
    var d := Trim(def);
    if d == "" || IsConstraint(d) then None
    else
      match MatchColumn(d)
      case None => None
      case Some(m) => Some(Entry(StripBackticks(m.key), ToUpper(Trim(m.value))))
  }

  /** The columns the definitions declare, in order, repeats included. */
  function ColumnEntries(defs: seq<string>): seq<Entry>
    decreases |defs|
  {
    if defs == [] then []
    else
      ColumnEntries(defs[..|defs| - 1]) +
      match ColumnOf(defs[|defs| - 1])
      case None => []
      case Some(e) => [e]
  }

  /** The column dictionary: each declared column assigned in turn. */
  function Columns(defs: seq<string>): Dict {
    FromPairs(ColumnEntries(defs))
  }

  /** On a stripped definition `\s+` never gives anything back: the type
      starts right after the white space that follows the name. */
  lemma {:induction false} MatchStripped(d: string)
    requires IsTrimmed(d) && MatchColumn(d).Some?
    ensures var w := Span(d, 0, IsWordChar);
            var q := Span(d, w, IsSpace);
            && q < |d| && !IsSpace(d[q])
            && MatchColumn(d).value.value == d[q..Span(d, q, NotNewline)]
  {
    var w := Span(d, 0, IsWordChar);
    var q := Span(d, w, IsSpace);
    assert q > w && IsSpace(d[q - 1]);
    assert q < |d|;
    assert TypeStart(d, w, q) == Some(q);
  }

  /** A declared column has a word for its name and a stripped, non-empty,
      upper-case type. */
  lemma {:induction false} ColumnOfShape(def: string)
    requires ColumnOf(def).Some?
    ensures var e := ColumnOf(def).value;
            && |e.key| > 0 && All(e.key, IsWordChar)
            && e.value != "" && IsTrimmed(e.value) && ToUpper(e.value) == e.value
  {
    var d := Trim(def);
    var m := MatchColumn(d).value;
    StripBackticksWord(m.key);
    MatchStripped(d);
    var w := Span(d, 0, IsWordChar);
    var q := Span(d, w, IsSpace);
    assert m.value[0] == d[q];
    assert !All(m.value, IsSpace);
    ToUpperIdempotent(Trim(m.value));
  }

  /** A definition written as a name, white space and a one-line type that
      is not a constraint declares that column with the type upper-cased. */
  lemma {:induction false} ColumnOfRender(name: string, ws: string, t: string)
    requires |name| > 0 && All(name, IsWordChar) && |ws| > 0 && All(ws, IsSpace)
    requires t != "" && IsTrimmed(t) && All(t, NotNewline)
    requires !IsConstraint(name + ws + t)
    ensures ColumnOf(name + ws + t) == Some(Entry(name, ToUpper(t)))
  {
    var d := name + ws + t;
    assert d[0] == name[0] && d[|d| - 1] == t[|t| - 1];
    TrimTrimmed(d);
    RenderedRuns(d, name, ws, t);
    MatchRendered(d, name, t, |name| + |ws|);
    StripBackticksWord(name);
    TrimTrimmed(t);
  }

  /** A definition is skipped when its stripped, upper-cased text starts
      with `PRIMARY`, `FOREIGN` or `CONSTRAINT`, an ordinary column whose
      name merely starts with one of them included. */
  lemma {:induction false} ConstraintSkipped(name: string, ws: string, t: string, kw: string)
    requires |name| > 0 && All(name, IsWordChar) && |ws| > 0 && All(ws, IsSpace)
    requires t != "" && IsTrimmed(t) && All(t, NotNewline)
    requires kw == "PRIMARY" || kw == "FOREIGN" || kw == "CONSTRAINT"
    requires StartsWith(ToUpper(name), kw)
    ensures ColumnOf(name + ws + t).None?
  {
    var d := name + ws + t;
    assert d[0] == name[0] && d[|d| - 1] == t[|t| - 1];
    TrimTrimmed(d);
    assert ToUpper(d)[..|kw|] == ToUpper(name)[..|kw|];
  }

  /** The pattern splits such a definition back into its name and type. */
  lemma {:induction false} MatchRendered(d: string, name: string, t: string, q: nat)
    requires |name| > 0 && |name| < q < |d|
    requires Span(d, 0, IsWordChar) == |name| && Span(d, |name|, IsSpace) == q
    requires Span(d, q, NotNewline) == |d| && NotNewline(d[q])
    requires d[..|name|] == name && d[q..] == t
    ensures MatchColumn(d) == Some(Entry(name, t))
  {
    assert TypeStart(d, |name|, q) == Some(q);
    assert d[q..|d|] == t;
  }

  /** Where the three runs of such a definition end. */
  lemma {:induction false} RenderedRuns(d: string, name: string, ws: string, t: string)
    requires d == name + ws + t
    requires |name| > 0 && All(name, IsWordChar) && |ws| > 0 && All(ws, IsSpace)
    requires t != "" && IsTrimmed(t) && All(t, NotNewline)
    ensures Span(d, 0, IsWordChar) == |name|
    ensures Span(d, |name|, IsSpace) == |name| + |ws|
    ensures Span(d, |name| + |ws|, NotNewline) == |d|
    ensures NotNewline(d[|name| + |ws|])
    ensures d[..|name|] == name && d[|name| + |ws|..] == t
  {
    var w, q := |name|, |name| + |ws|;
    assert forall k | 0 <= k < w :: d[k] == name[k];
    assert d[w] == ws[0];
    SpanUnique(d, 0, w, IsWordChar);
    assert forall k | w <= k < q :: d[k] == ws[k - w];
    assert d[q] == t[0];
    SpanUnique(d, w, q, IsSpace);
    assert forall k | q <= k < |d| :: d[k] == t[k - q];
    SpanUnique(d, q, |d|, NotNewline);
  }

  /** `ColumnEntries` one definition further. */
  lemma {:induction false} ColumnEntriesStep(defs: seq<string>, i: nat)
    requires i < |defs|
    ensures ColumnOf(defs[i]).None? ==> ColumnEntries(defs[..i + 1]) == ColumnEntries(defs[..i])
    ensures ColumnOf(defs[i]).Some? ==> ColumnEntries(defs[..i + 1]) == ColumnEntries(defs[..i]) + [ColumnOf(defs[i]).value]
  {
    assert defs[..i + 1][..i] == defs[..i];
    ConcatEmpty(ColumnEntries(defs[..i]));
  }

  /** The column loop: each definition that is not blank, not a constraint
      and matches the pattern assigns its column. */
  method BuildColumns(defs: seq<string>) returns (columns: Dict)
    ensures columns == Columns(defs)
  {
    columns := [];
    for i := 0 to |defs|
      invariant columns == FromPairs(ColumnEntries(defs[..i]))
    {
      ColumnEntriesStep(defs, i);
      var d := Trim(defs[i]);
      if d == "" || IsConstraint(d) {
        assert ColumnOf(defs[i]).None?;
        continue;
      }
      var parts := MatchColumn(d);
      if parts.Some? {
        var name := StripBackticks(parts.value.key);
        var dataType := ToUpper(Trim(parts.value.value));
        assert ColumnOf(defs[i]) == Some(Entry(name, dataType));
        FromPairsSnoc(ColumnEntries(defs[..i]), Entry(name, dataType));
        columns := Set(columns, name, dataType);
      } else {
        assert ColumnOf(defs[i]).None?;
      }
    }
    assert defs[..|defs|] == defs;
  }

  /** The dictionary holds each column once, in the order of its first
      definition, with the type of its last one. */
  lemma {:induction false} ColumnsSpec(defs: seq<string>)
    ensures Keyed(Columns(defs))
    ensures Keys(Columns(defs)) == FirstOccurrences(Keys(ColumnEntries(defs)))
    ensures forall k :: Get(Columns(defs), k) == LastValue(ColumnEntries(defs), k)
  {
    FromPairsSpec(ColumnEntries(defs));
  }

  /** A column as the parser stores it: a word for its name and a
      stripped, non-empty, upper-case type. */
  predicate ColumnShaped(e: Entry) {
    |e.key| > 0 && All(e.key, IsWordChar) && e.value != "" && IsTrimmed(e.value) && ToUpper(e.value) == e.value
  }

  lemma {:induction false} ColumnEntriesShape(defs: seq<string>)
    ensures forall k | 0 <= k < |ColumnEntries(defs)| :: ColumnShaped(ColumnEntries(defs)[k])
    decreases |defs|
  {
    if defs != [] {
      var n := |defs| - 1;
      ColumnEntriesShape(defs[..n]);
      ColumnEntriesStep(defs, n);
      assert defs[..n + 1] == defs;
      if ColumnOf(defs[n]).Some? {
        ColumnOfShape(defs[n]);
      }
    }
  }

  /** The column dictionary holds distinct, well-shaped columns, and is
      empty only when no definition declares a column. */
  lemma {:induction false} ColumnsShape(defs: seq<string>)
    ensures Keyed(Columns(defs))
    ensures Columns(defs) == [] <==> ColumnEntries(defs) == []
    ensures forall k | 0 <= k < |Columns(defs)| :: ColumnShaped(Columns(defs)[k])
  {
    var entries := ColumnEntries(defs);
    FromPairsSpec(entries);
    FromPairsEmpty(entries);
    ColumnEntriesShape(defs);
    FromPairsFrom(entries);
    forall k | 0 <= k < |Columns(defs)| ensures ColumnShaped(Columns(defs)[k]) {
      assert Columns(defs)[k] in entries;
    }
  }

  // ------------------------------------------------------------ the schema

  /** The message of a `SchemaError` raised for the file at `path`: every
      failure inside the parser is caught and raised again with this
      prefix. */
  function Wrapped(path: string, message: string): string {
    "Error parsing schema " + path + ": " + message
  }

  /** `parse_schema` on the file at `path`, given what reading it gave:
      its text, or the message of the read error. */
  function SchemaOf(path: string, file: Result<string, string>): Result<Schema, string> {
    match file
    case Err(e) => Err(Wrapped(path, e))
    case Ok(content) =>
      match FindTable(content)
      case None => Err(Wrapped(path, "No valid CREATE TABLE statement found in " + path))
      case Some(table) =>
        var block := Trim(ColumnBlock(content));
        if block == "" then Err(Wrapped(path, "No columns found in " + path))
        else
          var columns := Columns(SplitDefs(block));
          if columns == [] then Err(Wrapped(path, "No valid columns parsed in " + path))
          else Ok(Schema(table, columns))
  }

  /** `parse_schema`: the table name, the column block, its definitions and
      the column dictionary, each step failing as the program does. */
  method ParseSchema(path: string, file: Result<string, string>) returns (r: Result<Schema, string>)
    ensures r == SchemaOf(path, file)
  {
    if file.Err? {
      return Err(Wrapped(path, file.error));
    }
    var content := file.value;
    var table := FindTable(content);
    if table.None? {
      return Err(Wrapped(path, "No valid CREATE TABLE statement found in " + path));
    }
    var block := ExtractColumnBlock(content);
    block := Trim(block);
    if block == "" {
      return Err(Wrapped(path, "No columns found in " + path));
    }
    var defs := SplitColumnDefs(block);
    var columns := BuildColumns(defs);
    if columns == [] {
      return Err(Wrapped(path, "No valid columns parsed in " + path));
    }
    return Ok(Schema(table.value, columns));
  }

  /** Every error names the file it was raised for. */
  lemma {:induction false} SchemaErrorWrapped(path: string, file: Result<string, string>)
    requires SchemaOf(path, file).Err?
    ensures StartsWith(SchemaOf(path, file).error, "Error parsing schema " + path + ": ")
  {
    var e := SchemaOf(path, file).error;
    var prefix := "Error parsing schema " + path + ": ";
    assert e[..|prefix|] == prefix;
  }

  /** A text is refused exactly when it has no `CREATE TABLE name (`, when its
      column block is blank, or when no definition in it declares a column. */
  lemma {:induction false} SchemaRefused(path: string, content: string)
    ensures SchemaOf(path, Ok(content)).Err? <==>
              || (forall j | 0 <= j <= |content| :: TableAt(content, j).None?)
              || Trim(ColumnBlock(content)) == ""
              || ColumnEntries(SplitDefs(Trim(ColumnBlock(content)))) == []
  {
    FindTableNone(content);
    var defs := SplitDefs(Trim(ColumnBlock(content)));
    ColumnsShape(defs);
  }

  /** A schema that parses has the table name captured at the leftmost
      match and at least one column; its column names are distinct words
      and its types stripped, non-empty and upper-case. */
  lemma {:induction false} SchemaAccepted(path: string, content: string)
    requires SchemaOf(path, Ok(content)).Ok?
    ensures var sc := SchemaOf(path, Ok(content)).value;
            && |sc.table| > 0 && All(sc.table, IsWordChar)
            && (exists j | 0 <= j <= |content| :: Some(sc.table) == TableAt(content, j) && forall m | 0 <= m < j :: TableAt(content, m).None?)
            && |sc.columns| > 0 && Keyed(sc.columns)
            && forall k | 0 <= k < |sc.columns| :: ColumnShaped(sc.columns[k])
  {
    FindTableLeftmost(content);
    ColumnsShape(SplitDefs(Trim(ColumnBlock(content))));
  }
}
