/** `SQLGenerator`: the shared fields read from their file and checked
    against every table, one record of shared values per statement index,
    and the INSERT statements of each table. */
module SqlGenerator {
  import opened Basics
  import opened Strings
  import opened Types
  import opened TypeParser
  import opened DataGenerator
  import opened SchemaParser

  // ------------------------------------------------------------ shared fields file

  /** The list comprehension of `read_shared_fields`: each piece stripped,
      the pieces that strip to nothing dropped. */
  function Kept(pieces: seq<string>): (r: seq<string>)
    ensures |r| <= |pieces|
    decreases |pieces|
  {
    if pieces == [] then []
    else
      var t := Trim(pieces[|pieces| - 1]);
      Kept(pieces[..|pieces| - 1]) + (if t == [] then [] else [t])
  }

  /** The fields one line of the file names. */
  function LineFields(line: string): seq<string> {
    Kept(SplitOn(line, ','))
  }

  /** The fields of all lines, in file order, repeats included. */
  function SharedFieldsOf(lines: seq<string>): seq<string>
    decreases |lines|
  {
    if lines == [] then []
    else SharedFieldsOf(lines[..|lines| - 1]) + LineFields(lines[|lines| - 1])
  }

  /** What `read_shared_fields` can return: names without a comma and
      without surrounding white space, none of them empty. */
  predicate FieldName(f: string) {
    f != [] && IsTrimmed(f) && ',' !in f
  }

  /** `read_shared_fields` once the file's lines are read. */
  method ReadSharedFields(lines: seq<string>) returns (fields: seq<string>)
    ensures fields == SharedFieldsOf(lines)
    ensures forall i | 0 <= i < |fields| :: FieldName(fields[i])
  {
    fields := [];
    for i := 0 to |lines|
      invariant fields == SharedFieldsOf(lines[..i])
    {
      assert lines[..i + 1][..i] == lines[..i];
      fields := fields + LineFields(lines[i]);
    }
    assert lines[..|lines|] == lines;
    SharedFieldsNamed(lines);
  }

  /** Stripping keeps a character out that the text did not have. */
  lemma {:induction false} TrimWithout(s: string, c: char)
    requires c !in s
    ensures c !in Trim(s)
  {
    var a := Span(s, 0, IsSpace);
    if a != |s| {
      var b := SpanBack(s, |s|, IsSpace);
      assert forall k | 0 <= k < |s[a..b]| :: s[a..b][k] == s[a + k];
    }
  }

  lemma {:induction false} KeptNamed(pieces: seq<string>)
    requires forall i | 0 <= i < |pieces| :: ',' !in pieces[i]
    ensures forall i | 0 <= i < |Kept(pieces)| :: FieldName(Kept(pieces)[i])
    decreases |pieces|
  {
    if pieces != [] {
      var init := pieces[..|pieces| - 1];
      assert forall i | 0 <= i < |init| :: init[i] == pieces[i];
      KeptNamed(init);
      TrimWithout(pieces[|pieces| - 1], ',');
    }
  }

  /** Every field read is a bare name. */
  lemma {:induction false} SharedFieldsNamed(lines: seq<string>)
    ensures forall i | 0 <= i < |SharedFieldsOf(lines)| :: FieldName(SharedFieldsOf(lines)[i])
    decreases |lines|
  {
    if lines != [] {
      SharedFieldsNamed(lines[..|lines| - 1]);
      SplitOnPieces(lines[|lines| - 1], ',');
      KeptNamed(SplitOn(lines[|lines| - 1], ','));
    }
  }

  /** Pieces that each strip to a name are kept, stripped, one for one. */
  lemma {:induction false} KeptAll(pieces: seq<string>, fs: seq<string>)
    requires |pieces| == |fs|
    requires forall i | 0 <= i < |fs| :: fs[i] != [] && Trim(pieces[i]) == fs[i]
    ensures Kept(pieces) == fs
    decreases |pieces|
  {
    if pieces != [] {
      var n := |pieces| - 1;
      var init, front := pieces[..n], fs[..n];
      assert fs == front + [fs[n]];
      assert Kept(init) == front by {
        assert forall i | 0 <= i < n :: init[i] == pieces[i] && front[i] == fs[i];
        KeptAll(init, front);
      }
      assert Trim(pieces[n]) == fs[n] && fs[n] != [];
    }
  }

  /** One line of the file as it is usually written: the names separated by
      `", "`, ended by a line break. */
  function FieldLine(fs: seq<string>): string {
    Join(fs, ", ") + "\n"
  }

  /** `Join(fs, ", ")` cut at its commas: the names, each after the first
      with the space that followed the comma. */
  function Spaced(fs: seq<string>): (ps: seq<string>)
    ensures |ps| == |fs|
  {
    seq(|fs|, i requires 0 <= i < |fs| => if i == 0 then fs[0] else " " + fs[i])
  }

  lemma {:induction false} JoinSpaced(fs: seq<string>)
    ensures Join(fs, ", ") == Join(Spaced(fs), ",")
    decreases |fs|
  {
    if |fs| > 1 {
      var n := |fs| - 1;
      JoinSpaced(fs[..n]);
      assert Spaced(fs)[..n] == Spaced(fs[..n]);
      ConcatAssoc(Join(Spaced(fs[..n]), ","), ",", " " + fs[n]);
    }
  }

  lemma {:induction false} SplitFieldLine(fs: seq<string>)
    requires fs != []
    requires forall i | 0 <= i < |fs| :: ',' !in fs[i]
    ensures SplitOn(FieldLine(fs), ',')
            == Spaced(fs)[..|fs| - 1] + [Spaced(fs)[|fs| - 1] + "\n"]
  {
    var ps := Spaced(fs);
    forall i | 0 <= i < |ps| ensures ',' !in ps[i] {
      if i > 0 { assert ps[i] == " " + fs[i]; }
    }
    JoinSplitOn(ps, ',');
    JoinSpaced(fs);
    var s := Join(ps, ",");
    assert (s + "\n")[..|s|] == s;
  }

  /** A line written from names reads back as those names. */
  lemma {:induction false} LineFieldsOfLine(fs: seq<string>)
    requires fs != []
    requires forall i | 0 <= i < |fs| :: FieldName(fs[i])
    ensures LineFields(FieldLine(fs)) == fs
  {
    SplitFieldLine(fs);
    var n := |fs| - 1;
    var ps := Spaced(fs)[..n] + [Spaced(fs)[n] + "\n"];
    forall i | 0 <= i < |fs| ensures Trim(ps[i]) == fs[i] {
      var w1: string := if i == 0 then [] else " ";
      var w2: string := if i == n then "\n" else [];
      assert ps[i] == w1 + fs[i] + w2;
      TrimPadded(w1, fs[i], w2);
    }
    KeptAll(ps, fs);
  }

  /** Reading is the inverse of writing the names line by line: a file of
      such lines gives all its names in order. */
  lemma {:induction false} ReadWrittenFields(rows: seq<seq<string>>)
    requires forall r | 0 <= r < |rows| :: rows[r] != []
    requires forall r, i | 0 <= r < |rows| && 0 <= i < |rows[r]| :: FieldName(rows[r][i])
    ensures SharedFieldsOf(seq(|rows|, r requires 0 <= r < |rows| => FieldLine(rows[r])))
            == Flatten(rows)
    decreases |rows|
  {
    var lines := seq(|rows|, r requires 0 <= r < |rows| => FieldLine(rows[r]));
    if rows != [] {
      var n := |rows| - 1;
      ReadWrittenFields(rows[..n]);
      assert lines[..n] == seq(n, r requires 0 <= r < n => FieldLine(rows[..n][r]));
      LineFieldsOfLine(rows[n]);
    }
  }

  /** The names of all rows, one after the other. */
  function Flatten(rows: seq<seq<string>>): (r: seq<string>)
    decreases |rows|
  {
    if rows == [] then [] else Flatten(rows[..|rows| - 1]) + rows[|rows| - 1]
  }

  // ------------------------------------------------------------ validation

  /** `field in columns` for a table's column dictionary. */
  predicate HasField(sc: Schema, f: string) {
    f in Keys(sc.columns)
  }

  function MissingMessage(f: string, table: string): string {
    "Shared field '" + f + "' not found in table '" + table + "'"
  }

  /** Every shared field is a column of every table. */
  predicate AllPresent(fields: seq<string>, schemas: seq<Schema>) {
    forall i, k | 0 <= i < |fields| && 0 <= k < |schemas| :: HasField(schemas[k], fields[i])
  }

  /** `fields[i]` is the first field some table lacks and `schemas[j]` the
      first table that lacks it: where the nested loops raise. */
  predicate FirstMissing(fields: seq<string>, schemas: seq<Schema>, i: int, j: int) {
    && 0 <= i < |fields| && 0 <= j < |schemas| && !HasField(schemas[j], fields[i])
    && (forall i', k | 0 <= i' < i && 0 <= k < |schemas| :: HasField(schemas[k], fields[i']))
    && (forall k | 0 <= k < j :: HasField(schemas[k], fields[i]))
  }

  /** The first missing pair is unique, so the message is determined. */
  lemma {:induction false} FirstMissingUnique(fields: seq<string>, schemas: seq<Schema>,
                                              i: int, j: int, i': int, j': int)
    requires FirstMissing(fields, schemas, i, j) && FirstMissing(fields, schemas, i', j')
    ensures i == i' && j == j'
  {
  }

  /** `validate_shared_fields`: passes exactly when every field is in every
      table, and otherwise fails naming the first field missing and the
      first table it is missing from. */
  method ValidateSharedFields(fields: seq<string>, schemas: seq<Schema>) returns (r: Outcome<string>)
    ensures r.Pass? <==> AllPresent(fields, schemas)
    ensures r.Fail? ==> exists i, j :: FirstMissing(fields, schemas, i, j)
                                    && r.error == MissingMessage(fields[i], schemas[j].table)
    ensures r == Validation(fields, schemas)
  {
    for i := 0 to |fields|
      invariant forall i', k | 0 <= i' < i && 0 <= k < |schemas| :: HasField(schemas[k], fields[i'])
    {
      for j := 0 to |schemas|
        invariant forall k | 0 <= k < j :: HasField(schemas[k], fields[i])
      {
        if fields[i] !in Keys(schemas[j].columns) {
          assert FirstMissing(fields, schemas, i, j);
          ghost var v := Validation(fields, schemas);
          ghost var i', j' :| FirstMissing(fields, schemas, i', j')
                              && v.error == MissingMessage(fields[i'], schemas[j'].table);
          FirstMissingUnique(fields, schemas, i, j, i', j');
          return Fail(MissingMessage(fields[i], schemas[j].table));
        }
      }
    }
    return Pass;
  }

  /** A table lacking `fields[i]` where the earlier fields are everywhere
      gives a first missing pair at or before `j`. */
  lemma {:induction false} FirstTableMissing(fields: seq<string>, schemas: seq<Schema>, i: int, j: int)
    requires 0 <= i < |fields| && 0 <= j < |schemas| && !HasField(schemas[j], fields[i])
    requires forall i', k | 0 <= i' < i && 0 <= k < |schemas| :: HasField(schemas[k], fields[i'])
    ensures exists j' | 0 <= j' <= j :: FirstMissing(fields, schemas, i, j')
    decreases j
  {
    if forall k | 0 <= k < j :: HasField(schemas[k], fields[i]) {
      assert FirstMissing(fields, schemas, i, j);
    } else {
      var k :| 0 <= k < j && !HasField(schemas[k], fields[i]);
      FirstTableMissing(fields, schemas, i, k);
    }
  }

  /** Some field missing from some table gives a first missing pair. */
  lemma {:induction false} FirstFieldMissing(fields: seq<string>, schemas: seq<Schema>, i: int, j: int)
    requires 0 <= i < |fields| && 0 <= j < |schemas| && !HasField(schemas[j], fields[i])
    ensures exists i', j' :: FirstMissing(fields, schemas, i', j')
    decreases i
  {
    if forall i', k | 0 <= i' < i && 0 <= k < |schemas| :: HasField(schemas[k], fields[i']) {
      FirstTableMissing(fields, schemas, i, j);
    } else {
      var i', k :| 0 <= i' < i && 0 <= k < |schemas| && !HasField(schemas[k], fields[i']);
      FirstFieldMissing(fields, schemas, i', k);
    }
  }

  /** The outcome of validation as a value, for the whole run. */
  ghost function Validation(fields: seq<string>, schemas: seq<Schema>): (r: Outcome<string>)
    ensures r.Pass? <==> AllPresent(fields, schemas)
    ensures r.Fail? ==> exists i, j :: FirstMissing(fields, schemas, i, j)
                                    && r.error == MissingMessage(fields[i], schemas[j].table)
  {
    if AllPresent(fields, schemas) then Pass
    else
      var i0, j0 :| 0 <= i0 < |fields| && 0 <= j0 < |schemas| && !HasField(schemas[j0], fields[i0]);
      FirstFieldMissing(fields, schemas, i0, j0);
      var i, j :| FirstMissing(fields, schemas, i, j);
      Fail(MissingMessage(fields[i], schemas[j].table))
  }

  // ------------------------------------------------------------ shared values

  /** `schemas[k]` is the first table with a column `field`. */
  predicate FirstWith(schemas: seq<Schema>, field: string, k: int) {
    0 <= k < |schemas| && HasField(schemas[k], field)
    && forall k' | 0 <= k' < k :: !HasField(schemas[k'], field)
  }

  /** The type text `next(...)` finds for `field` in `generate_shared_values`:
      the column's type in the first table that has it, `None` where there
      is none and `next` would raise. */
  function FieldType(field: string, schemas: seq<Schema>): Option<string>
    decreases |schemas|
  {
    if schemas == [] then None
    else if field in Keys(schemas[0].columns) then Get(schemas[0].columns, field)
    else FieldType(field, schemas[1..])
  }

  /** `FieldType` finds a type exactly when some table has the field, and
      then it is the field's type in the first such table. */
  lemma {:induction false} FieldTypeFirst(field: string, schemas: seq<Schema>)
    ensures FieldType(field, schemas).Some? <==> exists k | 0 <= k < |schemas| :: HasField(schemas[k], field)
    ensures FieldType(field, schemas).Some? ==>
              exists k :: FirstWith(schemas, field, k) && FieldType(field, schemas) == Get(schemas[k].columns, field)
    decreases |schemas|
  {
    if schemas != [] {
      if field in Keys(schemas[0].columns) {
        assert FirstWith(schemas, field, 0);
      } else {
        var rest := schemas[1..];
        FieldTypeFirst(field, rest);
        assert forall k | 0 <= k < |rest| :: rest[k] == schemas[k + 1];
        if FieldType(field, rest).Some? {
          var k :| FirstWith(rest, field, k) && FieldType(field, rest) == Get(rest[k].columns, field);
          assert FirstWith(schemas, field, k + 1);
        } else {
          assert forall k | 0 < k < |schemas| :: schemas[k] == rest[k - 1];
        }
      }
    }
  }

  /** Every shared field has a table to take its type from. */
  predicate Declared(fields: seq<string>, schemas: seq<Schema>) {
    forall i | 0 <= i < |fields| :: FieldType(fields[i], schemas).Some?
  }

  /** A value generator: the literal for a type text and the stream after
      its draws. The statements are built with `Generator(env)`, which is
      `generate_value`; the loops are stated for any generator so that
      their proofs do not depend on how a value is made. */
  type Draw = (string, Rng) -> (string, Rng)

  function Generator(env: Env): (gen: Draw) {
    (t: string, r: Rng) => if ValidEnv(env) then GenerateValue(t, env, r) else (Unknown, r)
  }

  /** `v` is a value the generator can return for `fullType`: the value of
      some draw of it. */
  ghost predicate Fits(gen: Draw, fullType: string, v: string) {
    exists rng: Rng :: gen(fullType, rng).0 == v
  }

  /** A value `generate_value` can return is one `MayGenerate` allows for
      the parsed type, or `'Unknown'` when the text does not parse. */
  lemma {:induction false} FitsMeaning(env: Env, fullType: string, v: string)
    requires ValidEnv(env) && Fits(Generator(env), fullType, v)
    ensures ParseDataType(fullType).Err? ==> v == Unknown
    ensures ParseDataType(fullType).Ok? ==> MayGenerate(ParseDataType(fullType).value, env, v)
  {
    var rng: Rng :| Generator(env)(fullType, rng).0 == v;
    assert Generator(env)(fullType, rng) == GenerateValue(fullType, env, rng);
  }

  lemma {:induction false} DrawFits(gen: Draw, fullType: string, rng: Rng)
    ensures Fits(gen, fullType, gen(fullType, rng).0)
  {
  }

  /** The assignments the inner loop of `generate_shared_values` makes for
      one record, in field order, and the stream after the last draw. */
  function SharedPairs(fields: seq<string>, schemas: seq<Schema>, gen: Draw, rng: Rng): (r: (seq<Entry>, Rng))
    requires Declared(fields, schemas)
    ensures |r.0| == |fields|
    ensures forall i | 0 <= i < |fields| :: r.0[i].key == fields[i]
    decreases |fields|
  {
    if fields == [] then ([], rng)
    else
      var n := |fields| - 1;
      assert forall i | 0 <= i < n :: fields[..n][i] == fields[i];
      var front := SharedPairs(fields[..n], schemas, gen, rng);
      var drawn := gen(FieldType(fields[n], schemas).value, front.1);
      (front.0 + [Entry(fields[n], drawn.0)], drawn.1)
  }

  /** Each value assigned is one `generate_value` may give for the field's
      type. */
  lemma {:induction false} SharedPairsFit(fields: seq<string>, schemas: seq<Schema>, gen: Draw, rng: Rng)
    requires Declared(fields, schemas)
    ensures forall i | 0 <= i < |fields| ::
              Fits(gen, FieldType(fields[i], schemas).value, SharedPairs(fields, schemas, gen, rng).0[i].value)
    decreases |fields|
  {
    if fields != [] {
      var n := |fields| - 1;
      assert forall i | 0 <= i < n :: fields[..n][i] == fields[i];
      SharedPairsFit(fields[..n], schemas, gen, rng);
      var r1 := SharedPairs(fields[..n], schemas, gen, rng).1;
      DrawFits(gen, FieldType(fields[n], schemas).value, r1);
    }
  }

  /** One record of shared values: every field a key, once, in order of
      first mention, holding a value drawn for the field's type in the
      first table that has it. */
  ghost predicate SharedRecord(rec: Dict, fields: seq<string>, schemas: seq<Schema>, gen: Draw)
    requires Declared(fields, schemas)
  {
    && Keyed(rec)
    && Keys(rec) == FirstOccurrences(fields)
    && forall x | x in rec :: x.key in fields && Fits(gen, FieldType(x.key, schemas).value, x.value)
  }

  lemma {:induction false} FirstOccurrencesIn(ks: seq<string>)
    ensures forall k :: k in FirstOccurrences(ks) <==> k in ks
    decreases |ks|
  {
    if ks != [] {
      var n := |ks| - 1;
      FirstOccurrencesIn(ks[..n]);
      assert ks == ks[..n] + [ks[n]];
    }
  }

  /** The dictionary the assignments build is a shared record. */
  lemma {:induction false} PairsRecord(pairs: seq<Entry>, fields: seq<string>, schemas: seq<Schema>, gen: Draw)
    requires Declared(fields, schemas)
    requires |pairs| == |fields|
    requires forall i | 0 <= i < |fields| :: pairs[i].key == fields[i]
                                          && Fits(gen, FieldType(fields[i], schemas).value, pairs[i].value)
    ensures SharedRecord(FromPairs(pairs), fields, schemas, gen)
  {
    FromPairsSpec(pairs);
    FromPairsFrom(pairs);
    assert Keys(pairs) == fields;
    forall x | x in FromPairs(pairs)
      ensures x.key in fields && Fits(gen, FieldType(x.key, schemas).value, x.value)
    {
      var i :| 0 <= i < |pairs| && pairs[i] == x;
    }
  }

  /** The records `generate_shared_values` returns, one per statement
      index, and the stream after the last draw. */
  function SharedValuesOf(n: nat, fields: seq<string>, schemas: seq<Schema>, gen: Draw, rng: Rng): (r: (seq<Dict>, Rng))
    requires Declared(fields, schemas)
    ensures |r.0| == n
    decreases n
  {
    if n == 0 then ([], rng)
    else
      var front := SharedValuesOf(n - 1, fields, schemas, gen, rng);
      var record := SharedPairs(fields, schemas, gen, front.1);
      (front.0 + [FromPairs(record.0)], record.1)
  }

  /** Every record is a shared record. */
  lemma {:induction false} SharedValuesRecords(n: nat, fields: seq<string>, schemas: seq<Schema>, gen: Draw, rng: Rng)
    requires Declared(fields, schemas)
    ensures forall k | 0 <= k < n :: SharedRecord(SharedValuesOf(n, fields, schemas, gen, rng).0[k], fields, schemas, gen)
    decreases n
  {
    if n > 0 {
      SharedValuesRecords(n - 1, fields, schemas, gen, rng);
      var r1 := SharedValuesOf(n - 1, fields, schemas, gen, rng).1;
      SharedPairsFit(fields, schemas, gen, r1);
      PairsRecord(SharedPairs(fields, schemas, gen, r1).0, fields, schemas, gen);
    }
  }

  /** The inner loop of `generate_shared_values`: one record, assigned
      field by field. */
  method SharedRecordOf(fields: seq<string>, schemas: seq<Schema>, gen: Draw, rng: Rng)
    returns (record: Dict, next: Rng)
    requires Declared(fields, schemas)
    ensures record == FromPairs(SharedPairs(fields, schemas, gen, rng).0)
    ensures next == SharedPairs(fields, schemas, gen, rng).1
  {
    record := [];
    ghost var pairs: seq<Entry> := [];
    next := rng;
    for i := 0 to |fields|
      invariant Declared(fields[..i], schemas)
      invariant pairs == SharedPairs(fields[..i], schemas, gen, rng).0
      invariant next == SharedPairs(fields[..i], schemas, gen, rng).1
      invariant record == FromPairs(pairs)
    {
      assert fields[..i + 1][..i] == fields[..i];
      var (v, r) := gen(FieldType(fields[i], schemas).value, next);
      FromPairsSnoc(pairs, Entry(fields[i], v));
      record := Set(record, fields[i], v);
      pairs := pairs + [Entry(fields[i], v)];
      next := r;
    }
    assert fields[..|fields|] == fields;
  }

  /** `generate_shared_values`: `numRecords` records, each from a fresh
      run of the inner loop. */
  method GenerateSharedValues(fields: seq<string>, schemas: seq<Schema>, numRecords: nat, gen: Draw, rng: Rng)
    returns (values: seq<Dict>, next: Rng)
    requires Declared(fields, schemas)
    ensures values == SharedValuesOf(numRecords, fields, schemas, gen, rng).0
    ensures next == SharedValuesOf(numRecords, fields, schemas, gen, rng).1
  {
    values := [];
    next := rng;
    for n := 0 to numRecords
      invariant values == SharedValuesOf(n, fields, schemas, gen, rng).0
      invariant next == SharedValuesOf(n, fields, schemas, gen, rng).1
    {
      var record;
      record, next := SharedRecordOf(fields, schemas, gen, next);
      values := values + [record];
    }
  }

  // ------------------------------------------------------------ statements

  /** Python's truth value of `shared_values`: present and not empty. */
  predicate UsesShared(shared: Option<seq<Dict>>) {
    shared.Some? && shared.value != []
  }

  /** The records `0 .. n - 1` hold every shared field, so the lookup
      `shared_values[record_idx][col]` succeeds. */
  predicate SharedReady(fields: seq<string>, shared: Option<seq<Dict>>, n: nat) {
    UsesShared(shared) ==>
      n <= |shared.value| && forall r, f | 0 <= r < n && f in fields :: f in Keys(shared.value[r])
  }

  /** The values the innermost loop lists for record `idx`: the shared
      value where `col in shared_fields and shared_values` holds, a fresh
      `generate_value(columns[col])` otherwise. */
  function RowValues(keys: seq<string>, columns: Dict, fields: seq<string>, shared: Option<seq<Dict>>,
                     idx: nat, gen: Draw, rng: Rng): (r: (seq<string>, Rng))
    requires forall c | 0 <= c < |keys| :: keys[c] in Keys(columns)
    requires SharedReady(fields, shared, idx + 1)
    ensures |r.0| == |keys|
    decreases |keys|
  {
    if keys == [] then ([], rng)
    else
      var n := |keys| - 1;
      assert forall c | 0 <= c < n :: keys[..n][c] == keys[c];
      var front := RowValues(keys[..n], columns, fields, shared, idx, gen, rng);
      var col := keys[n];
      if col in fields && UsesShared(shared) then
        (front.0 + [Get(shared.value[idx], col).value], front.1)
      else
        var drawn := gen(Get(columns, col).value, front.1);
        (front.0 + [drawn.0], drawn.1)
  }

  /** `v` is a value record `idx` may list for column `col`: the record's
      shared value for a shared field, while there are shared values, and
      otherwise a value `generate_value` can give for the column's type. */
  ghost predicate ValueFits(v: string, col: string, columns: Dict, fields: seq<string>,
                            shared: Option<seq<Dict>>, idx: nat, gen: Draw)
  {
    if col in fields && UsesShared(shared) then
      idx < |shared.value| && Get(shared.value[idx], col) == Some(v)
    else
      Get(columns, col).Some? && Fits(gen, Get(columns, col).value, v)
  }

  /** One value per column, each as `ValueFits` allows. */
  ghost predicate RowFits(vals: seq<string>, keys: seq<string>, columns: Dict, fields: seq<string>,
                          shared: Option<seq<Dict>>, idx: nat, gen: Draw)
    decreases |keys|
  {
    && |vals| == |keys|
    && (keys != [] ==>
          var n := |keys| - 1;
          && RowFits(vals[..n], keys[..n], columns, fields, shared, idx, gen)
          && ValueFits(vals[n], keys[n], columns, fields, shared, idx, gen))
  }

  /** The value of column `c` is one `ValueFits` allows. */
  lemma {:induction false} RowFitsAt(vals: seq<string>, keys: seq<string>, columns: Dict, fields: seq<string>,
                                     shared: Option<seq<Dict>>, idx: nat, gen: Draw, c: nat)
    requires RowFits(vals, keys, columns, fields, shared, idx, gen) && c < |keys|
    ensures ValueFits(vals[c], keys[c], columns, fields, shared, idx, gen)
    decreases |keys|
  {
    var n := |keys| - 1;
    if c < n {
      RowFitsAt(vals[..n], keys[..n], columns, fields, shared, idx, gen, c);
    }
  }

  lemma {:induction false} RowFitsSnoc(vals: seq<string>, keys: seq<string>, columns: Dict, fields: seq<string>,
                                       shared: Option<seq<Dict>>, idx: nat, gen: Draw, v: string, col: string)
    requires RowFits(vals, keys, columns, fields, shared, idx, gen)
    requires ValueFits(v, col, columns, fields, shared, idx, gen)
    ensures RowFits(vals + [v], keys + [col], columns, fields, shared, idx, gen)
  {
    assert (vals + [v])[..|vals|] == vals;
    assert (keys + [col])[..|keys|] == keys;
  }

  lemma {:induction false} RowValuesFit(keys: seq<string>, columns: Dict, fields: seq<string>,
                                        shared: Option<seq<Dict>>, idx: nat, gen: Draw, rng: Rng)
    requires forall c | 0 <= c < |keys| :: keys[c] in Keys(columns)
    requires SharedReady(fields, shared, idx + 1)
    ensures RowFits(RowValues(keys, columns, fields, shared, idx, gen, rng).0, keys, columns, fields, shared, idx, gen)
    decreases |keys|
  {
    if keys != [] {
      var n := |keys| - 1;
      assert forall c | 0 <= c < n :: keys[..n][c] == keys[c];
      RowValuesFit(keys[..n], columns, fields, shared, idx, gen, rng);
      RowValuesFitStep(keys, columns, fields, shared, idx, gen, rng);
    }
  }

  /** The last value of a row fits, given that the values before it do. */
  lemma {:induction false} RowValuesFitStep(keys: seq<string>, columns: Dict, fields: seq<string>,
                                            shared: Option<seq<Dict>>, idx: nat, gen: Draw, rng: Rng)
    requires keys != [] && forall c | 0 <= c < |keys| :: keys[c] in Keys(columns)
    requires SharedReady(fields, shared, idx + 1)
    requires var n := |keys| - 1;
             && (forall c | 0 <= c < n :: keys[..n][c] == keys[c])
             && RowFits(RowValues(keys[..n], columns, fields, shared, idx, gen, rng).0, keys[..n], columns, fields, shared, idx, gen)
    ensures RowFits(RowValues(keys, columns, fields, shared, idx, gen, rng).0, keys, columns, fields, shared, idx, gen)
  {
    var n := |keys| - 1;
    var init := keys[..n];
    var front := RowValues(init, columns, fields, shared, idx, gen, rng);
    var vals := RowValues(keys, columns, fields, shared, idx, gen, rng).0;
    var v := vals[n];
    assert vals == front.0 + [v];
    if !(keys[n] in fields && UsesShared(shared)) {
      DrawFits(gen, Get(columns, keys[n]).value, front.1);
    }
    assert ValueFits(v, keys[n], columns, fields, shared, idx, gen);
    RowFitsSnoc(front.0, init, columns, fields, shared, idx, gen, v, keys[n]);
    assert keys == init + [keys[n]];
  }

  /** Two tables that both have a shared field list the same value for it
      in the rows of one record: the record's shared value. */
  lemma {:induction false} SharedColumnsAgree(vals1: seq<string>, sc1: Schema, c1: int,
                                              vals2: seq<string>, sc2: Schema, c2: int,
                                              fields: seq<string>, shared: Option<seq<Dict>>, idx: nat, gen: Draw)
    requires UsesShared(shared) && idx < |shared.value|
    requires RowFits(vals1, Keys(sc1.columns), sc1.columns, fields, shared, idx, gen)
    requires RowFits(vals2, Keys(sc2.columns), sc2.columns, fields, shared, idx, gen)
    requires 0 <= c1 < |sc1.columns| && 0 <= c2 < |sc2.columns|
    requires Keys(sc1.columns)[c1] == Keys(sc2.columns)[c2] && Keys(sc1.columns)[c1] in fields
    ensures vals1[c1] == vals2[c2] && Get(shared.value[idx], Keys(sc1.columns)[c1]) == Some(vals1[c1])
  {
    RowFitsAt(vals1, Keys(sc1.columns), sc1.columns, fields, shared, idx, gen, c1);
    RowFitsAt(vals2, Keys(sc2.columns), sc2.columns, fields, shared, idx, gen, c2);
  }

  /** The f-string `INSERT INTO {table} ({cols}) VALUES ({values});`. */
  function InsertText(table: string, cols: seq<string>, vals: seq<string>): string {
    "INSERT INTO " + table + " (" + Join(cols, ", ") + ") VALUES (" + Join(vals, ", ") + ");"
  }

  /** The value rows of one table, one per record index. */
  function TableRows(sc: Schema, n: nat, fields: seq<string>, shared: Option<seq<Dict>>,
                     gen: Draw, rng: Rng): (r: (seq<seq<string>>, Rng))
    requires SharedReady(fields, shared, n)
    ensures |r.0| == n
    decreases n
  {
    if n == 0 then ([], rng)
    else
      var front := TableRows(sc, n - 1, fields, shared, gen, rng);
      var row := RowValues(Keys(sc.columns), sc.columns, fields, shared, n - 1, gen, front.1);
      (front.0 + [row.0], row.1)
  }

  lemma {:induction false} LastRowFits(sc: Schema, n: nat, fields: seq<string>, shared: Option<seq<Dict>>,
                                       gen: Draw, rng: Rng)
    requires SharedReady(fields, shared, n) && 0 < n
    ensures RowFits(TableRows(sc, n, fields, shared, gen, rng).0[n - 1], Keys(sc.columns), sc.columns, fields, shared, n - 1, gen)
  {
    var front := TableRows(sc, n - 1, fields, shared, gen, rng);
    var row := RowValues(Keys(sc.columns), sc.columns, fields, shared, n - 1, gen, front.1);
    assert TableRows(sc, n, fields, shared, gen, rng).0[n - 1] == row.0;
    RowValuesFit(Keys(sc.columns), sc.columns, fields, shared, n - 1, gen, front.1);
  }

  /** Drawing one more record leaves the earlier rows as they were. */
  lemma {:induction false} TableRowsEarlier(sc: Schema, n: nat, fields: seq<string>, shared: Option<seq<Dict>>,
                                            gen: Draw, rng: Rng, i: nat)
    requires SharedReady(fields, shared, n) && i < n - 1
    ensures TableRows(sc, n, fields, shared, gen, rng).0[i] == TableRows(sc, n - 1, fields, shared, gen, rng).0[i]
  {
  }

  /** Row `i` of a table is one record `i` may give for its columns. */
  lemma {:induction false} TableRowFits(sc: Schema, n: nat, fields: seq<string>, shared: Option<seq<Dict>>,
                                        gen: Draw, rng: Rng, i: nat)
    requires SharedReady(fields, shared, n) && i < n
    ensures RowFits(TableRows(sc, n, fields, shared, gen, rng).0[i], Keys(sc.columns), sc.columns, fields, shared, i, gen)
    decreases n
  {
    if i == n - 1 {
      LastRowFits(sc, n, fields, shared, gen, rng);
    } else {
      TableRowFits(sc, n - 1, fields, shared, gen, rng, i);
      TableRowsEarlier(sc, n, fields, shared, gen, rng, i);
    }
  }

  /** The statements of a table from its value rows. */
  function Statements(sc: Schema, rows: seq<seq<string>>): (stmts: seq<string>)
    ensures |stmts| == |rows|
    decreases |rows|
  {
    if rows == [] then []
    else Statements(sc, rows[..|rows| - 1]) + [InsertText(sc.table, Keys(sc.columns), rows[|rows| - 1])]
  }

  lemma {:induction false} StatementsSnoc(sc: Schema, rows: seq<seq<string>>, row: seq<string>)
    ensures Statements(sc, rows + [row]) == Statements(sc, rows) + [InsertText(sc.table, Keys(sc.columns), row)]
  {
    assert (rows + [row])[..|rows|] == rows;
  }

  /** Statement `i` of a table lists the values of row `i`. */
  lemma {:induction false} StatementsAt(sc: Schema, rows: seq<seq<string>>, i: nat)
    requires i < |rows|
    ensures Statements(sc, rows)[i] == InsertText(sc.table, Keys(sc.columns), rows[i])
    decreases |rows|
  {
    if i < |rows| - 1 {
      StatementsAt(sc, rows[..|rows| - 1], i);
    }
  }

  /** The value rows of every table, in table order. */
  function AllRows(schemas: seq<Schema>, fields: seq<string>, shared: Option<seq<Dict>>, n: nat,
                   gen: Draw, rng: Rng): (r: (seq<seq<seq<string>>>, Rng))
    requires SharedReady(fields, shared, n)
    ensures |r.0| == |schemas|
    ensures forall k | 0 <= k < |schemas| :: |r.0[k]| == n
    decreases |schemas|
  {
    if schemas == [] then ([], rng)
    else
      var m := |schemas| - 1;
      var front := AllRows(schemas[..m], fields, shared, n, gen, rng);
      var rows := TableRows(schemas[m], n, fields, shared, gen, front.1);
      (front.0 + [rows.0], rows.1)
  }

  /** Every row of every table is one its record may give. */
  lemma {:induction false} AllRowFits(schemas: seq<Schema>, fields: seq<string>, shared: Option<seq<Dict>>,
                                      n: nat, gen: Draw, rng: Rng, k: nat, i: nat)
    requires SharedReady(fields, shared, n) && k < |schemas| && i < n
    ensures RowFits(AllRows(schemas, fields, shared, n, gen, rng).0[k][i], Keys(schemas[k].columns),
                    schemas[k].columns, fields, shared, i, gen)
    decreases |schemas|
  {
    var m := |schemas| - 1;
    var front := AllRows(schemas[..m], fields, shared, n, gen, rng);
    var all := AllRows(schemas, fields, shared, n, gen, rng).0;
    if k == m {
      TableRowFits(schemas[m], n, fields, shared, gen, front.1, i);
    } else {
      AllRowFits(schemas[..m], fields, shared, n, gen, rng, k, i);
      assert schemas[..m][k] == schemas[k] && all[k] == front.0[k];
    }
  }

  /** `insert_statements`: each table's name with the statements of its
      rows. */
  function Inserts(schemas: seq<Schema>, rows: seq<seq<seq<string>>>): (r: seq<TableInserts>)
    requires |rows| == |schemas|
    ensures |r| == |schemas|
    decreases |schemas|
  {
    if schemas == [] then []
    else
      var m := |schemas| - 1;
      Inserts(schemas[..m], rows[..m]) + [TableInserts(schemas[m].table, Statements(schemas[m], rows[m]))]
  }

  /** Table `k` of the statements, from its value rows. */
  lemma {:induction false} InsertsAt(schemas: seq<Schema>, rows: seq<seq<seq<string>>>, k: nat)
    requires |rows| == |schemas| && k < |schemas|
    ensures Inserts(schemas, rows)[k] == TableInserts(schemas[k].table, Statements(schemas[k], rows[k]))
    decreases |schemas|
  {
    var m := |schemas| - 1;
    if k < m {
      InsertsAt(schemas[..m], rows[..m], k);
    }
  }

  lemma {:induction false} InsertsSnoc(schemas: seq<Schema>, rows: seq<seq<seq<string>>>, sc: Schema, r: seq<seq<string>>)
    requires |rows| == |schemas|
    ensures Inserts(schemas + [sc], rows + [r]) == Inserts(schemas, rows) + [TableInserts(sc.table, Statements(sc, r))]
  {
    assert (schemas + [sc])[..|schemas|] == schemas;
    assert (rows + [r])[..|rows|] == rows;
  }

  /** The innermost loop: the values of one record for one table. */
  method RowOf(keys: seq<string>, columns: Dict, fields: seq<string>, shared: Option<seq<Dict>>,
               idx: nat, gen: Draw, rng: Rng) returns (values: seq<string>, next: Rng)
    requires forall c | 0 <= c < |keys| :: keys[c] in Keys(columns)
    requires SharedReady(fields, shared, idx + 1)
    ensures values == RowValues(keys, columns, fields, shared, idx, gen, rng).0
    ensures next == RowValues(keys, columns, fields, shared, idx, gen, rng).1
  {
    values := [];
    next := rng;
    for c := 0 to |keys|
      invariant values == RowValues(keys[..c], columns, fields, shared, idx, gen, rng).0
      invariant next == RowValues(keys[..c], columns, fields, shared, idx, gen, rng).1
    {
      assert keys[..c + 1][..c] == keys[..c];
      var col := keys[c];
      var value;
      if col in fields && UsesShared(shared) {
        value := Get(shared.value[idx], col).value;
      } else {
        var drawn := gen(Get(columns, col).value, next);
        value, next := drawn.0, drawn.1;
      }
      values := values + [value];
    }
    assert keys[..|keys|] == keys;
  }

  /** One pass of the record loop: the statement of record `i`. */
  method NextStatement(sc: Schema, i: nat, fields: seq<string>, shared: Option<seq<Dict>>,
                       gen: Draw, rng: Rng, statements: seq<string>, cur: Rng)
    returns (stmts: seq<string>, next: Rng)
    requires SharedReady(fields, shared, i + 1)
    requires statements == Statements(sc, TableRows(sc, i, fields, shared, gen, rng).0)
    requires cur == TableRows(sc, i, fields, shared, gen, rng).1
    ensures stmts == Statements(sc, TableRows(sc, i + 1, fields, shared, gen, rng).0)
    ensures next == TableRows(sc, i + 1, fields, shared, gen, rng).1
  {
    ghost var front := TableRows(sc, i, fields, shared, gen, rng);
    var keys := Keys(sc.columns);
    var values;
    values, next := RowOf(keys, sc.columns, fields, shared, i, gen, cur);
    StatementsSnoc(sc, front.0, values);
    stmts := statements + [InsertText(sc.table, keys, values)];
  }

  /** The record loop: the statements of one table. */
  method TableStatements(sc: Schema, n: nat, fields: seq<string>, shared: Option<seq<Dict>>,
                         gen: Draw, rng: Rng) returns (statements: seq<string>, next: Rng)
    requires SharedReady(fields, shared, n)
    ensures var rows := TableRows(sc, n, fields, shared, gen, rng);
            statements == Statements(sc, rows.0) && next == rows.1
  {
    statements := [];
    next := rng;
    for i := 0 to n
      invariant var rows := TableRows(sc, i, fields, shared, gen, rng);
                statements == Statements(sc, rows.0) && next == rows.1
    {
      statements, next := NextStatement(sc, i, fields, shared, gen, rng, statements, next);
    }
  }

  /** The rows of one more table follow those of the tables before it. */
  lemma {:induction false} AllRowsStep(schemas: seq<Schema>, k: nat, fields: seq<string>, shared: Option<seq<Dict>>,
                                       n: nat, gen: Draw, rng: Rng)
    requires SharedReady(fields, shared, n) && k < |schemas|
    ensures var front := AllRows(schemas[..k], fields, shared, n, gen, rng);
            var rows := TableRows(schemas[k], n, fields, shared, gen, front.1);
            AllRows(schemas[..k + 1], fields, shared, n, gen, rng) == (front.0 + [rows.0], rows.1)
  {
    assert schemas[..k + 1][..k] == schemas[..k];
  }

  lemma {:induction false} InsertsStep(schemas: seq<Schema>, k: nat, rows: seq<seq<seq<string>>>, r: seq<seq<string>>)
    requires k < |schemas| && |rows| == k
    ensures Inserts(schemas[..k + 1], rows + [r])
              == Inserts(schemas[..k], rows) + [TableInserts(schemas[k].table, Statements(schemas[k], r))]
  {
    InsertsSnoc(schemas[..k], rows, schemas[k], r);
    assert schemas[..k + 1] == schemas[..k] + [schemas[k]];
  }

  /** One pass of the table loop: the statements of table `k`. */
  method NextTable(schemas: seq<Schema>, k: nat, fields: seq<string>, shared: Option<seq<Dict>>, n: nat,
                   gen: Draw, rng: Rng, inserts: seq<TableInserts>, cur: Rng)
    returns (ins: seq<TableInserts>, next: Rng)
    requires SharedReady(fields, shared, n) && k < |schemas|
    requires inserts == Inserts(schemas[..k], AllRows(schemas[..k], fields, shared, n, gen, rng).0)
    requires cur == AllRows(schemas[..k], fields, shared, n, gen, rng).1
    ensures ins == Inserts(schemas[..k + 1], AllRows(schemas[..k + 1], fields, shared, n, gen, rng).0)
    ensures next == AllRows(schemas[..k + 1], fields, shared, n, gen, rng).1
  {
    ghost var front := AllRows(schemas[..k], fields, shared, n, gen, rng);
    AllRowsStep(schemas, k, fields, shared, n, gen, rng);
    InsertsStep(schemas, k, front.0, TableRows(schemas[k], n, fields, shared, gen, cur).0);
    var statements;
    statements, next := TableStatements(schemas[k], n, fields, shared, gen, cur);
    ins := inserts + [TableInserts(schemas[k].table, statements)];
  }

  /** The table loop of `generate_insert_statements`. */
  method AssembleInserts(schemas: seq<Schema>, fields: seq<string>, shared: Option<seq<Dict>>, n: nat,
                         gen: Draw, rng: Rng) returns (inserts: seq<TableInserts>, next: Rng)
    requires SharedReady(fields, shared, n)
    ensures inserts == Inserts(schemas, AllRows(schemas, fields, shared, n, gen, rng).0)
    ensures next == AllRows(schemas, fields, shared, n, gen, rng).1
  {
    inserts := [];
    next := rng;
    for k := 0 to |schemas|
      invariant inserts == Inserts(schemas[..k], AllRows(schemas[..k], fields, shared, n, gen, rng).0)
      invariant next == AllRows(schemas[..k], fields, shared, n, gen, rng).1
    {
      inserts, next := NextTable(schemas, k, fields, shared, n, gen, rng, inserts, next);
    }
    assert schemas[..|schemas|] == schemas;
  }

  // ------------------------------------------------------------ the run

  function NoSchemaMessage(dir: string): string {
    "No schema files found in " + dir
  }

  /** `self.schema_dir / 'shared_fields.txt'`, as the message renders it. */
  function SharedFieldsPath(dir: string): string {
    dir + "/shared_fields.txt"
  }

  function ReadErrorMessage(path: string, e: string): string {
    "Error reading shared fields file " + path + ": " + e
  }

  /** A schema file: its path and what reading it gave. */
  type SchemaFile = (string, Result<string, string>)

  function SchemaOfFile(file: SchemaFile): Result<Schema, string> {
    SchemaOf(file.0, file.1)
  }

  /** A schema parser. The run is built with `SchemaOfFile`, which is
      `parse_schema`; the loops over the parse results are stated for any
      parser so that their proofs do not depend on how a file is parsed. */
  type Parser = SchemaFile -> Result<Schema, string>

  /** What the parser gives for each file, in order. */
  function Parses(files: seq<SchemaFile>, parse: Parser): (rs: seq<Result<Schema, string>>)
    ensures |rs| == |files|
    decreases |files|
  {
    if files == [] then [] else Parses(files[..|files| - 1], parse) + [parse(files[|files| - 1])]
  }

  lemma {:induction false} ParsesAt(files: seq<SchemaFile>, parse: Parser, i: nat)
    requires i < |files|
    ensures Parses(files, parse)[i] == parse(files[i])
    decreases |files|
  {
    var n := |files| - 1;
    if i < n {
      ParsesAt(files[..n], parse, i);
    }
  }

  /** The loop over the parse results: each schema appended in turn,
      stopping at the first parse that raises. */
  function Collect(rs: seq<Result<Schema, string>>): (r: Result<seq<Schema>, string>)
    ensures r.Ok? ==> |r.value| == |rs|
    decreases |rs|
  {
    if rs == [] then Ok([])
    else
      var n := |rs| - 1;
      var front := Collect(rs[..n]);
      if front.Err? then front
      else if rs[n].Err? then Err(rs[n].error)
      else Ok(front.value + [rs[n].value])
  }

  /** The loop succeeds exactly when every parse does, and then holds the
      schemas in order. */
  lemma {:induction false} CollectAccepted(rs: seq<Result<Schema, string>>)
    ensures Collect(rs).Ok? <==> forall i | 0 <= i < |rs| :: rs[i].Ok?
    ensures Collect(rs).Ok? ==> forall i | 0 <= i < |rs| :: Collect(rs).value[i] == rs[i].value
    decreases |rs|
  {
    if rs != [] {
      var n := |rs| - 1;
      var init := rs[..n];
      CollectAccepted(init);
      assert forall i | 0 <= i < n :: init[i] == rs[i];
    }
  }

  /** Otherwise it fails with the error of the first parse that raises. */
  lemma {:induction false} CollectRefused(rs: seq<Result<Schema, string>>)
    requires Collect(rs).Err?
    ensures exists i | 0 <= i < |rs| ::
              && rs[i].Err? && Collect(rs).error == rs[i].error
              && forall j | 0 <= j < i :: rs[j].Ok?
    decreases |rs|
  {
    var n := |rs| - 1;
    var init := rs[..n];
    assert forall i | 0 <= i < n :: init[i] == rs[i];
    if Collect(init).Err? {
      CollectRefused(init);
      var i :| 0 <= i < n && init[i].Err? && Collect(init).error == init[i].error
               && forall j | 0 <= j < i :: init[j].Ok?;
      assert rs[i].Err?;
    } else {
      CollectAccepted(init);
    }
  }

  /** Once a prefix fails, the loop fails with its error. */
  lemma {:induction false} CollectErrStays(rs: seq<Result<Schema, string>>, k: nat)
    requires k <= |rs| && Collect(rs[..k]).Err?
    ensures Collect(rs) == Collect(rs[..k])
    decreases |rs| - k
  {
    if k == |rs| {
      assert rs[..k] == rs;
    } else {
      var n := |rs| - 1;
      assert rs[..n][..k] == rs[..k];
      CollectErrStays(rs[..n], k);
    }
  }

  /** The schemas of all files, or the first parse error. */
  function SchemasOf(files: seq<SchemaFile>, parse: Parser): Result<seq<Schema>, string> {
    Collect(Parses(files, parse))
  }

  /** The files give schemas exactly when each of them parses, and then
      the schemas are the files', in order. */
  lemma {:induction false} SchemasOfMeaning(files: seq<SchemaFile>, parse: Parser)
    ensures SchemasOf(files, parse).Ok? <==> forall k | 0 <= k < |files| :: parse(files[k]).Ok?
    ensures SchemasOf(files, parse).Ok? ==>
              forall k | 0 <= k < |files| :: SchemasOf(files, parse).value[k] == parse(files[k]).value
  {
    var rs := Parses(files, parse);
    CollectAccepted(rs);
    forall k | 0 <= k < |files| ensures rs[k] == parse(files[k]) {
      ParsesAt(files, parse, k);
    }
  }

  /** Otherwise the error is that of the first file that does not parse. */
  lemma {:induction false} SchemasOfFirstError(files: seq<SchemaFile>, parse: Parser)
    requires SchemasOf(files, parse).Err?
    ensures exists k | 0 <= k < |files| ::
              && parse(files[k]).Err? && SchemasOf(files, parse).error == parse(files[k]).error
              && forall j | 0 <= j < k :: parse(files[j]).Ok?
  {
    var rs := Parses(files, parse);
    CollectRefused(rs);
    var k :| 0 <= k < |rs| && rs[k].Err? && Collect(rs).error == rs[k].error
             && forall j | 0 <= j < k :: rs[j].Ok?;
    forall j | 0 <= j <= k ensures rs[j] == parse(files[j]) {
      ParsesAt(files, parse, j);
    }
  }

  /** `parse_schema` on file `i`. */
  method ParseFile(files: seq<SchemaFile>, i: nat) returns (sc: Result<Schema, string>)
    requires i < |files|
    ensures sc == Parses(files, SchemaOfFile)[i]
  {
    ParsesAt(files, SchemaOfFile, i);
    sc := ParseSchema(files[i].0, files[i].1);
  }

  /** One more parse that succeeds appends its schema. */
  lemma {:induction false} CollectStep(rs: seq<Result<Schema, string>>, i: nat)
    requires i < |rs| && Collect(rs[..i]).Ok? && rs[i].Ok?
    ensures Collect(rs[..i + 1]) == Ok(Collect(rs[..i]).value + [rs[i].value])
  {
    assert rs[..i + 1][..i] == rs[..i];
  }

  /** A parse that raises after successful ones ends the loop with its
      error. */
  lemma {:induction false} CollectStop(rs: seq<Result<Schema, string>>, i: nat)
    requires i < |rs| && Collect(rs[..i]).Ok? && rs[i].Err?
    ensures Collect(rs) == Err(rs[i].error)
  {
    assert rs[..i + 1][..i] == rs[..i];
    CollectErrStays(rs, i + 1);
  }

  /** The parse loop of `generate_insert_statements`: the schema of every
      file, or the first parse error. */
  method ParseSchemas(files: seq<SchemaFile>) returns (r: Result<seq<Schema>, string>)
    ensures r == SchemasOf(files, SchemaOfFile)
  {
    ghost var rs := Parses(files, SchemaOfFile);
    var schemas: seq<Schema> := [];
    for i := 0 to |files|
      invariant Collect(rs[..i]) == Ok(schemas)
    {
      var sc := ParseFile(files, i);
      if sc.Err? {
        CollectStop(rs, i);
        return Err(sc.error);
      }
      CollectStep(rs, i);
      schemas := schemas + [sc.value];
    }
    assert rs[..|files|] == rs;
    return Ok(schemas);
  }

  /** The fields the shared fields file lists; none when there is no such
      file. */
  function Listed(sharedFile: Option<Result<seq<string>, string>>): seq<string> {
    if sharedFile.Some? && sharedFile.value.Ok? then SharedFieldsOf(sharedFile.value.value) else []
  }

  /** The shared fields step of `generate_insert_statements`: no file gives
      no shared fields; a file that cannot be read gives the wrapped read
      error; otherwise the fields it lists, once validation passes. */
  ghost function SharedFieldsFrom(dir: string, sharedFile: Option<Result<seq<string>, string>>,
                                  schemas: seq<Schema>): (r: Result<seq<string>, string>)
    ensures r.Ok? ==> r.value == Listed(sharedFile) && AllPresent(r.value, schemas)
  {
    match sharedFile
    case None => Ok([])
    case Some(Err(e)) => Err(ReadErrorMessage(SharedFieldsPath(dir), e))
    case Some(Ok(lines)) =>
      var fields := SharedFieldsOf(lines);
      var v := Validation(fields, schemas);
      if v.Fail? then Err(v.error) else Ok(fields)
  }

  /** What `generate_insert_statements` has before it draws: the schemas
      and the validated shared fields, or the first error raised on the way. */
  ghost function Prepared(dir: string, files: seq<SchemaFile>, sharedFile: Option<Result<seq<string>, string>>,
                          parse: Parser)
    : (r: Result<(seq<Schema>, seq<string>), string>)
    ensures r.Ok? ==> |r.value.0| == |files| > 0 && r.value.1 == Listed(sharedFile)
                      && AllPresent(r.value.1, r.value.0)
  {
    if files == [] then Err(NoSchemaMessage(dir))
    else
      var parsed := SchemasOf(files, parse);
      if parsed.Err? then Err(parsed.error)
      else
        var fields := SharedFieldsFrom(dir, sharedFile, parsed.value);
        if fields.Err? then Err(fields.error) else Ok((parsed.value, fields.value))
  }

  /** Validated fields are in the first table, so `next(...)` finds each. */
  lemma {:induction false} PresentDeclared(fields: seq<string>, schemas: seq<Schema>)
    requires |schemas| > 0 && AllPresent(fields, schemas)
    ensures Declared(fields, schemas)
  {
    forall i | 0 <= i < |fields| ensures FieldType(fields[i], schemas).Some? {
      assert HasField(schemas[0], fields[i]);
      FieldTypeFirst(fields[i], schemas);
    }
  }

  /** `range(self.num_records)`: a negative count gives no records. */
  function Records(numRecords: int): (n: nat)
    ensures numRecords >= 0 ==> n == numRecords
    ensures numRecords < 0 ==> n == 0
  {
    if numRecords < 0 then 0 else numRecords
  }

  /** `shared_values` in `generate_insert_statements`: shared values only
      when there are shared fields. */
  function SharedOf(fields: seq<string>, schemas: seq<Schema>, n: nat, gen: Draw, rng: Rng)
    : (r: (Option<seq<Dict>>, Rng))
    requires Declared(fields, schemas)
  {
    if fields == [] then (None, rng)
    else
      var sv := SharedValuesOf(n, fields, schemas, gen, rng);
      (Some(sv.0), sv.1)
  }

  /** The shared records hold every shared field, so the lookups of the
      statement loop succeed. */
  lemma {:induction false} SharedOfReady(fields: seq<string>, schemas: seq<Schema>, n: nat, gen: Draw, rng: Rng)
    requires Declared(fields, schemas)
    ensures SharedReady(fields, SharedOf(fields, schemas, n, gen, rng).0, n)
  {
    if fields != [] {
      var sv := SharedValuesOf(n, fields, schemas, gen, rng).0;
      SharedValuesRecords(n, fields, schemas, gen, rng);
      FirstOccurrencesIn(fields);
      forall r, f | 0 <= r < n && f in fields ensures f in Keys(sv[r]) {
        assert SharedRecord(sv[r], fields, schemas, gen);
      }
    }
  }

  /** The shared values of the run, drawn first. */
  ghost function RunShared(dir: string, files: seq<SchemaFile>, sharedFile: Option<Result<seq<string>, string>>,
                           numRecords: int, parse: Parser, gen: Draw, rng: Rng): (Option<seq<Dict>>, Rng)
    requires Prepared(dir, files, sharedFile, parse).Ok?
  {
    var prep := Prepared(dir, files, sharedFile, parse).value;
    PresentDeclared(prep.1, prep.0);
    SharedOf(prep.1, prep.0, Records(numRecords), gen, rng)
  }

  /** The statement loops of `generate_insert_statements`: the value rows of
      every table, drawn after the shared values. */
  ghost function RunRows(dir: string, files: seq<SchemaFile>, sharedFile: Option<Result<seq<string>, string>>,
                         numRecords: int, parse: Parser, gen: Draw, rng: Rng): (r: (seq<seq<seq<string>>>, Rng))
    requires Prepared(dir, files, sharedFile, parse).Ok?
    ensures |r.0| == |files| && forall k | 0 <= k < |files| :: |r.0[k]| == Records(numRecords)
  {
    var prep := Prepared(dir, files, sharedFile, parse).value;
    var n := Records(numRecords);
    PresentDeclared(prep.1, prep.0);
    SharedOfReady(prep.1, prep.0, n, gen, rng);
    var shared := RunShared(dir, files, sharedFile, numRecords, parse, gen, rng);
    AllRows(prep.0, prep.1, shared.0, n, gen, shared.1)
  }

  /** `generate_insert_statements` for the schema files `files` (in the
      order the directory listing gives), what reading the shared fields
      file gave (`None` where it does not exist) and `num_records`, with
      `gen` drawing the values: the statements grouped by table and the
      stream after the last draw, or the message of the error raised. */
  ghost function Run(dir: string, files: seq<SchemaFile>, sharedFile: Option<Result<seq<string>, string>>,
                     numRecords: int, parse: Parser, gen: Draw, rng: Rng): Result<(seq<TableInserts>, Rng), string>
  {
    var prep := Prepared(dir, files, sharedFile, parse);
    if prep.Err? then Err(prep.error)
    else
      var rows := RunRows(dir, files, sharedFile, numRecords, parse, gen, rng);
      Ok((Inserts(prep.value.0, rows.0), rows.1))
  }

  /** `generate_insert_statements`, statement by statement as the program
      runs, drawing values with `generate_value`. */
  method GenerateInsertStatements(dir: string, files: seq<SchemaFile>, sharedFile: Option<Result<seq<string>, string>>,
                                  numRecords: int, env: Env, rng: Rng)
    returns (r: Result<(seq<TableInserts>, Rng), string>)
    requires ValidEnv(env)
    ensures r == Run(dir, files, sharedFile, numRecords, SchemaOfFile, Generator(env), rng)
  {
    if files == [] {
      return Err(NoSchemaMessage(dir));
    }
    var parsed := ParseSchemas(files);
    if parsed.Err? {
      return Err(parsed.error);
    }
    var schemas := parsed.value;
    var fields: seq<string> := [];
    if sharedFile.Some? {
      if sharedFile.value.Err? {
        return Err(ReadErrorMessage(SharedFieldsPath(dir), sharedFile.value.error));
      }
      fields := ReadSharedFields(sharedFile.value.value);
      var v := ValidateSharedFields(fields, schemas);
      if v.Fail? {
        return Err(v.error);
      }
    }
    assert Prepared(dir, files, sharedFile, SchemaOfFile) == Ok((schemas, fields));
    var n := Records(numRecords);
    var gen := Generator(env);
    PresentDeclared(fields, schemas);
    var shared: Option<seq<Dict>> := None;
    var next := rng;
    if fields != [] {
      var values;
      values, next := GenerateSharedValues(fields, schemas, n, gen, rng);
      shared := Some(values);
    }
    SharedOfReady(fields, schemas, n, gen, rng);
    var inserts;
    inserts, next := AssembleInserts(schemas, fields, shared, n, gen, next);
    return Ok((inserts, next));
  }

  // ------------------------------------------------------------ what a run gives

  /** A run succeeds exactly when there is a schema file, every file
      parses, the shared fields file (if any) can be read, and each field
      it lists is a column of every table. */
  lemma {:induction false} RunOutcome(dir: string, files: seq<SchemaFile>, sharedFile: Option<Result<seq<string>, string>>,
                                      numRecords: int, parse: Parser, gen: Draw, rng: Rng)
    ensures Run(dir, files, sharedFile, numRecords, parse, gen, rng).Ok? <==>
              && files != []
              && SchemasOf(files, parse).Ok?
              && (sharedFile.Some? ==> sharedFile.value.Ok?)
              && AllPresent(Listed(sharedFile), SchemasOf(files, parse).value)
  {
  }

  /** Without schema files the run raises at once. */
  lemma {:induction false} RunNoFiles(dir: string, sharedFile: Option<Result<seq<string>, string>>,
                                      numRecords: int, parse: Parser, gen: Draw, rng: Rng)
    ensures Run(dir, [], sharedFile, numRecords, parse, gen, rng) == Err(NoSchemaMessage(dir))
  {
  }

  /** A file that does not parse ends the run with the error of the first
      such file. */
  lemma {:induction false} RunSchemaError(dir: string, files: seq<SchemaFile>, sharedFile: Option<Result<seq<string>, string>>,
                                          numRecords: int, parse: Parser, gen: Draw, rng: Rng)
    requires files != [] && SchemasOf(files, parse).Err?
    ensures exists k | 0 <= k < |files| ::
              && parse(files[k]).Err?
              && Run(dir, files, sharedFile, numRecords, parse, gen, rng) == Err(parse(files[k]).error)
              && forall j | 0 <= j < k :: parse(files[j]).Ok?
  {
    SchemasOfFirstError(files, parse);
  }

  /** A shared fields file that cannot be read ends the run with the
      wrapped read error. */
  lemma {:induction false} RunReadError(dir: string, files: seq<SchemaFile>, e: string,
                                        numRecords: int, parse: Parser, gen: Draw, rng: Rng)
    requires files != [] && SchemasOf(files, parse).Ok?
    ensures Run(dir, files, Some(Err(e)), numRecords, parse, gen, rng) == Err(ReadErrorMessage(SharedFieldsPath(dir), e))
  {
  }

  /** A listed field some table lacks ends the run naming the first such
      field and the first table lacking it. */
  lemma {:induction false} RunMissingField(dir: string, files: seq<SchemaFile>, lines: seq<string>,
                                           numRecords: int, parse: Parser, gen: Draw, rng: Rng)
    requires files != [] && SchemasOf(files, parse).Ok?
    requires !AllPresent(SharedFieldsOf(lines), SchemasOf(files, parse).value)
    ensures exists i, j :: && FirstMissing(SharedFieldsOf(lines), SchemasOf(files, parse).value, i, j)
                           && Run(dir, files, Some(Ok(lines)), numRecords, parse, gen, rng)
                                == Err(MissingMessage(SharedFieldsOf(lines)[i], SchemasOf(files, parse).value[j].table))
  {
    var fields, schemas := SharedFieldsOf(lines), SchemasOf(files, parse).value;
    var v := Validation(fields, schemas);
    var i, j :| FirstMissing(fields, schemas, i, j) && v.error == MissingMessage(fields[i], schemas[j].table);
    assert SharedFieldsFrom(dir, Some(Ok(lines)), schemas) == Err(v.error);
    assert Run(dir, files, Some(Ok(lines)), numRecords, parse, gen, rng) == Err(v.error);
  }

  /** A successful run gives one entry per schema file, in file order,
      named after the file's table and holding `num_records` statements
      (none for a negative count). */
  lemma {:induction false} RunShape(dir: string, files: seq<SchemaFile>, sharedFile: Option<Result<seq<string>, string>>,
                                    numRecords: int, parse: Parser, gen: Draw, rng: Rng)
    requires Run(dir, files, sharedFile, numRecords, parse, gen, rng).Ok?
    ensures var out := Run(dir, files, sharedFile, numRecords, parse, gen, rng).value.0;
            && |out| == |files|
            && forall k | 0 <= k < |files| ::
                 && parse(files[k]).Ok?
                 && out[k].table == parse(files[k]).value.table
                 && |out[k].statements| == Records(numRecords)
  {
    var schemas := Prepared(dir, files, sharedFile, parse).value.0;
    var rows := RunRows(dir, files, sharedFile, numRecords, parse, gen, rng).0;
    SchemasOfMeaning(files, parse);
    forall k | 0 <= k < |files|
      ensures Inserts(schemas, rows)[k] == TableInserts(schemas[k].table, Statements(schemas[k], rows[k]))
    {
      InsertsAt(schemas, rows, k);
    }
  }

  /** Statement `i` of table `k` is `INSERT INTO` the table, naming its
      columns in declared order, with the values of row `i`: for a shared
      field the shared value of record `i`, for any other column a value
      the generator can give for the column's type. */
  lemma {:induction false} RunStatement(dir: string, files: seq<SchemaFile>, sharedFile: Option<Result<seq<string>, string>>,
                                        numRecords: int, parse: Parser, gen: Draw, rng: Rng, k: nat, i: nat)
    requires Run(dir, files, sharedFile, numRecords, parse, gen, rng).Ok?
    requires k < |files| && i < Records(numRecords)
    ensures var sc := Prepared(dir, files, sharedFile, parse).value.0[k];
            var vals := RunRows(dir, files, sharedFile, numRecords, parse, gen, rng).0[k][i];
            var stmts := Statements(sc, RunRows(dir, files, sharedFile, numRecords, parse, gen, rng).0[k]);
            && Run(dir, files, sharedFile, numRecords, parse, gen, rng).value.0[k] == TableInserts(sc.table, stmts)
            && stmts[i] == InsertText(sc.table, Keys(sc.columns), vals)
            && RowFits(vals, Keys(sc.columns), sc.columns, Listed(sharedFile),
                       RunShared(dir, files, sharedFile, numRecords, parse, gen, rng).0, i, gen)
  {
    var prep := Prepared(dir, files, sharedFile, parse).value;
    var n := Records(numRecords);
    PresentDeclared(prep.1, prep.0);
    SharedOfReady(prep.1, prep.0, n, gen, rng);
    var shared := RunShared(dir, files, sharedFile, numRecords, parse, gen, rng);
    var rows := RunRows(dir, files, sharedFile, numRecords, parse, gen, rng).0;
    InsertsAt(prep.0, rows, k);
    StatementsAt(prep.0[k], rows[k], i);
    AllRowFits(prep.0, prep.1, shared.0, n, gen, shared.1, k, i);
  }

  /** There are shared values exactly when the file lists shared fields:
      one record per statement index, each holding every listed field. */
  lemma {:induction false} RunSharedRecords(dir: string, files: seq<SchemaFile>, sharedFile: Option<Result<seq<string>, string>>,
                                            numRecords: int, parse: Parser, gen: Draw, rng: Rng)
    requires Prepared(dir, files, sharedFile, parse).Ok?
    ensures var shared := RunShared(dir, files, sharedFile, numRecords, parse, gen, rng).0;
            var schemas := Prepared(dir, files, sharedFile, parse).value.0;
            && (shared.Some? <==> Listed(sharedFile) != [])
            && Declared(Listed(sharedFile), schemas)
            && (shared.Some? ==>
                  && |shared.value| == Records(numRecords)
                  && forall r | 0 <= r < |shared.value| :: SharedRecord(shared.value[r], Listed(sharedFile), schemas, gen))
  {
    var prep := Prepared(dir, files, sharedFile, parse).value;
    PresentDeclared(prep.1, prep.0);
    if prep.1 != [] {
      SharedValuesRecords(Records(numRecords), prep.1, prep.0, gen, rng);
    }
  }

  /** Shared values are consistent: in the rows of one record, every table
      lists the same value for a shared field, the record's value for it. */
  lemma {:induction false} RunSharedAgree(dir: string, files: seq<SchemaFile>, sharedFile: Option<Result<seq<string>, string>>,
                                          numRecords: int, parse: Parser, gen: Draw, rng: Rng, k1: nat, k2: nat, i: nat, c1: nat, c2: nat)
    requires Run(dir, files, sharedFile, numRecords, parse, gen, rng).Ok?
    requires k1 < |files| && k2 < |files| && i < Records(numRecords)
    requires var schemas := Prepared(dir, files, sharedFile, parse).value.0;
             && c1 < |schemas[k1].columns| && c2 < |schemas[k2].columns|
             && schemas[k1].columns[c1].key == schemas[k2].columns[c2].key
             && schemas[k1].columns[c1].key in Listed(sharedFile)
    ensures var rows := RunRows(dir, files, sharedFile, numRecords, parse, gen, rng).0;
            var shared := RunShared(dir, files, sharedFile, numRecords, parse, gen, rng).0;
            var field := Prepared(dir, files, sharedFile, parse).value.0[k1].columns[c1].key;
            && |rows[k1][i]| == |Prepared(dir, files, sharedFile, parse).value.0[k1].columns|
            && |rows[k2][i]| == |Prepared(dir, files, sharedFile, parse).value.0[k2].columns|
            && rows[k1][i][c1] == rows[k2][i][c2]
            && shared.Some? && i < |shared.value| && Get(shared.value[i], field) == Some(rows[k1][i][c1])
  {
    var prep := Prepared(dir, files, sharedFile, parse).value;
    var n := Records(numRecords);
    PresentDeclared(prep.1, prep.0);
    SharedOfReady(prep.1, prep.0, n, gen, rng);
    var shared := RunShared(dir, files, sharedFile, numRecords, parse, gen, rng);
    var rows := RunRows(dir, files, sharedFile, numRecords, parse, gen, rng).0;
    AllRowFits(prep.0, prep.1, shared.0, n, gen, shared.1, k1, i);
    AllRowFits(prep.0, prep.1, shared.0, n, gen, shared.1, k2, i);
    RunSharedRecords(dir, files, sharedFile, numRecords, parse, gen, rng);
    SharedColumnsAgree(rows[k1][i], prep.0[k1], c1, rows[k2][i], prep.0[k2], c2, prep.1, shared.0, i, gen);
  }
}
