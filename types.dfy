/** The program's value types: an insertion-ordered dictionary from strings
    to strings (Python's `dict[str, str]`), which holds a table's columns
    (name to full type text) and one record of shared values (field to
    literal), the parsed schema and the generated statements. */
module Types {
  import opened Basics

  datatype Entry = Entry(key: string, value: string)

  /** A dictionary as the list of its entries in insertion order. */
  type Dict = seq<Entry>

  function Keys(d: Dict): (ks: seq<string>)
    ensures |ks| == |d| && forall i | 0 <= i < |d| :: ks[i] == d[i].key
  {
    if d == [] then [] else [d[0].key] + Keys(d[1..])
  }

  /** No key occurs twice, as in any Python dictionary. */
  predicate Keyed(d: Dict) {
    forall i, j | 0 <= i < j < |d| :: d[i].key != d[j].key
  }

  /** `d.get(k)`. */
  function Get(d: Dict, k: string): (r: Option<string>)
    ensures r.Some? <==> k in Keys(d)
  {
    if d == [] then None
    else if d[0].key == k then Some(d[0].value)
    else Get(d[1..], k)
  }

  /** `d[k] = v`: an existing key keeps its place and takes the new value,
      a new key is appended. */
  function Set(d: Dict, k: string, v: string): Dict {
    if d == [] then [Entry(k, v)]
    else if d[0].key == k then [Entry(k, v)] + d[1..]
    else [d[0]] + Set(d[1..], k, v)
  }

  lemma {:induction false} SetKeys(d: Dict, k: string, v: string)
    ensures Keys(Set(d, k, v)) == if k in Keys(d) then Keys(d) else Keys(d) + [k]
  {
    if d != [] && d[0].key != k {
      SetKeys(d[1..], k, v);
      assert Keys(d) == [d[0].key] + Keys(d[1..]);
    }
  }

  lemma {:induction false} SetGet(d: Dict, k: string, v: string, k': string)
    ensures Get(Set(d, k, v), k') == if k' == k then Some(v) else Get(d, k')
  {
    if d != [] && d[0].key != k {
      SetGet(d[1..], k, v, k');
    }
  }

  /** Distinct keys stay distinct. */
  lemma {:induction false} SetKeyed(d: Dict, k: string, v: string)
    requires Keyed(d)
    ensures Keyed(Set(d, k, v))
  {
    var r := Set(d, k, v);
    SetKeys(d, k, v);
    forall i, j | 0 <= i < j < |r| ensures r[i].key != r[j].key {
      assert Keys(r)[i] == r[i].key && Keys(r)[j] == r[j].key;
      assert Keys(d)[i] == d[i].key;
      if j < |d| { assert Keys(d)[j] == d[j].key; }
    }
  }

  // ------------------------------------------------------------ building

  /** The dictionary that assigning each pair in turn builds up from `{}`. */
  function FromPairs(pairs: seq<Entry>): Dict
    decreases |pairs|
  {
    if pairs == [] then []
    else
      var last := pairs[|pairs| - 1];
      Set(FromPairs(pairs[..|pairs| - 1]), last.key, last.value)
  }

  /** Assigning one more pair. */
  lemma {:induction false} FromPairsSnoc(pairs: seq<Entry>, e: Entry)
    ensures FromPairs(pairs + [e]) == Set(FromPairs(pairs), e.key, e.value)
  {
    assert (pairs + [e])[..|pairs|] == pairs;
  }

  /** The dictionary is empty exactly when no pair was assigned. */
  lemma {:induction false} FromPairsEmpty(pairs: seq<Entry>)
    ensures FromPairs(pairs) == [] <==> pairs == []
  {
    if pairs != [] {
      var init, last := pairs[..|pairs| - 1], pairs[|pairs| - 1];
      SetKeys(FromPairs(init), last.key, last.value);
    }
  }

  /** Each entry of `Set(d, k, v)` is the new one or was in `d`. */
  lemma {:induction false} SetFrom(d: Dict, k: string, v: string)
    ensures forall x | x in Set(d, k, v) :: x == Entry(k, v) || x in d
  {
    if d != [] && d[0].key != k {
      SetFrom(d[1..], k, v);
    }
  }

  /** Every entry of the dictionary is one of the pairs assigned. */
  lemma {:induction false} FromPairsFrom(pairs: seq<Entry>)
    ensures forall x | x in FromPairs(pairs) :: x in pairs
    decreases |pairs|
  {
    if pairs != [] {
      var init, last := pairs[..|pairs| - 1], pairs[|pairs| - 1];
      FromPairsFrom(init);
      SetFrom(FromPairs(init), last.key, last.value);
      assert forall x | x in init :: x in pairs;
    }
  }

  /** The distinct elements of `ks` in order of first occurrence. */
  function FirstOccurrences(ks: seq<string>): seq<string>
    decreases |ks|
  {
    if ks == [] then []
    else
      var init := FirstOccurrences(ks[..|ks| - 1]);
      if ks[|ks| - 1] in init then init else init + [ks[|ks| - 1]]
  }

  /** The value the last pair with key `k` assigns. */
  function LastValue(pairs: seq<Entry>, k: string): Option<string>
    decreases |pairs|
  {
    if pairs == [] then None
    else if pairs[|pairs| - 1].key == k then Some(pairs[|pairs| - 1].value)
    else LastValue(pairs[..|pairs| - 1], k)
  }

  /** Each key sits where it first occurred and holds its last value. */
  lemma {:induction false} FromPairsSpec(pairs: seq<Entry>)
    ensures Keyed(FromPairs(pairs))
    ensures Keys(FromPairs(pairs)) == FirstOccurrences(Keys(pairs))
    ensures forall k :: Get(FromPairs(pairs), k) == LastValue(pairs, k)
    decreases |pairs|
  {
    if pairs != [] {
      var init := pairs[..|pairs| - 1];
      var last := pairs[|pairs| - 1];
      FromPairsSpec(init);
      var d := FromPairs(init);
      SetKeyed(d, last.key, last.value);
      SetKeys(d, last.key, last.value);
      assert Keys(pairs)[..|pairs| - 1] == Keys(init);
      forall k ensures Get(FromPairs(pairs), k) == LastValue(pairs, k) {
        SetGet(d, last.key, last.value, k);
      }
    }
  }

  // ------------------------------------------------------------ results

  /** `Schema`: a table name and its columns in declared order. */
  datatype Schema = Schema(table: string, columns: Dict)

  /** One table's statements, as in `InsertStatements`. */
  datatype TableInserts = TableInserts(table: string, statements: seq<string>)
}
