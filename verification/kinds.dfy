/** Entry types of the documentation index and the per-type counters kept
    while indexing (`idxTable` in genstd.js and genguide.js).
 */
module Kinds {

  /** The `type` strings written to the search index.  The first ten are the
      API page sections of genstd.js; Guide, Keyword and Builtin come from the
      language reference headings of genguide.js. */
  datatype Kind =
    | Library | Type | Namespace | Global | Function | Value | Error
    | Field | Example | Parameter | TLDR
    | Guide | Keyword | Builtin

  /** The section types that are followed and rewritten but never indexed
      (`ignoreTypes` in genstd.js). */
  predicate Ignored(k: Kind) {
    k == TLDR || k == Field || k == Example || k == Parameter
  }

  /** A search-index row: `(name, type, path)` as inserted with
      `INSERT OR IGNORE`. */
  datatype Row = Row(name: string, kind: Kind, path: string)

  /** The counter map `idxTable`: how many rows of each type were indexed. */
  type Tally = map<Kind, nat>

  /** One `index` call: a type seen for the first time starts at 1, otherwise
      its count goes up by one; every other type keeps its count. */
  function Bump(t: Tally, k: Kind): (r: Tally)
    ensures k in r && r[k] == (if k in t then t[k] else 0) + 1
    ensures forall k' :: k' != k ==> (k' in r <==> k' in t)
    ensures forall k' :: k' != k && k' in t ==> r[k'] == t[k']
  {
    if k !in t then t[k := 1] else t[k := t[k] + 1]
  }

  /** The tally after indexing `rows` in order. */
  function TallyOf(t: Tally, rows: seq<Row>): Tally
    decreases |rows|
  {
    if |rows| == 0 then t else TallyOf(Bump(t, rows[0].kind), rows[1..])
  }

  /** How many of `rows` have type `k`. */
  function CountKind(rows: seq<Row>, k: Kind): nat
    decreases |rows|
  {
    if |rows| == 0 then 0
    else (if rows[0].kind == k then 1 else 0) + CountKind(rows[1..], k)
  }

  /** Indexing `rows` adds to a type's counter exactly the number of rows of
      that type, and a type appears in the table only once indexed. */
  lemma {:induction false} TallyCounts(t: Tally, rows: seq<Row>, k: Kind)
    ensures k in TallyOf(t, rows) <==> k in t || CountKind(rows, k) > 0
    ensures k in TallyOf(t, rows) ==>
              TallyOf(t, rows)[k] == (if k in t then t[k] else 0) + CountKind(rows, k)
    decreases |rows|
  {
    if |rows| > 0 {
      TallyCounts(Bump(t, rows[0].kind), rows[1..], k);
    }
  }

  /** Counters never go down. */
  lemma {:induction false} TallyMonotone(t: Tally, rows: seq<Row>, k: Kind)
    requires k in t
    ensures k in TallyOf(t, rows) && TallyOf(t, rows)[k] >= t[k]
    decreases |rows|
  {
    if |rows| > 0 {
      TallyMonotone(Bump(t, rows[0].kind), rows[1..], k);
    }
  }

  /** Counting rows splits over concatenation. */
  lemma {:induction false} CountKindConcat(a: seq<Row>, b: seq<Row>, k: Kind)
    ensures CountKind(a + b, k) == CountKind(a, k) + CountKind(b, k)
    decreases |a|
  {
    if |a| > 0 {
      assert (a + b)[1..] == a[1..] + b;
      CountKindConcat(a[1..], b, k);
    } else {
      assert a + b == b;
    }
  }

  /** No row of kind `k`, no count for `k`. */
  lemma {:induction false} NoneOfKind(rows: seq<Row>, k: Kind)
    requires forall i :: 0 <= i < |rows| ==> rows[i].kind != k
    ensures CountKind(rows, k) == 0
    decreases |rows|
  {
    if |rows| > 0 {
      NoneOfKind(rows[1..], k);
    }
  }
}
