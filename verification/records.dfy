/** The cells and rows the scraper produces. A row is a Python `dict` from column name
    to cell; pandas turns a list of them into a table. */
module Records {

  /** One cell. `Null` stands for both `None` and `np.nan`; `Float(literal)` is
      `float(literal)`, whose numeric value the model leaves opaque. */
  datatype Value = Null | Str(s: string) | Int(i: int) | Bool(b: bool) | Float(literal: string)

  type Record = map<string, Value>

  predicate AllNull(r: Record) {
    forall k :: k in r ==> r[k] == Null
  }

  /** The columns named by a list of column names. */
  function Columns(names: seq<string>): set<string> {
    set k | k in names
  }

  /** A dict literal whose keys are `names` and whose values are all `None`. */
  function NullRecord(names: seq<string>): (r: Record)
    ensures r.Keys == Columns(names) && AllNull(r)
  {
    map k | k in names :: Null
  }

  predicate Distinct(names: seq<string>) {
    forall i, j :: 0 <= i < j < |names| ==> names[i] != names[j]
  }

  /** The name at `i` differs from every later name. */
  predicate DistinctFrom(names: seq<string>, i: int)
    requires 0 <= i < |names|
  {
    forall j :: i < j < |names| ==> names[i] != names[j]
  }

  lemma DistinctFromEach(names: seq<string>)
    requires forall i :: 0 <= i < |names| ==> DistinctFrom(names, i)
    ensures Distinct(names)
  {
    forall i, j | 0 <= i < j < |names|
      ensures names[i] != names[j]
    {
      assert DistinctFrom(names, i);
    }
  }

  /** Distinct names give as many columns as there are names. */
  lemma {:induction false} DistinctColumnCount(names: seq<string>)
    requires Distinct(names)
    ensures |Columns(names)| == |names|
    decreases |names|
  {
    if names != [] {
      DistinctColumnCount(names[1..]);
      assert Columns(names) == {names[0]} + Columns(names[1..]);
      assert names[0] !in Columns(names[1..]);
    }
  }

  lemma ColumnsAppend(a: seq<string>, b: seq<string>)
    ensures Columns(a + b) == Columns(a) + Columns(b)
  {
  }
}
