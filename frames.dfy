/** A pandas DataFrame as the ingestion script uses it: column labels and rows of cells. */
module Frames {
  import opened Wrappers

  /** One cell: a string, an integer, or a missing value (NaN or None). */
  datatype Cell = Str(s: string) | Int(n: int) | NaN

  type Row = seq<Cell>

  /** Column labels in order, and rows in index order. */
  datatype Table = Table(columns: seq<string>, rows: seq<Row>)

  /** Every row holds one cell per column. */
  predicate Rectangular(t: Table) {
    forall i | 0 <= i < |t.rows| :: |t.rows[i]| == |t.columns|
  }

  predicate Distinct<T(==)>(s: seq<T>) {
    forall i, j | 0 <= i < j < |s| :: s[i] != s[j]
  }

  /** Some other position of `s` holds the same element as position `j`. */
  predicate Duplicated<T(==)>(s: seq<T>, j: nat)
    requires j < |s|
  {
    exists k | 0 <= k < |s| :: k != j && s[k] == s[j]
  }

  /** The position of the first occurrence of `x` in `s`. */
  function IndexOf<T(==)>(s: seq<T>, x: T): (r: Option<nat>)
    ensures r.None? <==> x !in s
    ensures r.Some? ==> r.value < |s| && s[r.value] == x && x !in s[..r.value]
  {
    if |s| == 0 then None
    else if s[0] == x then Some(0)
    else match IndexOf(s[1..], x)
      case None => None
      case Some(k) =>
        assert s[..k + 1] == [s[0]] + s[1..][..k];
        Some(k + 1)
  }

  /** A position holding `x` with no earlier `x` is the one IndexOf finds. */
  lemma IndexOfFirst<T>(s: seq<T>, x: T, k: nat)
    requires k < |s| && s[k] == x && x !in s[..k]
    ensures IndexOf(s, x) == Some(k)
  {
  }

  /** `s` without its element at position `k`. */
  function RemoveAt<T>(s: seq<T>, k: nat): (r: seq<T>)
    requires k < |s|
    ensures |r| == |s| - 1
    ensures forall i | 0 <= i < |r| :: r[i] == if i < k then s[i] else s[i + 1]
  {
    s[..k] + s[k + 1..]
  }

  /** An element other than the removed one is still there after `RemoveAt`,
      at position `j`, shifted down by one when it stood after `k`. */
  lemma RemoveAtKeeps<T>(s: seq<T>, k: nat, x: T) returns (j: nat)
    requires k < |s| && x in s && x != s[k]
    ensures j < |s| - 1 && RemoveAt(s, k)[j] == x
  {
    var q :| 0 <= q < |s| && s[q] == x;
    j := if q < k then q else q - 1;
  }

  /** `DataFrame.drop(label, axis=1)` for the column at position `k`. */
  function DropColumnAt(t: Table, k: nat): (r: Table)
    requires Rectangular(t) && k < |t.columns|
    ensures Rectangular(r) && |r.rows| == |t.rows|
    ensures r.columns == RemoveAt(t.columns, k)
    ensures forall i | 0 <= i < |t.rows| :: r.rows[i] == RemoveAt(t.rows[i], k)
  {
    Table(RemoveAt(t.columns, k), seq(|t.rows|, i requires 0 <= i < |t.rows| => RemoveAt(t.rows[i], k)))
  }

  /** `pd.concat([a, b], axis=1)` for two frames that share their row index. */
  function Concat(a: Table, b: Table): (r: Table)
    requires |a.rows| == |b.rows|
    ensures |r.rows| == |a.rows|
    ensures Rectangular(a) && Rectangular(b) ==> Rectangular(r)
    ensures r.columns == a.columns + b.columns
    ensures forall i | 0 <= i < |a.rows| :: r.rows[i] == a.rows[i] + b.rows[i]
  {
    Table(a.columns + b.columns, seq(|a.rows|, i requires 0 <= i < |a.rows| => a.rows[i] + b.rows[i]))
  }
}
