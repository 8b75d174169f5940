/**
  The change detector: which rows of the edited snapshot differ from the
  original in the editable column.  The comparison is a parameter: pandas'
  own `!=` treats two missing values as different, a null-safe comparison
  does not.
 */
module Detector {
  import opened Values

  /** `edited[edited[col] != original[col]]`: the positions (the DataFrame
      index) of the rows whose editable cell differs, in row order. */
  function ChangedRows(original: seq<Row>, edited: seq<Row>, col: string, eq: (Value, Value) -> bool): (idx: seq<nat>)
    requires |original| == |edited|
    ensures forall j :: 0 <= j < |idx| ==> idx[j] < |edited|
    ensures forall j, k :: 0 <= j < k < |idx| ==> idx[j] < idx[k]
    ensures forall i :: 0 <= i < |edited| ==> (i in idx <==> !eq(Get(edited[i], col), Get(original[i], col)))
  {
    if edited == [] then []
    else
      var n := |edited| - 1;
      ChangedRows(original[..n], edited[..n], col, eq)
      + (if !eq(Get(edited[n], col), Get(original[n], col)) then [n] else [])
  }

  /** pandas' `==` on two cells: a missing value equals nothing, not even
      another missing value, as with SQL `=`. */
  predicate PandasEq(a: Value, b: Value) {
    SqlEq(a, b)
  }

  /** The comparison that treats two missing values as equal. */
  predicate NullSafeEq(a: Value, b: Value) {
    a == b
  }

  /** Submitting the snapshot unedited selects nothing, provided the
      comparison finds every editable cell equal to itself. */
  lemma UneditedSelectsNothing(rows: seq<Row>, col: string, eq: (Value, Value) -> bool)
    requires forall i :: 0 <= i < |rows| ==> eq(Get(rows[i], col), Get(rows[i], col))
    ensures ChangedRows(rows, rows, col, eq) == []
  {
  }

  /** With pandas' comparison, an unedited row whose editable cell is
      missing is still selected as changed. */
  lemma PandasSelectsMissingCell(rows: seq<Row>, col: string, i: nat)
    requires i < |rows| && Get(rows[i], col) == Null
    ensures i in ChangedRows(rows, rows, col, PandasEq)
  {
  }

  /** With the null-safe comparison an unedited snapshot selects nothing. */
  lemma NullSafeSelectsNothing(rows: seq<Row>, col: string)
    ensures ChangedRows(rows, rows, col, NullSafeEq) == []
  {
    UneditedSelectsNothing(rows, col, NullSafeEq);
  }
}
