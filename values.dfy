/**
  Cells, rows and the bookkeeping constants shared by the override workflow.

  A table is a sequence of rows; a row maps an (upper-cased) column name to a
  cell.  A column a row does not mention reads as NULL, as a column left out
  of an INSERT does.
 */
module Values {

  datatype Option<T> = None | Some(value: T)

  /** A cell as the application sees it: the missing marker pandas uses
      (NaN, None, NaT), a character string, or any other scalar (number,
      boolean, date, timestamp) held as the text Python prints for it. */
  datatype Value = Null | Str(s: string) | Scalar(text: string)

  type Row = map<string, Value>

  function Get(r: Row, c: string): Value {
    if c in r then r[c] else Null
  }

  const RecordFlag: string := "RECORD_FLAG"
  const AsAtDate: string := "AS_AT_DATE"
  const AsOfDate: string := "AS_OF_DATE"
  const SrcInsTs: string := "SRC_INS_TS"

  /** The three values `record_flag` takes: an Active source row, a
      Deprecated source row, and an Override (audit) row. */
  const Active: Value := Str("A")
  const Deprecated: Value := Str("D")
  const Overridden: Value := Str("O")

  function OldColumn(col: string): string { col + "_OLD" }
  function NewColumn(col: string): string { col + "_NEW" }

  /** The text an f-string interpolates for a cell: Python's `str`.  pandas
      holds a missing number as NaN, which prints as `nan`. */
  function TextForm(v: Value): string {
    match v
    case Null => "nan"
    case Str(s) => s
    case Scalar(t) => t
  }

  /** SQL `=`: a comparison with NULL is never true. */
  predicate SqlEq(a: Value, b: Value) {
    a != Null && b != Null && a == b
  }

  /** `COALESCE(x, '')` */
  function Coalesce(v: Value): Value {
    if v == Null then Str("") else v
  }

  predicate NoDups<T(==)>(s: seq<T>) {
    forall i, j :: 0 <= i < j < |s| ==> s[i] != s[j]
  }
}
