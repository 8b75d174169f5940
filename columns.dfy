/**
  The column and value lists of the two INSERT statements, and what the
  database stores for an `INSERT INTO t (columns) VALUES (values)`.
 */
module Columns {
  import opened Values
  import opened Literal

  /** a is b with some elements left out, the rest in order. */
  ghost predicate Subsequence<T>(a: seq<T>, b: seq<T>) {
    || a == []
    || (&& b != []
        && (|| (a[|a| - 1] == b[|b| - 1] && Subsequence(a[..|a| - 1], b[..|b| - 1]))
            || Subsequence(a, b[..|b| - 1])))
  }

  /** The names of `cols` that `keep` accepts, in their order. */
  function Filter(cols: seq<string>, keep: string -> bool): (r: seq<string>)
    ensures forall c :: c in r <==> c in cols && keep(c)
    ensures Subsequence(r, cols)
    ensures NoDups(cols) ==> NoDups(r)
  {
    if cols == [] then []
    else
      var init := Filter(cols[..|cols| - 1], keep);
      var c := cols[|cols| - 1];
      assert cols == cols[..|cols| - 1] + [c];
      if keep(c) then
        var r := init + [c];
        assert r[..|r| - 1] == init;
        r
      else init
  }

  /** The names the override recorder never copies from a row. */
  function Excluded(col: string): seq<string> {
    [col, AsAtDate, RecordFlag, AsOfDate]
  }

  /** `common_columns`: the row's columns, in their order, that the override
      table also has, except the editable column and the bookkeeping
      columns. */
  function CommonColumns(rowColumns: seq<string>, targetColumns: seq<string>, col: string): (common: seq<string>)
    ensures forall c :: c in common <==> c in rowColumns && c in targetColumns && c !in Excluded(col)
    ensures Subsequence(common, rowColumns)
    ensures NoDups(rowColumns) ==> NoDups(common)
  {
    Filter(rowColumns, c => c in targetColumns && c !in Excluded(col))
  }

  /** The columns after the common ones in the override INSERT. */
  function Bookkeeping(col: string): seq<string> {
    [AsOfDate, SrcInsTs, OldColumn(col), NewColumn(col), RecordFlag, AsAtDate]
  }

  /** The six bookkeeping columns are distinct whatever the editable
      column: their names end in six different ways. */
  lemma BookkeepingDistinct(col: string)
    ensures NoDups(Bookkeeping(col))
  {
    var b := Bookkeeping(col);
    assert b[0][|b[0]| - 1] == 'E' && b[0][3] == 'O';
    assert b[1][|b[1]| - 1] == 'S';
    assert b[2][|b[2]| - 1] == 'D';
    assert b[3][|b[3]| - 1] == 'W';
    assert b[4][|b[4]| - 1] == 'G';
    assert b[5][|b[5]| - 1] == 'E' && b[5][3] == 'A';
  }

  /** A list has no repeated name exactly when its two parts have none and
      share none. */
  lemma NoDupsAppend(a: seq<string>, b: seq<string>)
    ensures NoDups(a + b) <==> NoDups(a) && NoDups(b) && forall x :: x in a ==> x !in b
  {
    var ab := a + b;
    if NoDups(ab) {
      forall i, j | 0 <= i < |a| && 0 <= j < |b| ensures a[i] != b[j] {
        assert ab[i] == a[i] && ab[|a| + j] == b[j];
      }
      forall i, j | 0 <= i < j < |a| ensures a[i] != a[j] {
        assert ab[i] == a[i] && ab[j] == a[j];
      }
      forall i, j | 0 <= i < j < |b| ensures b[i] != b[j] {
        assert ab[|a| + i] == b[i] && ab[|a| + j] == b[j];
      }
    }
    if NoDups(a) && NoDups(b) && forall x :: x in a ==> x !in b {
      forall i, j | 0 <= i < j < |ab| ensures ab[i] != ab[j] {
        if j < |a| {
        } else if i < |a| {
          assert ab[i] in a && ab[j] == b[j - |a|];
        } else {
          assert ab[i] == b[i - |a|] && ab[j] == b[j - |a|];
        }
      }
    }
  }

  /** `columns_to_insert` of the override INSERT: the common columns and
      the six bookkeeping columns.  It names no column twice exactly when
      the common columns repeat none and hold no bookkeeping column. */
  function OverrideColumns(common: seq<string>, col: string): (cols: seq<string>)
    ensures |cols| == |common| + 6
    ensures forall c :: c in cols <==> c in common || c in Bookkeeping(col)
    ensures NoDups(cols) <==> NoDups(common) && forall c :: c in common ==> c !in Bookkeeping(col)
  {
    BookkeepingDistinct(col);
    NoDupsAppend(common, Bookkeeping(col));
    common + Bookkeeping(col)
  }

  /** `values_to_insert`: one literal per common column, each read back by
      the database as the cell it was written from, when that cell has a
      readable text form. */
  function EncodedValues(row: Row, common: seq<string>): (vals: seq<string>)
    ensures |vals| == |common|
    ensures forall i, now :: 0 <= i < |common| && Denotable(Get(row, common[i])) ==> Denote(vals[i], now) == Some(Get(row, common[i]))
  {
    var vals := seq(|common|, i requires 0 <= i < |common| => Encode(Get(row, common[i])));
    assert forall i, now :: 0 <= i < |common| && Denotable(Get(row, common[i])) ==> Denote(vals[i], now) == Some(Get(row, common[i])) by {
      forall i, now | 0 <= i < |common| && Denotable(Get(row, common[i])) ensures Denote(vals[i], now) == Some(Get(row, common[i])) {
        LiteralRoundTrip(Get(row, common[i]), now);
      }
    }
    vals
  }

  /** Text put between quotes as it is, its own quotes not doubled. */
  function Quoted(t: string): string {
    [Quote] + t + [Quote]
  }

  /** The VALUES list of the override INSERT, cut at its top-level commas.
      The common values are joined and followed by `,'as_of','as_at', old,
      new, 'O', CURRENT_TIMESTAMP()`, so with no common value the list opens
      with an empty piece. */
  function OverrideValues(encoded: seq<string>, asOf: Value, asAt: Value, oldValue: Value, newValue: Value): (vals: seq<string>)
    ensures |vals| == (if encoded == [] then 1 else |encoded|) + 6
    ensures encoded != [] ==> vals[..|encoded|] == encoded
    ensures encoded == [] ==> forall now :: Denote(vals[0], now) == None
  {
    (if encoded == [] then [""] else encoded)
    + [Quoted(TextForm(asOf)), Quoted(TextForm(asAt)), TextForm(oldValue), TextForm(newValue), "'O'", "CURRENT_TIMESTAMP()"]
  }

  /** The two lists have the same length exactly when there is a common
      column; they pair up by position, so `SRC_INS_TS` receives the row's
      as-at date and `AS_AT_DATE` receives the current timestamp. */
  lemma OverrideListsPair(row: Row, common: seq<string>, col: string, asOf: Value, asAt: Value, oldValue: Value, newValue: Value)
    ensures var cols := OverrideColumns(common, col);
      var vals := OverrideValues(EncodedValues(row, common), asOf, asAt, oldValue, newValue);
      && (|cols| == |vals| <==> common != [])
      && (common != [] ==>
            && (forall i :: 0 <= i < |common| ==> vals[i] == Encode(Get(row, cols[i])))
            && cols[|common|] == AsOfDate && vals[|common|] == Quoted(TextForm(asOf))
            && cols[|common| + 1] == SrcInsTs && vals[|common| + 1] == Quoted(TextForm(asAt))
            && cols[|common| + 2] == OldColumn(col) && vals[|common| + 2] == TextForm(oldValue)
            && cols[|common| + 3] == NewColumn(col) && vals[|common| + 3] == TextForm(newValue)
            && cols[|common| + 4] == RecordFlag && vals[|common| + 4] == "'O'"
            && cols[|common| + 5] == AsAtDate && vals[|common| + 5] == "CURRENT_TIMESTAMP()")
  {
  }

  /** The row built from a column list and the values in the same positions. */
  function Zip(cols: seq<string>, vals: seq<Value>): Row
    requires |cols| == |vals|
  {
    if cols == [] then map[]
    else
      var n := |cols| - 1;
      Zip(cols[..n], vals[..n])[cols[n] := vals[n]]
  }

  /** The row has exactly the listed columns, and when no column is listed
      twice each holds the value in its position. */
  lemma ZipCells(cols: seq<string>, vals: seq<Value>)
    requires |cols| == |vals|
    ensures Zip(cols, vals).Keys == set c | c in cols
    ensures NoDups(cols) ==> forall i :: 0 <= i < |cols| ==> Zip(cols, vals)[cols[i]] == vals[i]
  {
    ZipKeys(cols, vals);
    if NoDups(cols) {
      ZipValues(cols, vals);
    }
  }

  lemma {:induction false} ZipKeys(cols: seq<string>, vals: seq<Value>)
    requires |cols| == |vals|
    ensures Zip(cols, vals).Keys == set c | c in cols
  {
    if cols != [] {
      var n := |cols| - 1;
      ZipKeys(cols[..n], vals[..n]);
      assert forall c :: c in cols <==> c in cols[..n] || c == cols[n];
    }
  }

  lemma {:induction false} ZipValues(cols: seq<string>, vals: seq<Value>)
    requires |cols| == |vals| && NoDups(cols)
    ensures forall i :: 0 <= i < |cols| ==> cols[i] in Zip(cols, vals) && Zip(cols, vals)[cols[i]] == vals[i]
  {
    if cols != [] {
      var n := |cols| - 1;
      ZipValues(cols[..n], vals[..n]);
      forall i | 0 <= i < n ensures cols[..n][i] != cols[n] {
      }
    }
  }

  /** The values the database reads from a list of literals. */
  function DenoteAll(frags: seq<string>, now: Value): seq<Value>
    requires forall i :: 0 <= i < |frags| ==> Denote(frags[i], now).Some?
  {
    seq(|frags|, i requires 0 <= i < |frags| => Denote(frags[i], now).value)
  }

  /** The database accepts `INSERT INTO t (cols) VALUES (frags)` into a
      table with the given columns: the counts agree, no column is named
      twice, every column is in the table, and every piece is a literal. */
  predicate Accepts(cols: seq<string>, frags: seq<string>, schema: seq<string>, now: Value) {
    && |cols| == |frags|
    && NoDups(cols)
    && (forall c :: c in cols ==> c in schema)
    && (forall i :: 0 <= i < |frags| ==> Denote(frags[i], now).Some?)
  }

  /** What `INSERT INTO t (cols) VALUES (frags)` stores: the row pairing
      each column with the value in the same position, or None when the
      database rejects the statement.  Columns the statement leaves out
      hold NULL. */
  function InsertedRow(cols: seq<string>, frags: seq<string>, schema: seq<string>, now: Value): Option<Row> {
    if Accepts(cols, frags, schema, now) then Some(Zip(cols, DenoteAll(frags, now))) else None
  }

  /** A stored row holds in each listed column what the literal in the same
      position denotes, and nothing else. */
  lemma InsertedRowCells(cols: seq<string>, frags: seq<string>, schema: seq<string>, now: Value)
    ensures InsertedRow(cols, frags, schema, now).Some? <==> Accepts(cols, frags, schema, now)
    ensures InsertedRow(cols, frags, schema, now).Some? ==>
      && InsertedRow(cols, frags, schema, now).value.Keys == (set c | c in cols)
      && forall i :: 0 <= i < |cols| ==> Denote(frags[i], now) == Some(Get(InsertedRow(cols, frags, schema, now).value, cols[i]))
  {
    if Accepts(cols, frags, schema, now) {
      ZipCells(cols, DenoteAll(frags, now));
    }
  }

  /** `common_columns` of the source INSERT: every source column except
      `RECORD_FLAG`, `AS_AT_DATE` and the editable column. */
  function SourceInsertColumns(sourceColumns: seq<string>, col: string): (cols: seq<string>)
    ensures forall c :: c in cols <==> c in sourceColumns && c != RecordFlag && c != AsAtDate && c != col
    ensures Subsequence(cols, sourceColumns)
  {
    Filter(sourceColumns, c => c !in [RecordFlag, AsAtDate, col])
  }
}
