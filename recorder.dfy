/**
  The override recorder as a function of its inputs: what one submit
  appends to the override table, and why it stops.  The class in engine.dfy
  runs the same steps one row at a time.
 */
module Recorder {
  import opened Values
  import opened Literal
  import opened Columns
  import opened Detector

  /** The original and edited DataFrames of one submit: one column list, and
      rows aligned by position (the DataFrame index). */
  datatype Snapshot = Snapshot(columns: seq<string>, original: seq<Row>, edited: seq<Row>)

  /** How the recorder ended.  `Misaligned`: the two snapshots do not have
      the same rows, and pandas refuses to compare them.  `MissingColumn`:
      reading a bookkeeping cell of a row fails.  `Rejected(i)`: the
      database refused the INSERT built for row i, and the rows after it are
      not tried. */
  datatype Status = Written(count: nat) | NoChanges | Misaligned | MissingColumn(name: string) | Rejected(row: nat)

  datatype Recording = Recording(appended: seq<Row>, status: Status)

  /** The row the database stores for the INSERT built from the edited row
      `row`, whose original is `orig`, or None if it rejects that INSERT.
      `common` is the common column list, computed once per submit. */
  function OverrideFor(orig: Row, row: Row, common: seq<string>, col: string, target: seq<string>, now: Value): (r: Option<Row>)
    ensures r.Some? ==> common != [] && Get(r.value, RecordFlag) == Overridden && Get(r.value, AsAtDate) == now
  {
    var cols := OverrideColumns(common, col);
    var vals := OverrideValues(EncodedValues(row, common), Get(row, AsOfDate), Get(row, AsAtDate), Get(orig, col), Get(row, col));
    InsertedRowCells(cols, vals, target, now);
    OverrideListsPair(row, common, col, Get(row, AsOfDate), Get(row, AsAtDate), Get(orig, col), Get(row, col));
    FlagReadsBack(now);
    InsertedRow(cols, vals, target, now)
  }

  predicate InRange(snap: Snapshot, idx: seq<nat>) {
    forall j :: 0 <= j < |idx| ==> idx[j] < |snap.original| && idx[j] < |snap.edited|
  }

  /** The outcome of the INSERT for each selected row, in order. */
  function Attempts(snap: Snapshot, idx: seq<nat>, common: seq<string>, col: string, target: seq<string>, now: Value): (tries: seq<Option<Row>>)
    requires InRange(snap, idx)
    ensures |tries| == |idx|
  {
    seq(|idx|, j requires 0 <= j < |idx| => OverrideFor(snap.original[idx[j]], snap.edited[idx[j]], common, col, target, now))
  }

  /** The rows of a list of accepted INSERTs. */
  function Accepted(tries: seq<Option<Row>>): (rows: seq<Row>)
    requires forall j :: 0 <= j < |tries| ==> tries[j].Some?
    ensures |rows| == |tries|
  {
    seq(|tries|, j requires 0 <= j < |tries| => tries[j].value)
  }

  /** The INSERTs are run in order, stopping at the first one the database
      rejects; `idx[j]` is the row whose INSERT had outcome `tries[j]`. */
  function Collect(idx: seq<nat>, tries: seq<Option<Row>>): (rec: Recording)
    requires |idx| == |tries|
    ensures |rec.appended| <= |idx|
    ensures rec.status.Written? || rec.status.Rejected?
    ensures rec.status.Written? ==> rec.status.count == |idx| == |rec.appended|
  {
    if idx == [] then Recording([], Written(0))
    else
      var n := |idx| - 1;
      var prev := Collect(idx[..n], tries[..n]);
      if !prev.status.Written? then prev
      else match tries[n]
        case None => Recording(prev.appended, Rejected(idx[n]))
        case Some(r) => Recording(prev.appended + [r], Written(prev.status.count + 1))
  }

  /** One INSERT per selected row. */
  function RecordRows(snap: Snapshot, idx: seq<nat>, common: seq<string>, col: string, target: seq<string>, now: Value): Recording
    requires InRange(snap, idx)
  {
    Collect(idx, Attempts(snap, idx, common, col, target, now))
  }

  /** `insert_into_target_table`: misaligned snapshots are refused, and
      every run that ends before the INSERTs appends nothing; a written run
      appended one row per changed row. */
  function Record(snap: Snapshot, col: string, eq: (Value, Value) -> bool, target: seq<string>, now: Value): (rec: Recording)
    ensures rec.status.Misaligned? <==> |snap.original| != |snap.edited|
    ensures rec.status.Written? || rec.status.Rejected? || rec.appended == []
    ensures rec.status.Written? ==> 0 < rec.status.count == |rec.appended|
    ensures rec.status.Written? ==> |snap.original| == |snap.edited| && rec.status.count == |ChangedRows(snap.original, snap.edited, col, eq)|
  {
    if |snap.original| != |snap.edited| then Recording([], Misaligned)
    else
      var idx := ChangedRows(snap.original, snap.edited, col, eq);
      if idx == [] then Recording([], NoChanges)
      else if AsAtDate !in snap.columns then Recording([], MissingColumn(AsAtDate))
      else if AsOfDate !in snap.columns then Recording([], MissingColumn(AsOfDate))
      else RecordRows(snap, idx, CommonColumns(snap.columns, target, col), col, target, now)
  }

  /** When every INSERT is accepted, exactly one row is appended per
      selected row, in order. */
  lemma {:induction false} CollectAllAccepted(idx: seq<nat>, tries: seq<Option<Row>>)
    requires |idx| == |tries|
    requires forall j :: 0 <= j < |tries| ==> tries[j].Some?
    ensures Collect(idx, tries) == Recording(Accepted(tries), Written(|idx|))
  {
    if idx != [] {
      var n := |idx| - 1;
      CollectAllAccepted(idx[..n], tries[..n]);
      assert Accepted(tries) == Accepted(tries[..n]) + [tries[n].value];
    }
  }

  lemma AcceptedSnoc(tries: seq<Option<Row>>, k: nat)
    requires k < |tries|
    requires forall j :: 0 <= j <= k ==> tries[j].Some?
    ensures Accepted(tries[..k + 1]) == Accepted(tries[..k]) + [tries[k].value]
  {
  }

  /** When the INSERT for `idx[j]` is the first one rejected, the rows
      before it stay appended, nothing after it is tried, and the run
      reports that row. */
  lemma {:induction false} CollectStopsAtRejection(idx: seq<nat>, tries: seq<Option<Row>>, j: nat)
    requires |idx| == |tries| && j < |idx|
    requires tries[j] == None
    requires forall k :: 0 <= k < j ==> tries[k].Some?
    ensures Collect(idx, tries) == Recording(Accepted(tries[..j]), Rejected(idx[j]))
  {
    var n := |idx| - 1;
    if j == n {
      assert tries[..n] == tries[..j];
      CollectAllAccepted(idx[..n], tries[..n]);
    } else {
      assert idx[..n][j] == idx[j];
      assert tries[..n][..j] == tries[..j];
      CollectStopsAtRejection(idx[..n], tries[..n], j);
    }
  }

  /** The stored override row keeps each common column's cell of the
      edited row. */
  lemma OverrideCopiesCommonCells(orig: Row, row: Row, common: seq<string>, col: string, target: seq<string>, now: Value, r: Row)
    requires OverrideFor(orig, row, common, col, target, now) == Some(r)
    requires forall c :: c in common ==> Denotable(Get(row, c))
    ensures forall c :: c in common ==> Get(r, c) == Get(row, c)
  {
    var cols := OverrideColumns(common, col);
    var vals := OverrideValues(EncodedValues(row, common), Get(row, AsOfDate), Get(row, AsAtDate), Get(orig, col), Get(row, col));
    InsertedRowCells(cols, vals, target, now);
    OverrideListsPair(row, common, col, Get(row, AsOfDate), Get(row, AsAtDate), Get(orig, col), Get(row, col));
    forall k | 0 <= k < |common| ensures Get(r, common[k]) == Get(row, common[k]) {
      assert cols[k] == common[k];
      assert Denote(vals[k], now) == Some(Get(r, common[k]));
      assert common[k] in common;
      LiteralRoundTrip(Get(row, common[k]), now);
    }
  }

  /** Each bookkeeping column of a stored override row holds what the
      literal paired with it denotes, and there is a common column. */
  lemma BookkeepingLiterals(orig: Row, row: Row, common: seq<string>, col: string, target: seq<string>, now: Value, r: Row)
    requires OverrideFor(orig, row, common, col, target, now) == Some(r)
    ensures common != []
    ensures && Denote(Quoted(TextForm(Get(row, AsOfDate))), now) == Some(Get(r, AsOfDate))
            && Denote(Quoted(TextForm(Get(row, AsAtDate))), now) == Some(Get(r, SrcInsTs))
            && Denote(TextForm(Get(orig, col)), now) == Some(Get(r, OldColumn(col)))
            && Denote(TextForm(Get(row, col)), now) == Some(Get(r, NewColumn(col)))
            && Denote("'O'", now) == Some(Get(r, RecordFlag))
            && Denote("CURRENT_TIMESTAMP()", now) == Some(Get(r, AsAtDate))
  {
    var cols := OverrideColumns(common, col);
    var asOf, asAt, o, e := Get(row, AsOfDate), Get(row, AsAtDate), Get(orig, col), Get(row, col);
    var vals := OverrideValues(EncodedValues(row, common), asOf, asAt, o, e);
    InsertedRowCells(cols, vals, target, now);
    OverrideListsPair(row, common, col, asOf, asAt, o, e);
    assert |common| > 0;
  }

  /** The bookkeeping cells of a stored override row: `AS_OF_DATE` holds
      the row's as-of date as text; `SRC_INS_TS`, paired by position with
      the row's as-at date, holds that date as text; `AS_AT_DATE`, paired
      with CURRENT_TIMESTAMP(), holds the time of the insert; the original
      and edited values were both present, and `_OLD` and `_NEW` hold them;
      `RECORD_FLAG` holds 'O'. */
  lemma OverrideBookkeeping(orig: Row, row: Row, common: seq<string>, col: string, target: seq<string>, now: Value, r: Row)
    requires OverrideFor(orig, row, common, col, target, now) == Some(r)
    ensures && (Verbatim(TextForm(Get(row, AsOfDate))) ==> Get(r, AsOfDate) == Str(TextForm(Get(row, AsOfDate))))
            && (Verbatim(TextForm(Get(row, AsAtDate))) ==> Get(r, SrcInsTs) == Str(TextForm(Get(row, AsAtDate))))
            && Get(r, AsAtDate) == now
            && Get(orig, col) != Null && Get(row, col) != Null
            && (Get(orig, col).Scalar? && Denotable(Get(orig, col)) ==> Get(r, OldColumn(col)) == Get(orig, col))
            && (Get(row, col).Scalar? && Denotable(Get(row, col)) ==> Get(r, NewColumn(col)) == Get(row, col))
            && Get(r, RecordFlag) == Overridden
  {
    BookkeepingLiterals(orig, row, common, col, target, now, r);
    QuotedDateReadsBack(Get(row, AsOfDate), now, Get(r, AsOfDate));
    QuotedDateReadsBack(Get(row, AsAtDate), now, Get(r, SrcInsTs));
    BareValueReadsBack(Get(orig, col), now, Get(r, OldColumn(col)));
    BareValueReadsBack(Get(row, col), now, Get(r, NewColumn(col)));
    FlagReadsBack(now);
  }

  /** A date written between quotes reads back as its text. */
  lemma QuotedDateReadsBack(d: Value, now: Value, v: Value)
    requires Denote(Quoted(TextForm(d)), now) == Some(v)
    ensures Verbatim(TextForm(d)) ==> v == Str(TextForm(d))
  {
    if Verbatim(TextForm(d)) {
      QuotedTextDenotes(TextForm(d), now);
    }
  }

  /** A value written bare is accepted only when present, and a bare
      literal reads back as itself. */
  lemma BareValueReadsBack(x: Value, now: Value, v: Value)
    requires Denote(TextForm(x), now) == Some(v)
    ensures x != Null
    ensures x.Scalar? && Denotable(x) ==> v == x
  {
  }

  /** The flag literal reads as 'O'. */
  lemma FlagReadsBack(now: Value)
    ensures Denote("'O'", now) == Some(Overridden)
  {
    var frag := "'O'";
    assert |frag| == 3 && frag[0] == Quote && frag[2] == Quote;
    assert frag[1..|frag| - 1] == "O";
    assert "O"[1..] == [];
    assert Undouble("O") == Prepend('O', Some([]));
    assert ['O'] + [] == "O";
  }

  /** The converse: the INSERT for a row is accepted when there is a common
      column, every listed column is in the override table and none is
      listed twice, every cell has a readable literal, the dates print
      without quotes, and the old and new values are bare literals. */
  lemma OverrideAccepted(orig: Row, row: Row, common: seq<string>, col: string, target: seq<string>, now: Value)
    requires common != []
    requires NoDups(OverrideColumns(common, col))
    requires forall c :: c in OverrideColumns(common, col) ==> c in target
    requires forall c :: c in common ==> Denotable(Get(row, c))
    requires Verbatim(TextForm(Get(row, AsOfDate))) && Verbatim(TextForm(Get(row, AsAtDate)))
    requires ScalarToken(TextForm(Get(orig, col))) && ScalarToken(TextForm(Get(row, col)))
    ensures OverrideFor(orig, row, common, col, target, now).Some?
  {
    var cols := OverrideColumns(common, col);
    var asOf, asAt, o, e := Get(row, AsOfDate), Get(row, AsAtDate), Get(orig, col), Get(row, col);
    var vals := OverrideValues(EncodedValues(row, common), asOf, asAt, o, e);
    OverrideListsPair(row, common, col, asOf, asAt, o, e);
    var m := |common|;
    forall k | 0 <= k < |vals| ensures Denote(vals[k], now).Some? {
      if k < m {
        assert common[k] in common;
        LiteralRoundTrip(Get(row, common[k]), now);
      } else if k == m {
        QuotedTextDenotes(TextForm(asOf), now);
      } else if k == m + 1 {
        QuotedTextDenotes(TextForm(asAt), now);
      } else if k == m + 4 {
        FlagReadsBack(now);
      }
    }
    InsertedRowCells(cols, vals, target, now);
  }

  /** A missing editable value, original or edited, is interpolated as
      `nan`, and the database rejects that row's INSERT. */
  lemma MissingValueRejected(orig: Row, row: Row, common: seq<string>, col: string, target: seq<string>, now: Value)
    requires Get(orig, col) == Null || Get(row, col) == Null
    ensures OverrideFor(orig, row, common, col, target, now) == None
  {
    var cols := OverrideColumns(common, col);
    var vals := OverrideValues(EncodedValues(row, common), Get(row, AsOfDate), Get(row, AsAtDate), Get(orig, col), Get(row, col));
    var m := if common == [] then 1 else |common|;
    InsertedRowCells(cols, vals, target, now);
    if Get(orig, col) == Null {
      assert vals[m + 2] == "nan";
      assert Denote(vals[m + 2], now) == None;
    } else {
      assert vals[m + 3] == "nan";
      assert Denote(vals[m + 3], now) == None;
    }
  }

  /** A common cell whose literal the database cannot read, a date or a
      timestamp written without quotes, say, makes the INSERT rejected. */
  lemma UnreadableCellRejected(orig: Row, row: Row, common: seq<string>, col: string, target: seq<string>, now: Value, c: string)
    requires c in common && Denote(Encode(Get(row, c)), now) == None
    ensures OverrideFor(orig, row, common, col, target, now) == None
  {
    var cols := OverrideColumns(common, col);
    var vals := OverrideValues(EncodedValues(row, common), Get(row, AsOfDate), Get(row, AsAtDate), Get(orig, col), Get(row, col));
    InsertedRowCells(cols, vals, target, now);
    var i :| 0 <= i < |common| && common[i] == c;
    assert vals[i] == Encode(Get(row, c));
  }

  /** With no common column the VALUES list opens with a comma, and every
      INSERT is rejected. */
  lemma NoCommonColumnRejected(orig: Row, row: Row, col: string, target: seq<string>, now: Value)
    ensures OverrideFor(orig, row, [], col, target, now) == None
  {
    var cols := OverrideColumns([], col);
    var vals := OverrideValues(EncodedValues(row, []), Get(row, AsOfDate), Get(row, AsAtDate), Get(orig, col), Get(row, col));
    InsertedRowCells(cols, vals, target, now);
    assert |cols| != |vals|;
  }

  /** A common column that is also a bookkeeping column (a source table
      with its own `SRC_INS_TS`, say) is listed twice, and every INSERT is
      rejected. */
  lemma BookkeepingClashRejected(orig: Row, row: Row, common: seq<string>, col: string, target: seq<string>, now: Value, c: string)
    requires c in common && c in Bookkeeping(col)
    ensures OverrideFor(orig, row, common, col, target, now) == None
  {
    var cols := OverrideColumns(common, col);
    var vals := OverrideValues(EncodedValues(row, common), Get(row, AsOfDate), Get(row, AsAtDate), Get(orig, col), Get(row, col));
    InsertedRowCells(cols, vals, target, now);
    var i :| 0 <= i < |common| && common[i] == c;
    var j :| 0 <= j < 6 && Bookkeeping(col)[j] == c;
    assert cols[i] == cols[|common| + j];
  }

  /** The outcome of a submit: misaligned snapshots, no changed row and a
      missing date column each end it before any INSERT and append
      nothing; otherwise it runs one INSERT per changed row (whose outcome
      `CollectOutcome` describes). */
  lemma RecordOutcome(snap: Snapshot, col: string, eq: (Value, Value) -> bool, target: seq<string>, now: Value)
    ensures var rec := Record(snap, col, eq, target, now);
      && (rec.status.Misaligned? <==> |snap.original| != |snap.edited|)
      && (rec.status.NoChanges? <==>
            |snap.original| == |snap.edited| && ChangedRows(snap.original, snap.edited, col, eq) == [])
      && (rec.status.Written? || rec.status.Rejected? <==>
            && |snap.original| == |snap.edited|
            && ChangedRows(snap.original, snap.edited, col, eq) != []
            && AsAtDate in snap.columns && AsOfDate in snap.columns)
      && (rec.status.Written? || rec.status.Rejected? ==>
            && |snap.original| == |snap.edited|
            && var idx := ChangedRows(snap.original, snap.edited, col, eq);
            && rec == Collect(idx, Attempts(snap, idx, CommonColumns(snap.columns, target, col), col, target, now)))
      && (!rec.status.Written? && !rec.status.Rejected? ==> rec.appended == [])
  {
  }

  /** The outcome of a run of INSERTs: all accepted, or stopped at the
      first rejected one with the earlier rows appended. */
  lemma CollectOutcome(idx: seq<nat>, tries: seq<Option<Row>>)
    requires |idx| == |tries|
    ensures var rec := Collect(idx, tries);
      && (rec.status.Written? ==>
            && rec.status.count == |idx|
            && (forall j :: 0 <= j < |idx| ==> tries[j].Some?)
            && rec.appended == Accepted(tries))
      && (rec.status.Rejected? ==>
            exists j :: 0 <= j < |idx| && idx[j] == rec.status.row && tries[j] == None
              && (forall k :: 0 <= k < j ==> tries[k].Some?)
              && rec.appended == Accepted(tries[..j]))
  {
    if forall j :: 0 <= j < |idx| ==> tries[j].Some? {
      CollectAllAccepted(idx, tries);
    } else {
      var j := FirstRejection(tries);
      CollectStopsAtRejection(idx, tries, j);
    }
  }

  /** The position of the first rejected INSERT. */
  lemma {:induction false} FirstRejection(tries: seq<Option<Row>>) returns (j: nat)
    requires exists j :: 0 <= j < |tries| && tries[j] == None
    ensures j < |tries| && tries[j] == None
    ensures forall k :: 0 <= k < j ==> tries[k].Some?
  {
    var n := |tries| - 1;
    if exists k :: 0 <= k < n && tries[k] == None {
      var k :| 0 <= k < n && tries[k] == None;
      assert tries[..n][k] == None;
      j := FirstRejection(tries[..n]);
      assert tries[..n][j] == tries[j];
      forall k | 0 <= k < j ensures tries[k].Some? {
        assert tries[..n][k] == tries[k];
      }
    } else {
      j := n;
    }
  }

  /** Submitting the snapshot unedited writes nothing, provided the
      comparison finds each editable cell equal to itself. */
  lemma UneditedRecordsNothing(cols: seq<string>, rows: seq<Row>, col: string, eq: (Value, Value) -> bool, target: seq<string>, now: Value)
    requires forall i :: 0 <= i < |rows| ==> eq(Get(rows[i], col), Get(rows[i], col))
    ensures Record(Snapshot(cols, rows, rows), col, eq, target, now) == Recording([], NoChanges)
  {
    UneditedSelectsNothing(rows, col, eq);
  }
}
