/**
  The two tables the workflow changes, and the "Submit Updates" handler
  that records the edits as override rows and then runs the two statements
  on the source table.
 */
module Engine {
  import opened Values
  import opened Literal
  import opened Columns
  import opened Detector
  import opened Recorder
  import opened Scd

  /** `values_to_insert`, built by appending one literal per common column. */
  method EncodeValues(row: Row, common: seq<string>) returns (vals: seq<string>)
    ensures vals == EncodedValues(row, common)
  {
    vals := [];
    var j := 0;
    while j < |common|
      invariant 0 <= j <= |common|
      invariant vals == EncodedValues(row, common[..j])
    {
      var value := Get(row, common[j]);
      if value == Null {
        vals := vals + ["NULL"];
      } else if value.Str? {
        vals := vals + [[Quote] + Double(value.s) + [Quote]];
      } else {
        vals := vals + [value.text];
      }
      assert common[..j + 1] == common[..j] + [common[j]];
      j := j + 1;
    }
    assert common[..j] == common;
  }

  /** The source table and the override table, with the columns each has. */
  class Database {
    const sourceSchema: seq<string>
    const overrideSchema: seq<string>
    var source: seq<Row>
    var overrides: seq<Row>

    constructor (sourceSchema: seq<string>, overrideSchema: seq<string>, source: seq<Row>, overrides: seq<Row>)
      ensures this.sourceSchema == sourceSchema && this.overrideSchema == overrideSchema
      ensures this.source == source && this.overrides == overrides
    {
      this.sourceSchema := sourceSchema;
      this.overrideSchema := overrideSchema;
      this.source := source;
      this.overrides := overrides;
    }

    /** `insert_into_target_table`: one INSERT per changed row, in row
        order, each appending one override row; the first rejected INSERT
        ends the loop.  `now` is CURRENT_TIMESTAMP(). */
    method RecordOverrides(snap: Snapshot, col: string, now: Value) returns (status: Status)
      modifies this
      ensures var rec := Record(snap, col, PandasEq, overrideSchema, now);
        overrides == old(overrides) + rec.appended && status == rec.status
      ensures source == old(source)
    {
      if |snap.original| != |snap.edited| {
        return Misaligned;
      }
      var idx := ChangedRows(snap.original, snap.edited, col, PandasEq);
      if idx == [] {
        return NoChanges;
      }
      var common := CommonColumns(snap.columns, overrideSchema, col);
      status := InsertChangedRows(snap, idx, common, col, now);
    }

    /** The loop over the changed rows: one INSERT per row, in order, each
        appending one override row; the first rejected INSERT ends it. */
    method InsertChangedRows(snap: Snapshot, idx: seq<nat>, common: seq<string>, col: string, now: Value) returns (status: Status)
      requires InRange(snap, idx) && idx != []
      modifies this
      ensures var rec := if AsAtDate !in snap.columns then Recording([], MissingColumn(AsAtDate))
          else if AsOfDate !in snap.columns then Recording([], MissingColumn(AsOfDate))
          else RecordRows(snap, idx, common, col, overrideSchema, now);
        overrides == old(overrides) + rec.appended && status == rec.status
      ensures source == old(source)
    {
      ghost var tries := Attempts(snap, idx, common, col, overrideSchema, now);
      var k := 0;
      while k < |idx|
        invariant 0 <= k <= |idx|
        invariant k > 0 ==> AsAtDate in snap.columns && AsOfDate in snap.columns
        invariant forall j :: 0 <= j < k ==> tries[j].Some?
        invariant overrides == old(overrides) + Accepted(tries[..k])
        invariant source == old(source)
      {
        var i := idx[k];
        if AsAtDate !in snap.columns {
          return MissingColumn(AsAtDate);
        }
        if AsOfDate !in snap.columns {
          return MissingColumn(AsOfDate);
        }
        var inserted := InsertOverride(snap, idx, k, common, col, now);
        if inserted.None? {
          CollectStopsAtRejection(idx, tries, k);
          return Rejected(i);
        }
        overrides := overrides + [inserted.value];
        AcceptedSnoc(tries, k);
        k := k + 1;
      }
      assert tries[..k] == tries;
      CollectAllAccepted(idx, tries);
      return Written(|idx|);
    }

    /** The INSERT built for the k-th changed row, and what the database
        stores for it, or None if it rejects it. */
    method InsertOverride(snap: Snapshot, idx: seq<nat>, k: nat, common: seq<string>, col: string, now: Value) returns (inserted: Option<Row>)
      requires InRange(snap, idx) && k < |idx|
      ensures inserted == Attempts(snap, idx, common, col, overrideSchema, now)[k]
    {
      var row := snap.edited[idx[k]];
      var oldValue := Get(snap.original[idx[k]], col);
      var newValue := Get(row, col);
      var asAt := Get(row, AsAtDate);
      var asOf := Get(row, AsOfDate);
      var encoded := EncodeValues(row, common);
      inserted := InsertedRow(OverrideColumns(common, col), OverrideValues(encoded, asOf, asAt, oldValue, newValue), overrideSchema, now);
    }

    /** `insert_into_source_table`; `now` is CURRENT_TIMESTAMP(0). */
    method InsertNewVersions(col: string, keys: seq<string>, now: Value) returns (outcome: Statement)
      modifies this
      ensures var step := InsertStep(old(source), overrides, sourceSchema, overrideSchema, col, keys, now);
        source == step.table && outcome == step.outcome
      ensures overrides == old(overrides)
    {
      var step := InsertStep(source, overrides, sourceSchema, overrideSchema, col, keys, now);
      source := step.table;
      outcome := step.outcome;
    }

    /** `update_old_record` */
    method DeprecateSuperseded(col: string, keys: seq<string>) returns (outcome: Statement)
      modifies this
      ensures var step := DeprecateStep(old(source), overrides, sourceSchema, overrideSchema, col, keys);
        source == step.table && outcome == step.outcome
      ensures overrides == old(overrides)
    {
      var step := DeprecateStep(source, overrides, sourceSchema, overrideSchema, col, keys);
      source := step.table;
      outcome := step.outcome;
    }

    /** The "Submit Updates" handler: the three steps, in order, each run
        whatever the one before it did.  `now` and `now0` are the values of
        CURRENT_TIMESTAMP() and CURRENT_TIMESTAMP(0). */
    method Submit(snap: Snapshot, col: string, keys: seq<string>, now: Value, now0: Value)
      returns (recorded: Status, inserted: Statement, deprecated: Statement)
      modifies this
      ensures var rec := Record(snap, col, PandasEq, overrideSchema, now);
        overrides == old(overrides) + rec.appended && recorded == rec.status
      ensures var step2 := InsertStep(old(source), overrides, sourceSchema, overrideSchema, col, keys, now0);
        var step3 := DeprecateStep(step2.table, overrides, sourceSchema, overrideSchema, col, keys);
        && source == step3.table
        && inserted == step2.outcome && deprecated == step3.outcome
    {
      recorded := RecordOverrides(snap, col, now);
      inserted := InsertNewVersions(col, keys, now0);
      deprecated := DeprecateSuperseded(col, keys);
    }
  }
}
