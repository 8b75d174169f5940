/**
  The two statements that turn recorded overrides into new versions of the
  source table (slowly changing dimension, type 2): the INSERT ... SELECT
  that adds an Active version carrying each override's new value, and the
  UPDATE ... FROM that flags the version it replaces as Deprecated.  Both
  read the whole override table, every override ever recorded, not only
  the ones of the current submit.
 */
module Scd {
  import opened Values
  import opened Text
  import opened Columns

  /** The column a joining key names.  The keys keep the white space
      around them, and the statements write them as `tgt.<key>`; SQL reads
      that white space as a separator, so `tgt.ID ` and `tgt. DESK` name
      ID and DESK. */
  function KeyName(key: string): string {
    Strip(key)
  }

  /** The joining key of a row: `COALESCE(t.key, '')` for each key, so a
      missing key cell joins with an empty string. */
  function KeyOf(r: Row, keys: seq<string>): (k: seq<Value>)
    ensures |k| == |keys|
    ensures forall i :: 0 <= i < |k| ==> k[i] != Null
  {
    seq(|keys|, i requires 0 <= i < |keys| => Coalesce(Get(r, KeyName(keys[i]))))
  }

  /** Two key cells the join condition pairs. */
  predicate CellsJoin(x: Value, y: Value) {
    || x == y
    || (x == Null && y == Str(""))
    || (x == Str("") && y == Null)
  }

  /** Two rows have the same joining key exactly when each key cell is
      equal, or one is missing and the other is the empty string. */
  lemma KeyOfJoins(a: Row, b: Row, keys: seq<string>)
    ensures KeyOf(a, keys) == KeyOf(b, keys) <==> forall i :: 0 <= i < |keys| ==> CellsJoin(Get(a, KeyName(keys[i])), Get(b, KeyName(keys[i])))
  {
    if forall i :: 0 <= i < |keys| ==> CellsJoin(Get(a, KeyName(keys[i])), Get(b, KeyName(keys[i]))) {
      assert forall i :: 0 <= i < |keys| ==> KeyOf(a, keys)[i] == KeyOf(b, keys)[i];
    }
    if KeyOf(a, keys) == KeyOf(b, keys) {
      forall i | 0 <= i < |keys| ensures CellsJoin(Get(a, KeyName(keys[i])), Get(b, KeyName(keys[i]))) {
        assert KeyOf(a, keys)[i] == KeyOf(b, keys)[i];
      }
    }
  }

  /** `t.RECORD_FLAG = 'A'` */
  predicate IsActive(r: Row) {
    Get(r, RecordFlag) == Active
  }

  /** Source row `s` and override `o` satisfy the join and filter of both
      statements: `s` is Active, the joining keys agree, and the editable
      value of `s` equals the override's old value (SQL equality, so a
      missing value matches nothing). */
  predicate Matches(s: Row, o: Row, col: string, keys: seq<string>)
    ensures Matches(s, o, col, keys) <==>
      && IsActive(s)
      && (forall i :: 0 <= i < |keys| ==> CellsJoin(Get(s, KeyName(keys[i])), Get(o, KeyName(keys[i]))))
      && Get(s, col) != Null && Get(s, col) == Get(o, OldColumn(col))
  {
    KeyOfJoins(s, o, keys);
    && IsActive(s)
    && KeyOf(s, keys) == KeyOf(o, keys)
    && SqlEq(Get(s, col), Get(o, OldColumn(col)))
  }

  /** How many rows of `t` override `o` joins with. */
  function MatchCount(o: Row, t: seq<Row>, col: string, keys: seq<string>): (n: nat)
    ensures n <= |t|
    ensures n > 0 <==> exists s :: s in t && Matches(s, o, col, keys)
  {
    if t == [] then 0
    else
      var m := |t| - 1;
      assert forall s :: s in t <==> s in t[..m] || s == t[m];
      MatchCount(o, t[..m], col, keys) + (if Matches(t[m], o, col, keys) then 1 else 0)
  }

  function Copies(r: Row, n: nat): (rs: seq<Row>)
    ensures |rs| == n
    ensures forall x :: x in rs <==> n > 0 && x == r
  {
    var rs := seq(n, _ => r);
    assert n > 0 ==> rs[0] == r;
    rs
  }

  /** The join keys are among the copied columns, and none of them is a
      column the INSERT sets itself. */
  predicate KeysCopied(keys: seq<string>, cols: seq<string>, col: string) {
    forall key :: key in keys ==> KeyName(key) in cols && KeyName(key) != col && KeyName(key) != RecordFlag && KeyName(key) != AsAtDate
  }

  /** The row the INSERT ... SELECT adds for override `o`: the override's
      cells for the copied columns, the new value in the editable column,
      flag 'A', and `AS_AT_DATE` the time of the statement. */
  function NewVersion(o: Row, cols: seq<string>, col: string, now: Value): (r: Row)
    ensures Get(r, AsAtDate) == now
    ensures IsActive(r)
    ensures col != RecordFlag && col != AsAtDate ==> Get(r, col) == Get(o, NewColumn(col))
    ensures forall c :: c in cols && c != col && c != RecordFlag && c != AsAtDate ==> Get(r, c) == Get(o, c)
  {
    (map c | c in cols :: Get(o, c))[col := Get(o, NewColumn(col))][RecordFlag := Active][AsAtDate := now]
  }

  /** A new version has exactly the copied columns, the editable column and
      the two bookkeeping columns. */
  lemma NewVersionColumns(o: Row, cols: seq<string>, col: string, now: Value)
    ensures NewVersion(o, cols, col, now).Keys == (set c | c in cols) + {col, RecordFlag, AsAtDate}
  {
  }

  /** A new version has the joining key of the override it comes from. */
  lemma NewVersionKey(o: Row, cols: seq<string>, col: string, keys: seq<string>, now: Value)
    requires KeysCopied(keys, cols, col)
    ensures KeyOf(NewVersion(o, cols, col, now), keys) == KeyOf(o, keys)
  {
    var r := NewVersion(o, cols, col, now);
    forall i | 0 <= i < |keys| ensures KeyOf(r, keys)[i] == KeyOf(o, keys)[i] {
      assert keys[i] in keys;
    }
  }

  /** The rows the INSERT ... SELECT adds: one per joined pair of override
      and source row, taken override by override. */
  function NewVersions(ovs: seq<Row>, t: seq<Row>, cols: seq<string>, col: string, keys: seq<string>, now: Value): (r: seq<Row>)
    ensures |r| == PairCount(ovs, t, col, keys)
    ensures forall x :: x in r ==> IsActive(x) && Get(x, AsAtDate) == now
  {
    if ovs == [] then []
    else
      var n := |ovs| - 1;
      NewVersions(ovs[..n], t, cols, col, keys, now)
      + Copies(NewVersion(ovs[n], cols, col, now), MatchCount(ovs[n], t, col, keys))
  }

  /** A row is added exactly when it is the new version of an override
      that joins with some Active source row. */
  lemma {:induction false} NewVersionsMembers(ovs: seq<Row>, t: seq<Row>, cols: seq<string>, col: string, keys: seq<string>, now: Value)
    ensures forall r :: r in NewVersions(ovs, t, cols, col, keys, now) <==>
      exists o :: o in ovs && r == NewVersion(o, cols, col, now) && exists s :: s in t && Matches(s, o, col, keys)
  {
    if ovs != [] {
      var n := |ovs| - 1;
      NewVersionsMembers(ovs[..n], t, cols, col, keys, now);
      assert forall o :: o in ovs <==> o in ovs[..n] || o == ovs[n];
    }
  }

  /** The number of (override, source row) pairs that satisfy the join. */
  function PairCount(ovs: seq<Row>, t: seq<Row>, col: string, keys: seq<string>): nat {
    if ovs == [] then 0
    else PairCount(ovs[..|ovs| - 1], t, col, keys) + MatchCount(ovs[|ovs| - 1], t, col, keys)
  }

  /** Some override supersedes Active row `s`. */
  predicate Superseded(s: Row, ovs: seq<Row>, col: string, keys: seq<string>) {
    exists o :: o in ovs && Matches(s, o, col, keys)
  }

  /** What the UPDATE ... FROM leaves: every superseded row flagged 'D',
      every other row as it was. */
  function Deprecate(t: seq<Row>, ovs: seq<Row>, col: string, keys: seq<string>): (r: seq<Row>)
    ensures |r| == |t|
    ensures forall i :: 0 <= i < |t| ==> (r[i] != t[i] <==> Superseded(t[i], ovs, col, keys))
    ensures forall i :: 0 <= i < |t| && r[i] != t[i] ==> r[i] == t[i][RecordFlag := Deprecated]
  {
    seq(|t|, i requires 0 <= i < |t| =>
      if Superseded(t[i], ovs, col, keys) then t[i][RecordFlag := Deprecated] else t[i])
  }

  /** The UPDATE changes only Active rows, and in them only the flag, which
      becomes 'D'. */
  lemma DeprecateOnlyFlag(t: seq<Row>, ovs: seq<Row>, col: string, keys: seq<string>)
    ensures var r := Deprecate(t, ovs, col, keys);
      forall i :: 0 <= i < |t| && r[i] != t[i] ==>
        && IsActive(t[i])
        && Get(r[i], RecordFlag) == Deprecated
        && forall c :: c != RecordFlag ==> Get(r[i], c) == Get(t[i], c)
  {
  }

  /** Running the UPDATE a second time changes nothing. */
  lemma DeprecateIdempotent(t: seq<Row>, ovs: seq<Row>, col: string, keys: seq<string>)
    ensures Deprecate(Deprecate(t, ovs, col, keys), ovs, col, keys) == Deprecate(t, ovs, col, keys)
  {
    var r := Deprecate(t, ovs, col, keys);
    forall i | 0 <= i < |r| ensures !Superseded(r[i], ovs, col, keys) {
      if r[i] != t[i] {
        assert !IsActive(r[i]);
      }
    }
  }

  /** The UPDATE works row by row, so it distributes over concatenation. */
  lemma DeprecateAppend(a: seq<Row>, b: seq<Row>, ovs: seq<Row>, col: string, keys: seq<string>)
    ensures Deprecate(a + b, ovs, col, keys) == Deprecate(a, ovs, col, keys) + Deprecate(b, ovs, col, keys)
  {
    var l, r := Deprecate(a + b, ovs, col, keys), Deprecate(a, ovs, col, keys) + Deprecate(b, ovs, col, keys);
    forall i | 0 <= i < |l| ensures l[i] == r[i] {
      if i >= |a| {
        assert (a + b)[i] == b[i - |a|];
      }
    }
  }

  /** The rows of `rows` that `p` accepts, in order. */
  function Select(rows: seq<Row>, p: Row -> bool): (r: seq<Row>)
    ensures |r| <= |rows|
  {
    if rows == [] then []
    else
      var n := |rows| - 1;
      Select(rows[..n], p) + (if p(rows[n]) then [rows[n]] else [])
  }

  lemma {:induction false} SelectMembers(rows: seq<Row>, p: Row -> bool)
    ensures forall x :: x in Select(rows, p) <==> x in rows && p(x)
  {
    if rows != [] {
      var n := |rows| - 1;
      SelectMembers(rows[..n], p);
      assert rows == rows[..n] + [rows[n]];
    }
  }

  lemma {:induction false} SelectNone(rows: seq<Row>, p: Row -> bool)
    requires forall i :: 0 <= i < |rows| ==> !p(rows[i])
    ensures Select(rows, p) == []
  {
    if rows != [] {
      SelectNone(rows[..|rows| - 1], p);
    }
  }

  lemma {:induction false} SelectAppend(a: seq<Row>, b: seq<Row>, p: Row -> bool)
    ensures Select(a + b, p) == Select(a, p) + Select(b, p)
  {
    if b != [] {
      var n := |b| - 1;
      SelectAppend(a, b[..n], p);
      assert (a + b)[..|a + b| - 1] == a + b[..n];
    } else {
      assert a + b == a;
    }
  }

  /** The Active rows of `t` with joining key `k`, in order. */
  function ActiveOf(t: seq<Row>, keys: seq<string>, k: seq<Value>): seq<Row> {
    Select(t, r => IsActive(r) && KeyOf(r, keys) == k)
  }

  lemma ActiveOfAppend(a: seq<Row>, b: seq<Row>, keys: seq<string>, k: seq<Value>)
    ensures ActiveOf(a + b, keys, k) == ActiveOf(a, keys, k) + ActiveOf(b, keys, k)
  {
    SelectAppend(a, b, r => IsActive(r) && KeyOf(r, keys) == k);
  }

  lemma ActiveOfMembers(t: seq<Row>, keys: seq<string>, k: seq<Value>)
    ensures forall x :: x in ActiveOf(t, keys, k) <==> x in t && IsActive(x) && KeyOf(x, keys) == k
  {
    SelectMembers(t, r => IsActive(r) && KeyOf(r, keys) == k);
  }

  /** The rows of `rows` no override supersedes, in order. */
  function Survivors(rows: seq<Row>, ovs: seq<Row>, col: string, keys: seq<string>): seq<Row> {
    Select(rows, r => !Superseded(r, ovs, col, keys))
  }

  /** The overrides of key `k` whose old value is `v`. */
  function Superseding(ovs: seq<Row>, col: string, keys: seq<string>, k: seq<Value>, v: Value): seq<Row> {
    Select(ovs, o => KeyOf(o, keys) == k && SqlEq(v, Get(o, OldColumn(col))))
  }

  /** After the UPDATE, the Active rows of a key are the ones that were
      Active before and that no override supersedes. */
  lemma {:induction false} ActiveAfterDeprecate(t: seq<Row>, ovs: seq<Row>, col: string, keys: seq<string>, k: seq<Value>)
    ensures ActiveOf(Deprecate(t, ovs, col, keys), keys, k) == Survivors(ActiveOf(t, keys, k), ovs, col, keys)
  {
    if t != [] {
      var n := |t| - 1;
      var init, last := t[..n], [t[n]];
      assert t == init + last;
      ActiveAfterDeprecate(init, ovs, col, keys, k);
      DeprecateAppend(init, last, ovs, col, keys);
      ActiveOfAppend(Deprecate(init, ovs, col, keys), Deprecate(last, ovs, col, keys), keys, k);
      ActiveOfAppend(init, last, keys, k);
      SelectAppend(ActiveOf(init, keys, k), ActiveOf(last, keys, k), r => !Superseded(r, ovs, col, keys));
      ActiveAfterDeprecateRow(t[n], ovs, col, keys, k);
    }
  }

  /** The same for a single row. */
  lemma ActiveAfterDeprecateRow(x: Row, ovs: seq<Row>, col: string, keys: seq<string>, k: seq<Value>)
    ensures ActiveOf(Deprecate([x], ovs, col, keys), keys, k) == Survivors(ActiveOf([x], keys, k), ovs, col, keys)
  {
    var d := Deprecate([x], ovs, col, keys);
    var y := d[0];
    assert d == [y];
    SelectOne(y, r => IsActive(r) && KeyOf(r, keys) == k);
    SelectOne(x, r => IsActive(r) && KeyOf(r, keys) == k);
    if IsActive(x) && KeyOf(x, keys) == k {
      SelectOne(x, r => !Superseded(r, ovs, col, keys));
    }
    if Superseded(x, ovs, col, keys) {
      assert y == x[RecordFlag := Deprecated];
      assert !IsActive(y);
    } else {
      assert y == x;
    }
  }

  lemma SelectOne(y: Row, p: Row -> bool)
    ensures Select([y], p) == if p(y) then [y] else []
  {
    assert [y][..0] == [];
  }

  /** An Active row is superseded exactly when some override of its key
      has its value as old value. */
  lemma SupersededIff(s: Row, ovs: seq<Row>, col: string, keys: seq<string>)
    requires IsActive(s)
    ensures Superseded(s, ovs, col, keys) <==> Superseding(ovs, col, keys, KeyOf(s, keys), Get(s, col)) != []
  {
    var sup := Superseding(ovs, col, keys, KeyOf(s, keys), Get(s, col));
    SelectMembers(ovs, o => KeyOf(o, keys) == KeyOf(s, keys) && SqlEq(Get(s, col), Get(o, OldColumn(col))));
    if sup != [] {
      assert sup[0] in sup;
      assert Matches(s, sup[0], col, keys);
    }
    if Superseded(s, ovs, col, keys) {
      var o :| o in ovs && Matches(s, o, col, keys);
      assert o in sup;
    }
  }

  /** The new versions of a list of overrides, one each. */
  function Versions(ovs: seq<Row>, cols: seq<string>, col: string, now: Value): (r: seq<Row>)
    ensures |r| == |ovs|
  {
    seq(|ovs|, i requires 0 <= i < |ovs| => NewVersion(ovs[i], cols, col, now))
  }

  /** An override joins only the Active rows of its own key. */
  lemma {:induction false} MatchCountOneActive(o: Row, t: seq<Row>, col: string, keys: seq<string>, s: Row)
    requires ActiveOf(t, keys, KeyOf(o, keys)) == [s]
    ensures MatchCount(o, t, col, keys) == if SqlEq(Get(s, col), Get(o, OldColumn(col))) then 1 else 0
  {
    MatchCountActive(o, t, col, keys);
    SelectMembers(t, r => IsActive(r) && KeyOf(r, keys) == KeyOf(o, keys));
    assert s in ActiveOf(t, keys, KeyOf(o, keys));
    assert [s][..0] == [];
  }

  lemma {:induction false} MatchCountActive(o: Row, t: seq<Row>, col: string, keys: seq<string>)
    ensures MatchCount(o, t, col, keys) == MatchCount(o, ActiveOf(t, keys, KeyOf(o, keys)), col, keys)
  {
    if t != [] {
      var n := |t| - 1;
      MatchCountActive(o, t[..n], col, keys);
      var k := KeyOf(o, keys);
      var prev := ActiveOf(t[..n], keys, k);
      assert ActiveOf(t, keys, k) == prev + (if IsActive(t[n]) && KeyOf(t[n], keys) == k then [t[n]] else []);
      assert MatchCount(o, t, col, keys) == MatchCount(o, t[..n], col, keys) + (if Matches(t[n], o, col, keys) then 1 else 0);
      if IsActive(t[n]) && KeyOf(t[n], keys) == k {
        var a := prev + [t[n]];
        assert a[..|a| - 1] == prev && a[|a| - 1] == t[n];
        assert MatchCount(o, a, col, keys) == MatchCount(o, prev, col, keys) + (if Matches(t[n], o, col, keys) then 1 else 0);
      } else {
        assert !Matches(t[n], o, col, keys);
        assert prev + [] == prev;
      }
    }
  }

  /** When key `k` has the single Active row `s`, the Active rows the
      INSERT adds for `k` are the new versions of the overrides of `k`
      whose old value is the value of `s`. */
  lemma {:induction false} ActiveNewVersions(ovs: seq<Row>, t: seq<Row>, cols: seq<string>, col: string, keys: seq<string>, now: Value, k: seq<Value>, s: Row)
    requires KeysCopied(keys, cols, col)
    requires ActiveOf(t, keys, k) == [s]
    ensures ActiveOf(NewVersions(ovs, t, cols, col, keys, now), keys, k) == Versions(Superseding(ovs, col, keys, k, Get(s, col)), cols, col, now)
  {
    if ovs != [] {
      var n := |ovs| - 1;
      var o := ovs[n];
      var v := Get(s, col);
      var nv := NewVersion(o, cols, col, now);
      var before := NewVersions(ovs[..n], t, cols, col, keys, now);
      var copies := Copies(nv, MatchCount(o, t, col, keys));
      assert NewVersions(ovs, t, cols, col, keys, now) == before + copies;
      ActiveNewVersions(ovs[..n], t, cols, col, keys, now, k, s);
      ActiveOfAppend(before, copies, keys, k);
      ActiveCopies(o, t, cols, col, keys, now, k, s);
      var prev := Superseding(ovs[..n], col, keys, k, v);
      var hit := KeyOf(o, keys) == k && SqlEq(v, Get(o, OldColumn(col)));
      assert Superseding(ovs, col, keys, k, v) == prev + (if hit then [o] else []);
      VersionsSnoc(prev, o, hit, cols, col, now);
    }
  }

  lemma VersionsSnoc(prev: seq<Row>, o: Row, hit: bool, cols: seq<string>, col: string, now: Value)
    ensures Versions(prev + (if hit then [o] else []), cols, col, now)
      == Versions(prev, cols, col, now) + (if hit then [NewVersion(o, cols, col, now)] else [])
  {
    if !hit {
      assert prev + [] == prev;
    }
  }

  /** The Active rows of key `k` among the copies added for override `o`:
      one, when `o` has key `k` and joins the single Active row `s`. */
  lemma ActiveCopies(o: Row, t: seq<Row>, cols: seq<string>, col: string, keys: seq<string>, now: Value, k: seq<Value>, s: Row)
    requires KeysCopied(keys, cols, col)
    requires ActiveOf(t, keys, k) == [s]
    ensures var nv := NewVersion(o, cols, col, now);
      ActiveOf(Copies(nv, MatchCount(o, t, col, keys)), keys, k) ==
        if KeyOf(o, keys) == k && SqlEq(Get(s, col), Get(o, OldColumn(col))) then [nv] else []
  {
    var nv := NewVersion(o, cols, col, now);
    var m := MatchCount(o, t, col, keys);
    NewVersionKey(o, cols, col, keys, now);
    if KeyOf(o, keys) == k {
      MatchCountOneActive(o, t, col, keys, s);
      if SqlEq(Get(s, col), Get(o, OldColumn(col))) {
        assert Copies(nv, m) == [nv];
        assert ActiveOf([nv], keys, k) == [nv] by {
          assert [nv][..0] == [];
        }
      } else {
        assert Copies(nv, m) == [];
      }
    } else {
      SelectNone(Copies(nv, m), r => IsActive(r) && KeyOf(r, keys) == k);
    }
  }

  /** The combined effect of the two statements on one key.  When key `k`
      has one Active row `s`, and exactly one recorded override `o` of `k`
      has the value of `s` as its old value, then afterwards `k` has one
      Active row, the new version of `o`, unless some override of `k` has
      the new value as its old value, in which case `k` has no Active row
      at all. */
  lemma SubmitFlipsActiveRow(t: seq<Row>, ovs: seq<Row>, cols: seq<string>, col: string, keys: seq<string>, now: Value, k: seq<Value>, s: Row, o: Row)
    requires KeysCopied(keys, cols, col) && col != RecordFlag && col != AsAtDate
    requires ActiveOf(t, keys, k) == [s]
    requires Superseding(ovs, col, keys, k, Get(s, col)) == [o]
    ensures var after := Deprecate(t + NewVersions(ovs, t, cols, col, keys, now), ovs, col, keys);
      ActiveOf(after, keys, k) ==
        if Superseding(ovs, col, keys, k, Get(o, NewColumn(col))) == [] then [NewVersion(o, cols, col, now)] else []
  {
    var nvs := NewVersions(ovs, t, cols, col, keys, now);
    DeprecateAppend(t, nvs, ovs, col, keys);
    ActiveOfAppend(Deprecate(t, ovs, col, keys), Deprecate(nvs, ovs, col, keys), keys, k);
    OldRowRetired(t, ovs, col, keys, k, s, o);
    NewVersionOutcome(t, ovs, cols, col, keys, now, k, s, o);
  }

  /** The old Active row of the key is superseded, so the UPDATE retires it. */
  lemma OldRowRetired(t: seq<Row>, ovs: seq<Row>, col: string, keys: seq<string>, k: seq<Value>, s: Row, o: Row)
    requires ActiveOf(t, keys, k) == [s]
    requires Superseding(ovs, col, keys, k, Get(s, col)) == [o]
    ensures ActiveOf(Deprecate(t, ovs, col, keys), keys, k) == []
  {
    ActiveAfterDeprecate(t, ovs, col, keys, k);
    ActiveOfMembers(t, keys, k);
    assert s in ActiveOf(t, keys, k);
    SupersededIff(s, ovs, col, keys);
    assert Survivors([s], ovs, col, keys) == [] by {
      assert [s][..0] == [];
    }
  }

  /** The only new Active version of the key is that of `o`, and the UPDATE
      retires it exactly when some override of the key has its new value
      as old value. */
  lemma NewVersionOutcome(t: seq<Row>, ovs: seq<Row>, cols: seq<string>, col: string, keys: seq<string>, now: Value, k: seq<Value>, s: Row, o: Row)
    requires KeysCopied(keys, cols, col) && col != RecordFlag && col != AsAtDate
    requires ActiveOf(t, keys, k) == [s]
    requires Superseding(ovs, col, keys, k, Get(s, col)) == [o]
    ensures ActiveOf(Deprecate(NewVersions(ovs, t, cols, col, keys, now), ovs, col, keys), keys, k) ==
      if Superseding(ovs, col, keys, k, Get(o, NewColumn(col))) == [] then [NewVersion(o, cols, col, now)] else []
  {
    var nvs := NewVersions(ovs, t, cols, col, keys, now);
    var nv := NewVersion(o, cols, col, now);
    ActiveAfterDeprecate(nvs, ovs, col, keys, k);
    ActiveNewVersions(ovs, t, cols, col, keys, now, k, s);
    assert Versions([o], cols, col, now) == [nv];
    SelectMembers(ovs, x => KeyOf(x, keys) == k && SqlEq(Get(s, col), Get(x, OldColumn(col))));
    assert o in Superseding(ovs, col, keys, k, Get(s, col));
    NewVersionKey(o, cols, col, keys, now);
    SupersededIff(nv, ovs, col, keys);
    assert Survivors([nv], ovs, col, keys) == Survivors([], ovs, col, keys) + (if Superseded(nv, ovs, col, keys) then [] else [nv]) by {
      assert [nv][..0] == [];
    }
  }

  /** A table no override supersedes is left as it is by both statements. */
  lemma {:induction false} SettledIsFixpoint(t: seq<Row>, ovs: seq<Row>, cols: seq<string>, col: string, keys: seq<string>, now: Value)
    requires forall s :: s in t ==> !Superseded(s, ovs, col, keys)
    ensures NewVersions(ovs, t, cols, col, keys, now) == []
    ensures Deprecate(t, ovs, col, keys) == t
  {
    if ovs != [] {
      var n := |ovs| - 1;
      SettledIsFixpoint(t, ovs[..n], cols, col, keys, now);
      assert ovs[n] in ovs;
      assert MatchCount(ovs[n], t, col, keys) == 0;
    }
    var d := Deprecate(t, ovs, col, keys);
    assert forall i :: 0 <= i < |t| ==> t[i] in t;
  }

  /** After a revert the key has no Active row: when the single Active row
      of `k` is superseded only by override `o2`, and an earlier override
      `o1` of `k` has the value `o2` restores as its old value, both the old
      row and the new version of `o2` are flagged Deprecated. */
  lemma RevertLeavesNoActiveRow(t: seq<Row>, ovs: seq<Row>, cols: seq<string>, col: string, keys: seq<string>, now: Value, k: seq<Value>, s: Row, o1: Row, o2: Row)
    requires KeysCopied(keys, cols, col) && col != RecordFlag && col != AsAtDate
    requires ActiveOf(t, keys, k) == [s]
    requires Superseding(ovs, col, keys, k, Get(s, col)) == [o2]
    requires o1 in ovs && KeyOf(o1, keys) == k
    requires Get(o2, NewColumn(col)) != Null && Get(o1, OldColumn(col)) == Get(o2, NewColumn(col))
    ensures ActiveOf(Deprecate(t + NewVersions(ovs, t, cols, col, keys, now), ovs, col, keys), keys, k) == []
  {
    SubmitFlipsActiveRow(t, ovs, cols, col, keys, now, k, s, o2);
    var w := Get(o2, NewColumn(col));
    SelectMembers(ovs, x => KeyOf(x, keys) == k && SqlEq(w, Get(x, OldColumn(col))));
    assert o1 in Superseding(ovs, col, keys, k, w);
  }

  /** How one of the two statements ended: it ran, it was not sent because
      the source table has no column to copy, or the database refused it
      (a name that does not resolve, a column listed twice). */
  datatype Statement = Applied | NoCommonColumns | Failed

  /** A source table after a statement, and how the statement ended. */
  datatype Step = Step(table: seq<Row>, outcome: Statement)

  /** Every name the INSERT ... SELECT uses resolves and its column list
      names no column twice. */
  predicate InsertResolves(sourceSchema: seq<string>, overrideSchema: seq<string>, col: string, keys: seq<string>) {
    var cols := SourceInsertColumns(sourceSchema, col);
    && (forall c :: c in cols ==> c in overrideSchema)
    && NewColumn(col) in overrideSchema && OldColumn(col) in overrideSchema
    && col in sourceSchema && RecordFlag in sourceSchema && AsAtDate in sourceSchema
    && KeysIn(keys, sourceSchema) && KeysIn(keys, overrideSchema)
    && NoDups(cols + [col, RecordFlag, AsAtDate])
  }

  /** `insert_into_source_table`: add the new versions, unless the source
      table has no column to copy or the statement does not resolve. */
  function InsertStep(source: seq<Row>, overrides: seq<Row>, sourceSchema: seq<string>, overrideSchema: seq<string>, col: string, keys: seq<string>, now: Value): (r: Step)
    ensures r.outcome == NoCommonColumns <==> SourceInsertColumns(sourceSchema, col) == []
    ensures r.outcome == Applied <==> SourceInsertColumns(sourceSchema, col) != [] && InsertResolves(sourceSchema, overrideSchema, col, keys)
    ensures r.outcome != Applied ==> r.table == source
    ensures r.outcome == Applied ==> r.table == source + NewVersions(overrides, source, SourceInsertColumns(sourceSchema, col), col, keys, now)
    ensures |r.table| >= |source| && r.table[..|source|] == source
  {
    var cols := SourceInsertColumns(sourceSchema, col);
    if cols == [] then Step(source, NoCommonColumns)
    else if !InsertResolves(sourceSchema, overrideSchema, col, keys) then Step(source, Failed)
    else
      var table := source + NewVersions(overrides, source, cols, col, keys, now);
      assert table[..|source|] == source;
      Step(table, Applied)
  }

  /** Every name the UPDATE ... FROM uses resolves. */
  predicate UpdateResolves(sourceSchema: seq<string>, overrideSchema: seq<string>, col: string, keys: seq<string>) {
    && col in sourceSchema && RecordFlag in sourceSchema && OldColumn(col) in overrideSchema
    && KeysIn(keys, sourceSchema) && KeysIn(keys, overrideSchema)
  }

  /** `update_old_record`: flag the superseded rows, unless the statement
      does not resolve. */
  function DeprecateStep(source: seq<Row>, overrides: seq<Row>, sourceSchema: seq<string>, overrideSchema: seq<string>, col: string, keys: seq<string>): (r: Step)
    ensures r.outcome == Applied <==> UpdateResolves(sourceSchema, overrideSchema, col, keys)
    ensures r.outcome != NoCommonColumns
    ensures |r.table| == |source|
    ensures r.outcome == Failed ==> r.table == source
    ensures r.outcome == Applied ==> r.table == Deprecate(source, overrides, col, keys)
  {
    if UpdateResolves(sourceSchema, overrideSchema, col, keys) then Step(Deprecate(source, overrides, col, keys), Applied)
    else Step(source, Failed)
  }

  /** With a well-formed configuration the key columns are copied by the
      INSERT ... SELECT, so the flip of `SubmitFlipsActiveRow` applies. */
  lemma ResolvedKeysCopied(sourceSchema: seq<string>, overrideSchema: seq<string>, col: string, keys: seq<string>)
    requires InsertResolves(sourceSchema, overrideSchema, col, keys)
    requires forall key :: key in keys ==> KeyName(key) != col && KeyName(key) != RecordFlag && KeyName(key) != AsAtDate
    ensures KeysCopied(keys, SourceInsertColumns(sourceSchema, col), col)
    ensures col != RecordFlag && col != AsAtDate
  {
    var cols := SourceInsertColumns(sourceSchema, col);
    var l := cols + [col, RecordFlag, AsAtDate];
    assert l[|cols|] == col && l[|cols| + 1] == RecordFlag && l[|cols| + 2] == AsAtDate;
  }

  /** The flip of `SubmitFlipsActiveRow` as the handler runs it: the
      INSERT ... SELECT and then the UPDATE ... FROM, each applied to the
      table the previous statement left.  With a well-formed configuration
      both statements apply, and the key's Active row is the new version
      of its override, or there is none when the history clashes. */
  lemma StepsFlipActiveRow(t: seq<Row>, ovs: seq<Row>, sourceSchema: seq<string>, overrideSchema: seq<string>, col: string, keys: seq<string>, now: Value, k: seq<Value>, s: Row, o: Row)
    requires SourceInsertColumns(sourceSchema, col) != [] && InsertResolves(sourceSchema, overrideSchema, col, keys)
    requires forall key :: key in keys ==> KeyName(key) != col && KeyName(key) != RecordFlag && KeyName(key) != AsAtDate
    requires ActiveOf(t, keys, k) == [s]
    requires Superseding(ovs, col, keys, k, Get(s, col)) == [o]
    ensures var ins := InsertStep(t, ovs, sourceSchema, overrideSchema, col, keys, now);
      var dep := DeprecateStep(ins.table, ovs, sourceSchema, overrideSchema, col, keys);
      && ins.outcome == Applied && dep.outcome == Applied
      && ActiveOf(dep.table, keys, k) ==
           if Superseding(ovs, col, keys, k, Get(o, NewColumn(col))) == [] then [NewVersion(o, SourceInsertColumns(sourceSchema, col), col, now)] else []
  {
    var cols := SourceInsertColumns(sourceSchema, col);
    ResolvedKeysCopied(sourceSchema, overrideSchema, col, keys);
    assert UpdateResolves(sourceSchema, overrideSchema, col, keys);
    SubmitFlipsActiveRow(t, ovs, cols, col, keys, now, k, s, o);
  }

  /** The column names the joining keys read as. */
  function KeyNames(keys: seq<string>): (names: seq<string>)
    ensures |names| == |keys|
  {
    seq(|keys|, i requires 0 <= i < |keys| => KeyName(keys[i]))
  }

  /** Every key names a column of the table. */
  predicate KeysIn(keys: seq<string>, schema: seq<string>) {
    forall key :: key in keys ==> KeyName(key) in schema
  }

  /** Keys with white space around them behave exactly as the names they
      read as: both statements resolve with them exactly when they resolve
      with the bare names, and they join the same rows. */
  lemma KeysReadStripped(sourceSchema: seq<string>, overrideSchema: seq<string>, col: string, keys: seq<string>)
    ensures InsertResolves(sourceSchema, overrideSchema, col, keys) <==> InsertResolves(sourceSchema, overrideSchema, col, KeyNames(keys))
    ensures UpdateResolves(sourceSchema, overrideSchema, col, keys) <==> UpdateResolves(sourceSchema, overrideSchema, col, KeyNames(keys))
    ensures forall r :: KeyOf(r, keys) == KeyOf(r, KeyNames(keys))
  {
    var names := KeyNames(keys);
    KeyNamesSettled(keys);
    KeysInStripped(keys, sourceSchema);
    KeysInStripped(keys, overrideSchema);
    forall r ensures KeyOf(r, keys) == KeyOf(r, names) {
      assert forall i :: 0 <= i < |keys| ==> KeyOf(r, keys)[i] == KeyOf(r, names)[i];
    }
  }

  /** A key name reads as itself. */
  lemma KeyNamesSettled(keys: seq<string>)
    ensures forall i :: 0 <= i < |keys| ==> KeyName(KeyNames(keys)[i]) == KeyNames(keys)[i]
  {
    forall i | 0 <= i < |keys| ensures KeyName(KeyNames(keys)[i]) == KeyNames(keys)[i] {
      StripTrimmed(Strip(keys[i]));
    }
  }

  lemma KeysInStripped(keys: seq<string>, schema: seq<string>)
    ensures KeysIn(keys, schema) <==> KeysIn(KeyNames(keys), schema)
  {
    var names := KeyNames(keys);
    KeyNamesSettled(keys);
    if KeysIn(keys, schema) {
      forall name | name in names ensures KeyName(name) in schema {
        var i :| 0 <= i < |names| && names[i] == name;
        assert keys[i] in keys;
      }
    }
    if KeysIn(names, schema) {
      forall key | key in keys ensures KeyName(key) in schema {
        var i :| 0 <= i < |keys| && keys[i] == key;
        assert names[i] in names;
      }
    }
  }

  /** The keys `" id , desk "` is normalised to read as ID and DESK. */
  lemma ConfiguredKeysRead()
    ensures KeyNames(["ID ", " DESK"]) == ["ID", "DESK"]
  {
    TrailingSpaceRead();
    LeadingSpaceRead();
    var names := KeyNames(["ID ", " DESK"]);
    assert names[0] == "ID" && names[1] == "DESK";
  }

  lemma TrailingSpaceRead()
    ensures KeyName("ID ") == "ID"
  {
    var a := "ID ";
    assert LeadingSpaces(a) == 0;
    assert LStrip(a) == a;
    assert a[..|a| - 1] == "ID";
    assert TrailingSpaces("ID") == 0;
    assert TrailingSpaces(a) == 1;
  }

  lemma LeadingSpaceRead()
    ensures KeyName(" DESK") == "DESK"
  {
    var b := " DESK";
    assert b[1..] == "DESK";
    assert LeadingSpaces("DESK") == 0;
    assert LeadingSpaces(b) == 1;
    assert TrailingSpaces("DESK") == 0;
    assert RStrip("DESK") == "DESK";
  }
}
