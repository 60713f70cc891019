/** What the statements of storage.go do to the rows of a table, over an
    abstract store: a map from table name to the table's rows in storage
    order.  Each write runs in a transaction that either commits its
    whole effect or, on a driver error, leaves the store as it was. */
module Store {
  import opened GoLang
  import opened Codec
  import opened Catalog
  import opened Rows
  import opened Queries

  type Tables = map<string, seq<Row>>

  function NoSuchTable(tbl: string): string
  {
    "no such table: " + tbl
  }

  /** The error SQLite gives a statement the builders left malformed: an
      empty column list or `SET` clause, or an empty column name.  An empty
      first name followed by more names instead leaves one column fewer than
      values, which SQLite rejects with a value-count message; the model
      reports that case with this error too, and the store is unchanged
      either way. */
  const SyntaxError := "syntax error"

  /** The row filters of the statements modelled here. */
  datatype Criterion =
    | KeyEquals(key: string, value: string)               // key=$1
    | ExpiredFor(key: string, value: string, now: Int32)  // endtime>0 AND endtime<$1 AND key=$2
    | StaleBefore(cutoff: Int32)                          // `when`>0 AND `when`<cutoff

  /** `0 < row[col] < hi` for an integer column; a missing (NULL) column
      compares false. */
  predicate IntBetween(row: Row, col: string, hi: int)
  {
    col in row && row[col].Int? && 0 < row[col].n as int < hi
  }

  predicate Matches(c: Criterion, row: Row)
  {
    match c
    case KeyEquals(k, v) => k in row && row[k] == Str(v)
    case ExpiredFor(k, v, now) => IntBetween(row, "endtime", now as int) && k in row && row[k] == Str(v)
    case StaleBefore(cutoff) => IntBetween(row, "when", cutoff as int)
  }

  /** The rows a `select` with filter `c` returns, in storage order. */
  function Selected(rows: seq<Row>, c: Criterion): (sel: seq<Row>)
    ensures |sel| <= |rows|
    decreases |rows|
  {
    if |rows| == 0 then []
    else
      var init := Selected(rows[..|rows| - 1], c);
      if Matches(c, rows[|rows| - 1]) then init + [rows[|rows| - 1]] else init
  }

  /** The rows a `delete` with filter `c` leaves, in storage order. */
  function Kept(rows: seq<Row>, c: Criterion): (kept: seq<Row>)
    decreases |rows|
  {
    if |rows| == 0 then []
    else
      var init := Kept(rows[..|rows| - 1], c);
      if Matches(c, rows[|rows| - 1]) then init else init + [rows[|rows| - 1]]
  }

  /** `count(*)` with filter `c`. */
  function Hits(rows: seq<Row>, c: Criterion): nat
  {
    |Selected(rows, c)|
  }

  /** A delete splits the table: the kept rows are exactly the rows that do
      not match, the removed ones exactly those that do, and together they
      are the table. */
  lemma {:induction false} DeletePartitions(rows: seq<Row>, c: Criterion)
    ensures multiset(Kept(rows, c)) + multiset(Selected(rows, c)) == multiset(rows)
    ensures forall r :: r in Kept(rows, c) <==> r in rows && !Matches(c, r)
    ensures forall r :: r in Selected(rows, c) <==> r in rows && Matches(c, r)
    decreases |rows|
  {
    if |rows| > 0 {
      var init, last := rows[..|rows| - 1], rows[|rows| - 1];
      DeletePartitions(init, c);
      assert rows == init + [last];
    }
  }

  /** A second identical delete finds nothing and changes nothing. */
  lemma {:induction false} DeleteIdempotent(rows: seq<Row>, c: Criterion)
    ensures Kept(Kept(rows, c), c) == Kept(rows, c)
    ensures Selected(Kept(rows, c), c) == []
    decreases |rows|
  {
    if |rows| > 0 {
      var init, last := rows[..|rows| - 1], rows[|rows| - 1];
      DeleteIdempotent(init, c);
      if !Matches(c, last) {
        var k := Kept(init, c) + [last];
        assert k[..|k| - 1] == Kept(init, c);
      }
    }
  }

  /** `row` with the columns of `fields` set to NULL (NULL columns are not
      part of a decoded document). */
  function Nulled(row: Row, fields: seq<string>): (r: Row)
  {
    row - (set f | f in fields)
  }

  /** The rows after `update ... SET f1=null,... WHERE c`. */
  function Cleaned(rows: seq<Row>, c: Criterion, fields: seq<string>): (out: seq<Row>)
    ensures |out| == |rows|
  {
    seq(|rows|, i requires 0 <= i < |rows| =>
      if Matches(c, rows[i]) then Nulled(rows[i], fields) else rows[i])
  }

  /** The cleanup nulls the listed fields of the matching rows, keeps all of
      their other fields and leaves every other row as it was; running it
      twice is running it once. */
  lemma CleanupNullsOnlyListed(rows: seq<Row>, key: string, value: string, fields: seq<string>, i: nat)
    requires i < |rows|
    ensures var out := Cleaned(rows, KeyEquals(key, value), fields);
      && (Matches(KeyEquals(key, value), rows[i]) ==>
           (forall f :: f in out[i] <==> f in rows[i] && f !in fields)
           && (forall f :: f in out[i] ==> out[i][f] == rows[i][f]))
      && (!Matches(KeyEquals(key, value), rows[i]) ==> out[i] == rows[i])
      && Cleaned(out, KeyEquals(key, value), fields) == out
  {
    var c := KeyEquals(key, value);
    var out := Cleaned(rows, c, fields);
    forall j | 0 <= j < |rows|
      ensures Cleaned(out, c, fields)[j] == out[j]
    {
      if Matches(c, rows[j]) {
        assert Nulled(out[j], fields) == out[j];
      }
    }
  }

  /** The document CreateRecordInTable inserts: its pairs, a later pair of
      the same name overriding an earlier one. */
  function RowOf(ps: Pairs<Value>): (row: Row)
    decreases |ps|
  {
    if |ps| == 0 then map[]
    else RowOf(ps[..|ps| - 1])[ps[|ps| - 1].0 := ps[|ps| - 1].1]
  }

  lemma {:induction false} RowOfFields(ps: Pairs<Value>, k: string)
    ensures k in RowOf(ps) <==> exists i :: 0 <= i < |ps| && ps[i].0 == k
    decreases |ps|
  {
    if |ps| > 0 {
      var init := ps[..|ps| - 1];
      RowOfFields(init, k);
      if k in RowOf(init) {
        var i :| 0 <= i < |init| && init[i].0 == k;
        assert ps[i].0 == k;
      }
      if exists i :: 0 <= i < |ps| && ps[i].0 == k {
        var i :| 0 <= i < |ps| && ps[i].0 == k;
        if i < |init| {
          assert init[i].0 == k;
        }
      }
    }
  }

  /** A document's pair that no later pair of the same name overrides is
      in the inserted row with its own value. */
  lemma {:induction false} RowOfValues(ps: Pairs<Value>, i: nat)
    requires i < |ps|
    requires forall b :: i < b < |ps| ==> ps[b].0 != ps[i].0
    ensures ps[i].0 in RowOf(ps) && RowOf(ps)[ps[i].0] == ps[i].1
    decreases |ps|
  {
    if i < |ps| - 1 {
      var init := ps[..|ps| - 1];
      RowOfValues(init, i);
    }
  }

  // ---------------------------------------------------------------------
  // the effect of each statement on the store

  /** A `delete ... WHERE c` on `tbl`, or the error that leaves the store as it was. */
  function DeleteEffect(ts: Tables, tbl: string, c: Criterion, fault: Option<string>): (Tables, Result<int>)
  {
    if fault.Some? then (ts, Err(fault.value))
    else if tbl !in ts then (ts, Err(NoSuchTable(tbl)))
    else (ts[tbl := Kept(ts[tbl], c)], Ok(Hits(ts[tbl], c)))
  }

  /** An `insert` of the document `ps` into `tbl`. */
  function InsertEffect(ts: Tables, tbl: string, ps: Pairs<Value>, fault: Option<string>): (Tables, Result<int>)
  {
    if fault.Some? then (ts, Err(fault.value))
    else if |ps| == 0 || !NonEmptyKeys(ps) then (ts, Err(SyntaxError))
    else if tbl !in ts then (ts, Err(NoSuchTable(tbl)))
    else (ts[tbl := ts[tbl] + [RowOf(ps)]], Ok(1))
  }

  /** An `update ... SET` nulling the fields of `ps` where `c` holds. */
  function CleanupEffect(ts: Tables, tbl: string, c: Criterion, ps: Pairs<Value>, fault: Option<string>): (Tables, Result<int>)
  {
    if fault.Some? then (ts, Err(fault.value))
    else if |ps| == 0 || !NonEmptyKeys(ps) then (ts, Err(SyntaxError))
    else if tbl !in ts then (ts, Err(NoSuchTable(tbl)))
    else (ts[tbl := Cleaned(ts[tbl], c, KeysOf(ps))], Ok(Hits(ts[tbl], c)))
  }

  function KeysOf<V>(ps: Pairs<V>): (keys: seq<string>)
    ensures |keys| == |ps|
    ensures forall i :: 0 <= i < |ps| ==> keys[i] == ps[i].0
  {
    seq(|ps|, i requires 0 <= i < |ps| => ps[i].0)
  }

  /** The `SET` clause decodeForCleanup builds names, term by term, exactly
      the fields the cleanup nulls, each set to null. */
  lemma CleanupClauseNamesKeys<V>(ps: Pairs<V>)
    requires |ps| >= 1 && NoCommaKeys(ps)
    ensures var items := Split(Join(NullTerms(ps), ","), ',');
      && |items| == |KeysOf(ps)|
      && forall i :: 0 <= i < |ps| ==> items[i] == EscapeName(KeysOf(ps)[i]) + "=null"
  {
    var terms := NullTerms(ps);
    forall i | 0 <= i < |terms|
      ensures ',' !in terms[i]
    {
      assert terms[i] == EscapeName(ps[i].0) + "=null";
    }
    SplitJoin(terms, ',');
  }

  /** The cut-off of DeleteExpired0: `now-expt` in int32 arithmetic, `now`
      itself being the clock narrowed to int32. */
  function StaleCutoff(now: int, expt: Int32): (cutoff: Int32)
    ensures -0x8000_0000 <= Narrow32(now) as int - expt as int < 0x8000_0000 ==>
      cutoff as int == Narrow32(now) as int - expt as int
  {
    Narrow32(Narrow32(now) as int - expt as int)
  }

  /** A delete changes no other table, and a failed statement changes nothing. */
  lemma DeleteTouchesOneTable(ts: Tables, tbl: string, c: Criterion, fault: Option<string>, other: string)
    requires other != tbl && other in ts
    ensures var (after, r) := DeleteEffect(ts, tbl, c, fault);
      other in after && after[other] == ts[other] && (r.Err? ==> after == ts)
  {
  }

  /** DeleteExpired removes exactly the rows of the key whose `endtime` is
      set and already past; rows without an end time stay forever. */
  lemma DeleteExpiredExactly(rows: seq<Row>, key: string, value: string, now: Int32, r: Row)
    requires r in rows
    ensures r !in Kept(rows, ExpiredFor(key, value, now)) <==>
      ("endtime" in r && r["endtime"].Int? && 0 < r["endtime"].n < now && key in r && r[key] == Str(value))
    ensures "endtime" in r && r["endtime"] == Int(0) ==> r in Kept(rows, ExpiredFor(key, value, now))
  {
    DeletePartitions(rows, ExpiredFor(key, value, now));
  }

  /** Once the clock passes 2^31 seconds, the int32 `now` is negative and
      DeleteExpired removes nothing. */
  lemma {:induction false} ExpirySweepStopsIn2038(rows: seq<Row>, key: string, value: string, now: int)
    requires 0x8000_0000 <= now < 0x1_0000_0000
    ensures Kept(rows, ExpiredFor(key, value, Narrow32(now))) == rows
    decreases |rows|
  {
    if |rows| > 0 {
      var init := rows[..|rows| - 1];
      ExpirySweepStopsIn2038(init, key, value, now);
      assert Narrow32(now) < 0;
      assert init + [rows[|rows| - 1]] == rows;
    }
  }

  /** The store the statements run against. */
  class Store {
    var tables: Tables

    constructor (init: Tables)
      ensures tables == init
    {
      tables := init;
    }

    /** CreateRecord: the insert CreateRecordInTable builds, run on the
        table `t` names. */
    method CreateRecord(t: int, data: Input<Value>, fault: Option<string>) returns (r: Result<int>)
      modifies this
      ensures (tables, r) == InsertEffect(old(tables), GetTable(t), FieldPairs(data), fault)
    {
      var tbl := GetTable(t);
      var q, values := InsertQuery(tbl, data);
      var ps := FieldPairs(data);
      if fault.Some? {
        return Err(fault.value);
      }
      if |ps| == 0 || !NonEmptyKeys(ps) {
        return Err(SyntaxError);
      }
      if tbl !in tables {
        return Err(NoSuchTable(tbl));
      }
      tables := tables[tbl := tables[tbl] + [RowOf(ps)]];
      r := Ok(1);
    }

    method DeleteRecord(t: int, keyName: string, keyValue: string, fault: Option<string>)
      returns (r: Result<int>)
      modifies this
      ensures (tables, r) == DeleteEffect(old(tables), GetTable(t), KeyEquals(keyName, keyValue), fault)
    {
      var effect := DeleteEffect(tables, GetTable(t), KeyEquals(keyName, keyValue), fault);
      tables, r := effect.0, effect.1;
    }

    /** DeleteExpired: the rows of the key whose end time has passed; `now`
        is the clock in seconds, which the statement binds as int32. */
    method DeleteExpired(t: int, keyName: string, keyValue: string, now: int, fault: Option<string>)
      returns (r: Result<int>)
      modifies this
      ensures (tables, r) == DeleteEffect(old(tables), GetTable(t), ExpiredFor(keyName, keyValue, Narrow32(now)), fault)
    {
      var now32 := Narrow32(now);
      var effect := DeleteEffect(tables, GetTable(t), ExpiredFor(keyName, keyValue, now32), fault);
      tables, r := effect.0, effect.1;
    }

    /** DeleteExpired0: every row whose `when` is set and older than `expt`
        seconds. */
    method DeleteExpired0(t: int, expt: Int32, now: int, fault: Option<string>)
      returns (r: Result<int>)
      modifies this
      ensures (tables, r) == DeleteEffect(old(tables), GetTable(t), StaleBefore(StaleCutoff(now, expt)), fault)
    {
      var now32 := Narrow32(now);
      var effect := DeleteEffect(tables, GetTable(t), StaleBefore(Narrow32(now32 as int - expt as int)), fault);
      tables, r := effect.0, effect.1;
    }

    /** CleanupRecord: nulls the fields of `data` in the rows of the key. */
    method CleanupRecord(t: int, keyName: string, keyValue: string, data: Input<Value>, fault: Option<string>)
      returns (r: Result<int>)
      modifies this
      ensures (tables, r) == CleanupEffect(old(tables), GetTable(t), KeyEquals(keyName, keyValue), CleanupPairs(data), fault)
    {
      var tbl := GetTable(t);
      var cleanup := DecodeForCleanup(data);
      var ps := CleanupPairs(data);
      if fault.Some? {
        return Err(fault.value);
      }
      if cleanup == "" || !NonEmptyKeys(ps) {
        return Err(SyntaxError);
      }
      if tbl !in tables {
        return Err(NoSuchTable(tbl));
      }
      var c := KeyEquals(keyName, keyValue);
      r := Ok(Hits(tables[tbl], c));
      tables := tables[tbl := Cleaned(tables[tbl], c, KeysOf(ps))];
    }
  }

  // ---------------------------------------------------------------------
  // reads

  /** CountRecords: the number of rows of the key. */
  function CountRecords(ts: Tables, t: int, keyName: string, keyValue: string): (r: Result<int>)
    ensures GetTable(t) !in ts ==> r == Err(NoSuchTable(GetTable(t)))
    ensures GetTable(t) in ts ==> r.Ok? && 0 <= r.value <= |ts[GetTable(t)]|
    ensures GetTable(t) in ts ==>
      r.value == |MatchingIndices(ts[GetTable(t)], KeyEquals(keyName, keyValue))|
  {
    var tbl := GetTable(t);
    if tbl !in ts then Err(NoSuchTable(tbl))
    else
      HitsCountsMatches(ts[tbl], KeyEquals(keyName, keyValue));
      Ok(Hits(ts[tbl], KeyEquals(keyName, keyValue)))
  }

  /** The positions of the rows that match `c`. */
  function MatchingIndices(rows: seq<Row>, c: Criterion): set<nat>
  {
    set i: nat | i < |rows| && Matches(c, rows[i])
  }

  /** `count(*)` is the number of matching positions of the table. */
  lemma {:induction false} HitsCountsMatches(rows: seq<Row>, c: Criterion)
    ensures Hits(rows, c) == |MatchingIndices(rows, c)|
    decreases |rows|
  {
    if |rows| > 0 {
      var n := |rows| - 1;
      var init := rows[..n];
      HitsCountsMatches(init, c);
      var s, t := MatchingIndices(rows, c), MatchingIndices(init, c);
      if Matches(c, rows[n]) {
        assert s == t + {n};
        assert n !in t;
      } else {
        assert s == t;
      }
    }
  }

  /** GetRecord: the first row of the key; a row with no non-NULL field
      counts as none. */
  function GetRecord(ts: Tables, t: int, keyName: string, keyValue: string): (r: Result<Option<Row>>)
    ensures GetTable(t) !in ts ==> r == Err(NoSuchTable(GetTable(t)))
    ensures GetTable(t) in ts ==> r.Ok?
    ensures r.Ok? && r.value.Some? ==> Matches(KeyEquals(keyName, keyValue), r.value.value)
  {
    var tbl := GetTable(t);
    if tbl !in ts then Err(NoSuchTable(tbl))
    else
      var sel := Selected(ts[tbl], KeyEquals(keyName, keyValue));
      DeletePartitions(ts[tbl], KeyEquals(keyName, keyValue));
      if |sel| == 0 || |sel[0]| == 0 then Ok(None) else Ok(Some(sel[0]))
  }

  /** GetList without an order field: the page of the rows of the key. */
  function GetList(ts: Tables, t: int, keyName: string, keyValue: string, start: Int32, limit: Int32)
    : (r: Result<seq<Row>>)
    ensures GetTable(t) !in ts ==> r == Err(NoSuchTable(GetTable(t)))
    ensures GetTable(t) in ts ==> r.Ok? && |r.value| <= Hits(ts[GetTable(t)], KeyEquals(keyName, keyValue))
    ensures r.Ok? ==> forall row :: row in r.value ==>
      row in ts[GetTable(t)] && Matches(KeyEquals(keyName, keyValue), row)
    ensures GetTable(t) in ts && start <= 0 && limit <= 0 ==> r.Ok? && forall row ::
      row in ts[GetTable(t)] && Matches(KeyEquals(keyName, keyValue), row) ==> row in r.value
  {
    var tbl := GetTable(t);
    if tbl !in ts then Err(NoSuchTable(tbl))
    else
      var sel := Selected(ts[tbl], KeyEquals(keyName, keyValue));
      DeletePartitions(ts[tbl], KeyEquals(keyName, keyValue));
      Ok(Page(sel, PagingFor(start, limit)))
  }

  lemma {:induction false} NoneSelected(rows: seq<Row>, c: Criterion)
    requires forall r :: r in rows ==> !Matches(c, r)
    ensures Selected(rows, c) == []
    decreases |rows|
  {
    if |rows| > 0 {
      var init := rows[..|rows| - 1];
      assert forall r :: r in init ==> r in rows;
      NoneSelected(init, c);
    }
  }

  /** The first row a select returns is the first matching row in storage
      order. */
  lemma {:induction false} FirstSelected(rows: seq<Row>, c: Criterion, k: nat) returns (j: nat)
    requires k < |rows| && Matches(c, rows[k])
    ensures j <= k && Matches(c, rows[j]) && forall i :: 0 <= i < j ==> !Matches(c, rows[i])
    ensures Selected(rows, c) != [] && Selected(rows, c)[0] == rows[j]
    decreases |rows|
  {
    var init := rows[..|rows| - 1];
    if k < |init| {
      j := FirstSelected(init, c, k);
    } else if exists i :: 0 <= i < |init| && Matches(c, init[i]) {
      var i :| 0 <= i < |init| && Matches(c, init[i]);
      j := FirstSelected(init, c, i);
    } else {
      NoneSelected(init, c);
      j := k;
    }
  }

  /** GetRecord finds the first row of the key in storage order. */
  lemma GetRecordFirstMatch(ts: Tables, t: int, keyName: string, keyValue: string, k: nat) returns (j: nat)
    requires GetTable(t) in ts && k < |ts[GetTable(t)]|
    requires Matches(KeyEquals(keyName, keyValue), ts[GetTable(t)][k])
    ensures var rows := ts[GetTable(t)];
      && j <= k && Matches(KeyEquals(keyName, keyValue), rows[j])
      && (forall i :: 0 <= i < j ==> !Matches(KeyEquals(keyName, keyValue), rows[i]))
      && GetRecord(ts, t, keyName, keyValue) == Ok(Some(rows[j]))
  {
    j := FirstSelected(ts[GetTable(t)], KeyEquals(keyName, keyValue), k);
  }

  /** GetRecord reports no record exactly when no row of the key is stored. */
  lemma GetRecordNoMatch(ts: Tables, t: int, keyName: string, keyValue: string)
    requires GetTable(t) in ts
    ensures GetRecord(ts, t, keyName, keyValue) == Ok(None) <==>
      forall r :: r in ts[GetTable(t)] ==> !Matches(KeyEquals(keyName, keyValue), r)
  {
    var rows, c := ts[GetTable(t)], KeyEquals(keyName, keyValue);
    if forall r :: r in rows ==> !Matches(c, r) {
      NoneSelected(rows, c);
    } else {
      var r :| r in rows && Matches(c, r);
      var k :| 0 <= k < |rows| && rows[k] == r;
      var j := FirstSelected(rows, c, k);
    }
  }

  /** A list without start or limit has exactly as many rows as the count
      reports on the same store. */
  lemma CountMatchesFullList(ts: Tables, t: int, keyName: string, keyValue: string)
    ensures CountRecords(ts, t, keyName, keyValue).Ok? <==> GetList(ts, t, keyName, keyValue, 0, 0).Ok?
    ensures CountRecords(ts, t, keyName, keyValue).Ok? ==>
      CountRecords(ts, t, keyName, keyValue).value == |GetList(ts, t, keyName, keyValue, 0, 0).value|
  {
  }

  /** An inserted document is found by a key it holds, after any earlier row
      of that key. */
  lemma InsertThenCount(ts: Tables, t: int, ps: Pairs<Value>, keyName: string, keyValue: string)
    requires |ps| > 0 && NonEmptyKeys(ps) && GetTable(t) in ts
    requires Matches(KeyEquals(keyName, keyValue), RowOf(ps))
    ensures var after := InsertEffect(ts, GetTable(t), ps, None).0;
      CountRecords(after, t, keyName, keyValue).value == CountRecords(ts, t, keyName, keyValue).value + 1
  {
    var tbl := GetTable(t);
    var rows := ts[tbl] + [RowOf(ps)];
    assert rows[..|rows| - 1] == ts[tbl];
  }
}
