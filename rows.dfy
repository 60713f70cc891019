/** Reading rows back: getRecordInTableDo and getListDo scan every column
    of a result row into an `interface{}` and build a bson.M from it by a
    type switch, keeping strings, turning byte slices into strings,
    narrowing integers to int32, keeping booleans and leaving NULLs out. */
module Rows {
  import opened GoLang

  /** A field value of a decoded document. */
  datatype Value = Str(s: string) | Int(n: Int32) | Bool(b: bool)

  /** A decoded document (a bson.M). */
  type Row = map<string, Value>

  /** The dynamic type of a scanned column. */
  datatype Column =
    | CString(s: string)
    | CBytes(bytes: seq<Byte>)   // []uint8
    | CInt64(n64: Int64)
    | CInt32(n32: Int32)
    | CBool(b: bool)
    | CNil
    | COther                     // any other type: printed and skipped

  /** The two type switches: getRecordInTableDo's has an int32 case,
      getListDo's has not. */
  datatype Switch = RecordSwitch | ListSwitch

  function FieldOf(sw: Switch, c: Column): (v: Option<Value>)
    ensures v.None? <==> c.CNil? || c.COther? || (sw.ListSwitch? && c.CInt32?)
    ensures c.CInt64? ==> v == Some(Int(Narrow32(c.n64 as int)))
  {
    match c
    case CString(s) => Some(Str(s))
    case CBytes(b) => Some(Str(BytesToString(b)))
    case CInt64(n) => Some(Int(Narrow32(n as int)))
    case CInt32(n) => if sw.RecordSwitch? then Some(Int(n)) else None
    case CBool(b) => Some(Bool(b))
    case CNil => None
    case COther => None
  }

  /** The two switches differ only on int32 columns. */
  lemma SwitchesAgree(c: Column)
    ensures !c.CInt32? ==> FieldOf(ListSwitch, c) == FieldOf(RecordSwitch, c)
    ensures c.CInt32? ==> FieldOf(ListSwitch, c) == None && FieldOf(RecordSwitch, c) == Some(Int(c.n32))
  {
  }

  /** The document the decode loop builds from the columns, names in order;
      a later column of the same name overwrites an earlier one. */
  function Decoded(sw: Switch, names: seq<string>, cols: seq<Column>): Row
    requires |names| == |cols|
    decreases |names|
  {
    if |names| == 0 then map[]
    else
      var n := |names| - 1;
      var rec := Decoded(sw, names[..n], cols[..n]);
      match FieldOf(sw, cols[n])
      case Some(v) => rec[names[n] := v]
      case None => rec
  }

  method DecodeRow(sw: Switch, columnNames: seq<string>, columns: seq<Column>) returns (recBson: Row)
    requires |columnNames| == |columns|
    ensures recBson == Decoded(sw, columnNames, columns)
  {
    recBson := map[];
    var i := 0;
    while i < |columnNames|
      invariant 0 <= i <= |columnNames|
      invariant recBson == Decoded(sw, columnNames[..i], columns[..i])
    {
      assert columnNames[..i + 1][..i] == columnNames[..i];
      assert columns[..i + 1][..i] == columns[..i];
      var colName := columnNames[i];
      match FieldOf(sw, columns[i]) {
        case Some(v) => recBson := recBson[colName := v];
        case None =>
      }
      i := i + 1;
    }
    assert columnNames[..i] == columnNames && columns[..i] == columns;
  }

  predicate Distinct(names: seq<string>)
  {
    forall i, j :: 0 <= i < j < |names| ==> names[i] != names[j]
  }

  /** Every key of the document is a column name. */
  lemma {:induction false} DecodedKeys(sw: Switch, names: seq<string>, cols: seq<Column>, k: string)
    requires |names| == |cols|
    ensures k in Decoded(sw, names, cols) ==> k in names
    decreases |names|
  {
    if |names| > 0 {
      var n := |names| - 1;
      DecodedKeys(sw, names[..n], cols[..n], k);
      assert k in names[..n] ==> k in names;
    }
  }

  /** With distinct column names, the i-th column is in the document, under
      its own name, exactly when it decodes. */
  lemma {:induction false} DecodedAt(sw: Switch, names: seq<string>, cols: seq<Column>, i: nat)
    requires |names| == |cols| && Distinct(names) && i < |names|
    ensures names[i] in Decoded(sw, names, cols) <==> FieldOf(sw, cols[i]).Some?
    ensures FieldOf(sw, cols[i]).Some? ==> Decoded(sw, names, cols)[names[i]] == FieldOf(sw, cols[i]).value
    decreases |names|
  {
    var n := |names| - 1;
    if i < n {
      assert names[..n][i] == names[i] && cols[..n][i] == cols[i];
      assert Distinct(names[..n]) by {
        forall a, b | 0 <= a < b < n ensures names[..n][a] != names[..n][b] {
          assert names[..n][a] == names[a] && names[..n][b] == names[b];
        }
      }
      DecodedAt(sw, names[..n], cols[..n], i);
      assert names[i] != names[n];
    } else {
      DecodedKeys(sw, names[..n], cols[..n], names[n]);
      assert names[n] !in names[..n] by {
        forall j | 0 <= j < n ensures names[..n][j] != names[n] {
          assert names[..n][j] == names[j];
        }
      }
    }
  }

  /** With distinct column names, the document holds exactly the decodable
      columns, each under its own name. */
  lemma DecodedFields(sw: Switch, names: seq<string>, cols: seq<Column>)
    requires |names| == |cols| && Distinct(names)
    ensures forall k :: k in Decoded(sw, names, cols) ==> k in names
    ensures forall i :: 0 <= i < |names| ==>
      (names[i] in Decoded(sw, names, cols) <==> FieldOf(sw, cols[i]).Some?)
    ensures forall i :: 0 <= i < |names| && FieldOf(sw, cols[i]).Some? ==>
      Decoded(sw, names, cols)[names[i]] == FieldOf(sw, cols[i]).value
  {
    forall k | k in Decoded(sw, names, cols) ensures k in names {
      DecodedKeys(sw, names, cols, k);
    }
    forall i | 0 <= i < |names|
      ensures names[i] in Decoded(sw, names, cols) <==> FieldOf(sw, cols[i]).Some?
      ensures FieldOf(sw, cols[i]).Some? ==> Decoded(sw, names, cols)[names[i]] == FieldOf(sw, cols[i]).value
    {
      DecodedAt(sw, names, cols, i);
    }
  }

  /** The column a stored value comes back as: text as a string, integers as
      int64, booleans as bool. */
  function StoredColumn(v: Value): (c: Column)
  {
    match v
    case Str(s) => CString(s)
    case Int(n) => CInt64(n as int as Int64)
    case Bool(b) => CBool(b)
  }

  /** Decoding reads back what was stored, under either switch, and text that
      arrives as bytes reads back as the same string. */
  lemma StoredRoundTrip(v: Value, sw: Switch)
    ensures FieldOf(sw, StoredColumn(v)) == Some(v)
    ensures v.Str? && IsByteString(v.s) ==> FieldOf(sw, CBytes(StringToBytes(v.s))) == Some(v)
  {
    if v.Str? && IsByteString(v.s) {
      assert BytesToString(StringToBytes(v.s)) == v.s;
    }
  }

  /** A whole row of stored values with distinct names decodes to the
      document of those names and values. */
  lemma DecodeStoredRow(sw: Switch, names: seq<string>, vals: seq<Value>)
    requires |names| == |vals| && Distinct(names)
    ensures var rec := Decoded(sw, names, seq(|vals|, i requires 0 <= i < |vals| => StoredColumn(vals[i])));
      && (forall k :: k in rec <==> k in names)
      && (forall i :: 0 <= i < |names| ==> rec[names[i]] == vals[i])
  {
    var cols := seq(|vals|, i requires 0 <= i < |vals| => StoredColumn(vals[i]));
    forall i | 0 <= i < |vals|
      ensures FieldOf(sw, cols[i]) == Some(vals[i])
    {
      StoredRoundTrip(vals[i], sw);
    }
    DecodedFields(sw, names, cols);
  }

  /** The int32 conversion keeps only the low 32 bits of an integer column. */
  lemma NarrowingWraps()
    ensures FieldOf(RecordSwitch, CInt64(0x1_0000_0000)) == Some(Int(0))
    ensures FieldOf(RecordSwitch, CInt64(0x8000_0000)) == Some(Int(-0x8000_0000))
  {
  }

  // ---------------------------------------------------------------------
  // getRecordInTableDo and getListDo

  /** What `rows.Next` and `rows.Scan` give for one row: its columns, no row
      (sql.ErrNoRows, or "Rows are closed" when Next found none), or another
      scan error. */
  datatype Scan = Scanned(cols: seq<Column>) | NoRow | ScanError(err: string)

  predicate Fits(names: seq<string>, s: Scan)
  {
    s.Scanned? ==> |s.cols| == |names|
  }

  /** getRecordInTableDo for a query that, unless `queryErr` says it failed,
      returned `columnNames` and first scanned `first`. */
  method GetRecordDo(queryErr: Option<string>, columnNames: seq<string>, first: Scan)
    returns (r: Result<Option<Row>>)
    requires Fits(columnNames, first)
    ensures queryErr.Some? ==> r == Err(queryErr.value)
    ensures queryErr.None? && first.ScanError? ==> r == Err(first.err)
    ensures queryErr.None? && first.NoRow? ==> r == Ok(None)
    ensures queryErr.None? && first.Scanned? ==>
      var rec := Decoded(RecordSwitch, columnNames, first.cols);
      r == if |rec| == 0 then Ok(None) else Ok(Some(rec))
  {
    if queryErr.Some? {
      return Err(queryErr.value);
    }
    match first {
      case NoRow => r := Ok(None);
      case ScanError(e) => r := Err(e);
      case Scanned(columns) =>
        var recBson := DecodeRow(RecordSwitch, columnNames, columns);
        if |recBson| == 0 {
          r := Ok(None);
        } else {
          r := Ok(Some(recBson));
        }
    }
  }

  /** A result of the only-NULL row is reported as no record at all. */
  lemma {:induction false} AllNullRowIsNotFound(names: seq<string>)
    ensures Decoded(RecordSwitch, names, seq(|names|, _ => CNil)) == map[]
    decreases |names|
  {
    if |names| > 0 {
      var n := |names| - 1;
      AllNullRowIsNotFound(names[..n]);
      assert seq(|names|, _ => CNil)[..n] == seq(n, _ => CNil);
    }
  }

  predicate AllScanned(names: seq<string>, scans: seq<Scan>)
  {
    forall i :: 0 <= i < |scans| ==> scans[i].Scanned? && |scans[i].cols| == |names|
  }

  /** The documents of a fully scanned result, in row order. */
  function DecodedList(names: seq<string>, scans: seq<Scan>): (rows: seq<Row>)
    requires AllScanned(names, scans)
    ensures |rows| == |scans|
  {
    seq(|scans|, i requires 0 <= i < |scans| && AllScanned(names, scans) =>
      Decoded(ListSwitch, names, scans[i].cols))
  }

  /** getListDo: one document per row in row order; any scan error makes the
      whole call return nothing and no error. */
  method GetListDo(queryErr: Option<string>, columnNames: seq<string>, scans: seq<Scan>)
    returns (r: Result<seq<Row>>)
    requires forall i :: 0 <= i < |scans| ==> Fits(columnNames, scans[i])
    ensures queryErr.Some? ==> r == Err(queryErr.value)
    ensures queryErr.None? && AllScanned(columnNames, scans) ==> r == Ok(DecodedList(columnNames, scans))
    ensures queryErr.None? && !AllScanned(columnNames, scans) ==> r == Ok([])
  {
    if queryErr.Some? {
      return Err(queryErr.value);
    }
    var results: seq<Row> := [];
    var i := 0;
    while i < |scans|
      invariant 0 <= i <= |scans|
      invariant AllScanned(columnNames, scans[..i])
      invariant results == DecodedList(columnNames, scans[..i])
    {
      match scans[i] {
        case Scanned(columns) =>
          var recBson := DecodeRow(ListSwitch, columnNames, columns);
          results := results + [recBson];
        case NoRow =>
          return Ok([]);
        case ScanError(_) =>
          return Ok([]);
      }
      assert scans[..i + 1][..i] == scans[..i];
      i := i + 1;
    }
    assert scans[..i] == scans;
    r := Ok(results);
  }
}
