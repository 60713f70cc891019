/** The statement builders of storage.go: they turn a schema-free document
    into the column lists, `$n` placeholder lists, `SET` clauses and `WHERE`
    filters of parameterised SQL, escaping the one reserved column name.
    A document is the sequence of its field/value pairs in the order Go's map
    iteration happens to visit them; the values are passed through untouched,
    so the builders are generic in the value type. */
module Codec {
  import opened GoLang

  /** A document's field/value pairs, in map iteration order. */
  type Pairs<V> = seq<(string, V)>

  /** The dynamic type of a builder's `data interface{}` argument. */
  datatype Input<V> =
    | PrimitiveM(pairs: Pairs<V>)     // bson.M, alias of primitive.M
    | PrimitiveMRef(pairs: Pairs<V>)  // *primitive.M
    | StringMap(pairs: Pairs<V>)      // map[string]interface{}
    | OtherType                       // anything else

  /** Quotes the column name that collides with the SQL keyword WHEN. */
  function EscapeName(name: string): (r: string)
    ensures name == "when" ==> r == "`when`"
    ensures name != "when" ==> r == name
  {
    if name == "when" then "`when`" else name
  }

  /** Escaping changes no other name, so two names escape alike only when
      they are equal or are `when` and its quoted form. */
  lemma EscapeNameCollision(a: string, b: string)
    requires a != b && EscapeName(a) == EscapeName(b)
    ensures {a, b} == {"when", "`when`"}
  {
  }

  predicate NoCommaKeys<V>(ps: Pairs<V>)
  {
    forall i :: 0 <= i < |ps| ==> ',' !in ps[i].0
  }

  predicate NonEmptyKeys<V>(ps: Pairs<V>)
  {
    forall i :: 0 <= i < |ps| ==> ps[i].0 != ""
  }

  function EscapedKeys<V>(ps: Pairs<V>): (names: seq<string>)
    ensures |names| == |ps|
    ensures forall i :: 0 <= i < |ps| ==> names[i] == EscapeName(ps[i].0)
  {
    seq(|ps|, i requires 0 <= i < |ps| => EscapeName(ps[i].0))
  }

  /** `name=null` for every field of `ps`. */
  function NullTerms<V>(ps: Pairs<V>): (terms: seq<string>)
    ensures |terms| == |ps|
    ensures forall i :: 0 <= i < |ps| ==> terms[i] == EscapeName(ps[i].0) + "=null"
  {
    seq(|ps|, i requires 0 <= i < |ps| => EscapeName(ps[i].0) + "=null")
  }

  /** `name=$k` for the k-th field of `ps`, counting from 1. */
  function BoundTerms<V>(ps: Pairs<V>): (terms: seq<string>)
    ensures |terms| == |ps|
    ensures forall i :: 0 <= i < |ps| ==> terms[i] == EscapeName(ps[i].0) + "=$" + FormatInt(i + 1)
  {
    seq(|ps|, i requires 0 <= i < |ps| => EscapeName(ps[i].0) + "=$" + FormatInt(i + 1))
  }

  /** The values of `ps`, in order: what the builders bind to `$1`, `$2`, ... */
  function ValuesOf<V>(ps: Pairs<V>): (vs: seq<V>)
    ensures |vs| == |ps|
    ensures forall i :: 0 <= i < |ps| ==> vs[i] == ps[i].1
  {
    seq(|ps|, i requires 0 <= i < |ps| => ps[i].1)
  }

  /** Appending the next value extends the bound prefix by one. */
  lemma ValuesStep<V>(ps: Pairs<V>, i: nat)
    requires i < |ps|
    ensures ValuesOf(ps)[..i + 1] == ValuesOf(ps)[..i] + [ps[i].1]
  {
  }

  // ---------------------------------------------------------------------
  // the accumulation every builder performs

  /** One step of the builders' `if len(fields) == 0 { fields = item } else
      { fields = fields + "," + item }`. */
  function AppendItem(fields: string, item: string): string
  {
    if |fields| == 0 then item else fields + "," + item
  }

  /** `fields` after the builder loop has appended each of `items` in turn. */
  function Accumulate(fields: string, items: seq<string>): string
    decreases |items|
  {
    if |items| == 0 then fields
    else AppendItem(Accumulate(fields, items[..|items| - 1]), items[|items| - 1])
  }

  /** One more loop step appends one more item. */
  lemma AccumulateStep(fields: string, items: seq<string>, n: nat)
    requires n < |items|
    ensures Accumulate(fields, items[..n + 1]) == AppendItem(Accumulate(fields, items[..n]), items[n])
  {
    assert items[..n + 1][..n] == items[..n];
  }

  /** When no item is empty the accumulated string is the items joined by
      commas, and it is empty only for no items. */
  lemma {:induction false} AccumulateIsJoin(items: seq<string>)
    requires forall i :: 0 <= i < |items| ==> items[i] != ""
    ensures Accumulate("", items) == Join(items, ",")
    ensures Accumulate("", items) == "" <==> items == []
    decreases |items|
  {
    if |items| > 0 {
      AccumulateIsJoin(items[..|items| - 1]);
    }
  }

  /** Accumulating two lists in turn is accumulating their concatenation. */
  lemma {:induction false} AccumulateConcat(fields: string, xs: seq<string>, ys: seq<string>)
    ensures Accumulate(Accumulate(fields, xs), ys) == Accumulate(fields, xs + ys)
    decreases |ys|
  {
    if |ys| > 0 {
      var init := ys[..|ys| - 1];
      AccumulateConcat(fields, xs, init);
      assert (xs + ys)[..|xs + ys| - 1] == xs + init;
    } else {
      assert xs + ys == xs;
    }
  }

  // ---------------------------------------------------------------------
  // decodeFieldsValues

  /** The column list decodeFieldsValues accumulates for `ps`. */
  function ColumnList<V>(ps: Pairs<V>): string
  {
    Accumulate("", EscapedKeys(ps))
  }

  /** The pairs decodeFieldsValues iterates over: its three map cases alike. */
  function FieldPairs<V>(data: Input<V>): Pairs<V>
  {
    if data.OtherType? then [] else data.pairs
  }

  method DecodeFieldsValues<V>(data: Input<V>) returns (fields: string, values: seq<V>)
    ensures fields == ColumnList(FieldPairs(data))
    ensures values == ValuesOf(FieldPairs(data))
    ensures data.OtherType? ==> fields == "" && values == []
  {
    fields := "";
    values := [];
    var ps := FieldPairs(data);
    ghost var names := EscapedKeys(ps);
    var i := 0;
    while i < |ps|
      invariant 0 <= i <= |ps|
      invariant fields == Accumulate("", names[..i])
      invariant values == ValuesOf(ps)[..i]
    {
      var idx, val := ps[i].0, ps[i].1;
      AccumulateStep("", names, i);
      ValuesStep(ps, i);
      if |fields| == 0 {
        fields := EscapeName(idx);
      } else {
        fields := fields + "," + EscapeName(idx);
      }
      values := values + [val];
      i := i + 1;
    }
    assert names[..i] == names && ValuesOf(ps)[..i] == ValuesOf(ps);
  }

  /** With no empty field name the column list is the escaped names joined by commas. */
  lemma ColumnListIsJoin<V>(ps: Pairs<V>)
    requires NonEmptyKeys(ps)
    ensures ColumnList(ps) == Join(EscapedKeys(ps), ",")
  {
    AccumulateIsJoin(EscapedKeys(ps));
  }

  /** Splitting the column list on commas gives one escaped name per value. */
  lemma ColumnListSplits<V>(ps: Pairs<V>)
    requires |ps| >= 1 && NonEmptyKeys(ps) && NoCommaKeys(ps)
    ensures Split(ColumnList(ps), ',') == EscapedKeys(ps)
  {
    ColumnListIsJoin(ps);
    SplitJoin(EscapedKeys(ps), ',');
  }

  /** An empty first field name leaves `fields` empty, so the next name gets no
      separator: two values but one column. */
  lemma EmptyFirstNameLosesSeparator<V>(v: V, w: V)
    ensures ColumnList([("", v), ("a", w)]) == "a"
  {
    var names := EscapedKeys([("", v), ("a", w)]);
    assert names == ["", "a"];
    assert names[..1] == [""] && names[..1][..0] == [];
    assert Accumulate("", names[..1]) == "";
  }

  // ---------------------------------------------------------------------
  // decodeForCleanup

  /** The pairs decodeForCleanup iterates over: it handles bson.M and
      map[string]interface{} but not *primitive.M. */
  function CleanupPairs<V>(data: Input<V>): Pairs<V>
  {
    match data
    case PrimitiveM(ps) => ps
    case StringMap(ps) => ps
    case PrimitiveMRef(_) => []
    case OtherType => []
  }

  method DecodeForCleanup<V>(data: Input<V>) returns (fields: string)
    ensures fields == Join(NullTerms(CleanupPairs(data)), ",")
    ensures fields == "" <==> CleanupPairs(data) == []
  {
    fields := "";
    var ps := CleanupPairs(data);
    ghost var terms := NullTerms(ps);
    var i := 0;
    while i < |ps|
      invariant 0 <= i <= |ps|
      invariant fields == Accumulate("", terms[..i])
    {
      AccumulateStep("", terms, i);
      if |fields| == 0 {
        fields := EscapeName(ps[i].0) + "=null";
      } else {
        fields := fields + "," + EscapeName(ps[i].0) + "=null";
      }
      i := i + 1;
    }
    assert terms[..i] == terms;
    AccumulateIsJoin(terms);
  }

  // ---------------------------------------------------------------------
  // decodeForUpdate

  /** The fields of an optional (nil-able) document pointer. */
  function Present<V>(doc: Option<Pairs<V>>): Pairs<V>
  {
    if doc.Some? then doc.value else []
  }

  /** The `SET` clause for setting the fields of `setDoc` and nulling those of `del`. */
  function UpdateClause<V, W>(setDoc: Pairs<V>, del: Pairs<W>): string
  {
    Join(BoundTerms(setDoc) + NullTerms(del), ",")
  }

  /** decodeForUpdate's first loop: `name=$k` for the k-th field of `setDoc`. */
  method BindSetFields<V>(setDoc: Pairs<V>) returns (fields: string, values: seq<V>)
    ensures fields == Accumulate("", BoundTerms(setDoc))
    ensures values == ValuesOf(setDoc)
  {
    values := [];
    fields := "";
    var i := 0;
    while i < |setDoc|
      invariant 0 <= i <= |setDoc|
      invariant fields == Accumulate("", BoundTerms(setDoc)[..i])
      invariant i > 0 <==> |fields| > 0
      invariant values == ValuesOf(setDoc)[..i]
    {
      var idx := setDoc[i].0;
      ValuesStep(setDoc, i);
      values := values + [setDoc[i].1];
      BindStep(setDoc, i, fields);
      if |fields| == 0 {
        fields := EscapeName(idx) + "=$1";
      } else {
        assert |values| == i + 1;
        var term := EscapeName(idx) + "=$" + FormatInt(|values|);
        fields := fields + "," + term;
      }
      i := i + 1;
    }
    assert BoundTerms(setDoc)[..i] == BoundTerms(setDoc) && ValuesOf(setDoc)[..i] == ValuesOf(setDoc);
  }

  /** One step of the first loop: the first term is written with a literal
      `$1`, every later one after a comma. */
  lemma BindStep<V>(setDoc: Pairs<V>, i: nat, fields: string)
    requires i < |setDoc| && fields == Accumulate("", BoundTerms(setDoc)[..i])
    requires i > 0 <==> |fields| > 0
    ensures var next := Accumulate("", BoundTerms(setDoc)[..i + 1]);
      var term := EscapeName(setDoc[i].0) + "=$" + FormatInt(i + 1);
      && |next| > 0
      && (|fields| == 0 ==> next == EscapeName(setDoc[i].0) + "=$1")
      && (|fields| > 0 ==> next == fields + "," + term)
  {
    var bound := BoundTerms(setDoc);
    AccumulateStep("", bound, i);
    var name := EscapeName(setDoc[i].0);
    assert bound[i] == name + "=$" + FormatInt(i + 1);
    if i == 0 {
      assert FormatInt(1) == "1";
      assert name + "=$" + "1" == name + "=$1";
    }
  }

  method DecodeForUpdate<V, W>(bdoc: Option<Pairs<V>>, bdel: Option<Pairs<W>>)
    returns (fields: string, values: seq<V>)
    ensures fields == UpdateClause(Present(bdoc), Present(bdel))
    ensures values == ValuesOf(Present(bdoc))
  {
    var setDoc := Present(bdoc);
    var del := Present(bdel);
    fields, values := BindSetFields(setDoc);
    ghost var start := fields;
    ghost var nulls := NullTerms(del);
    var j := 0;
    while j < |del|
      invariant 0 <= j <= |del|
      invariant fields == Accumulate(start, nulls[..j])
    {
      AccumulateStep(start, nulls, j);
      var term := EscapeName(del[j].0) + "=null";
      if |fields| == 0 {
        fields := term;
      } else {
        fields := fields + "," + term;
      }
      j := j + 1;
    }
    assert nulls[..j] == nulls;
    UpdateClauseAccumulates(setDoc, del);
  }

  /** Setting then nulling, item by item, accumulates the `SET` clause. */
  lemma UpdateClauseAccumulates<V, W>(setDoc: Pairs<V>, del: Pairs<W>)
    ensures UpdateClause(setDoc, del) == Accumulate(Accumulate("", BoundTerms(setDoc)), NullTerms(del))
  {
    AccumulateConcat("", BoundTerms(setDoc), NullTerms(del));
    AccumulateIsJoin(BoundTerms(setDoc) + NullTerms(del));
  }

  lemma FormatIntNoComma(i: int)
    requires i >= 0
    ensures ',' !in FormatInt(i)
  {
    FormatIntDigits(i);
  }

  /** Read back item by item, the `SET` clause writes the k-th set field as
      `name=$k` (its value is the k-th bound value), then every unset field
      as `name=null`, and nothing else. */
  lemma UpdateClauseItems<V, W>(setDoc: Pairs<V>, del: Pairs<W>)
    requires |setDoc| + |del| >= 1
    requires NoCommaKeys(setDoc) && NoCommaKeys(del)
    ensures var items := Split(UpdateClause(setDoc, del), ',');
      && |items| == |setDoc| + |del|
      && (forall k :: 1 <= k <= |setDoc| ==> items[k - 1] == EscapeName(setDoc[k - 1].0) + "=$" + FormatInt(k))
      && (forall j :: 0 <= j < |del| ==> items[|setDoc| + j] == EscapeName(del[j].0) + "=null")
  {
    var bound, nulls := BoundTerms(setDoc), NullTerms(del);
    UpdateClauseSplits(setDoc, del);
    var items := Split(UpdateClause(setDoc, del), ',');
    forall k | 1 <= k <= |setDoc|
      ensures items[k - 1] == EscapeName(setDoc[k - 1].0) + "=$" + FormatInt(k)
    {
      assert items[k - 1] == bound[k - 1];
    }
    forall j | 0 <= j < |del|
      ensures items[|setDoc| + j] == EscapeName(del[j].0) + "=null"
    {
      assert items[|setDoc| + j] == nulls[j];
    }
  }

  lemma UpdateClauseSplits<V, W>(setDoc: Pairs<V>, del: Pairs<W>)
    requires |setDoc| + |del| >= 1
    requires NoCommaKeys(setDoc) && NoCommaKeys(del)
    ensures Split(UpdateClause(setDoc, del), ',') == BoundTerms(setDoc) + NullTerms(del)
  {
    TermsHaveNoComma(setDoc, del);
    SplitJoin(BoundTerms(setDoc) + NullTerms(del), ',');
  }

  /** No `SET` term contains a comma when no field name does. */
  lemma TermsHaveNoComma<V, W>(setDoc: Pairs<V>, del: Pairs<W>)
    requires NoCommaKeys(setDoc) && NoCommaKeys(del)
    ensures forall i :: 0 <= i < |setDoc| + |del| ==> ',' !in (BoundTerms(setDoc) + NullTerms(del))[i]
  {
    var bound, nulls := BoundTerms(setDoc), NullTerms(del);
    forall i | 0 <= i < |setDoc| + |del|
      ensures ',' !in (bound + nulls)[i]
    {
      if i < |setDoc| {
        BoundTermNoComma(setDoc[i].0, i + 1);
        assert (bound + nulls)[i] == bound[i];
      } else {
        assert (bound + nulls)[i] == nulls[i - |setDoc|];
      }
    }
  }

  lemma BoundTermNoComma(name: string, k: nat)
    requires ',' !in name
    ensures ',' !in EscapeName(name) + "=$" + FormatInt(k)
  {
    FormatIntNoComma(k);
  }

  // ---------------------------------------------------------------------
  // CreateRecordInTable

  /** `$1`, ..., `$n`, and just `$1` when there are no values. */
  function PlaceholderItems(n: nat): (items: seq<string>)
    ensures |items| == if n == 0 then 1 else n
    ensures forall i :: 0 <= i < |items| ==> items[i] == "$" + FormatInt(i + 1)
  {
    seq(if n == 0 then 1 else n, i requires 0 <= i => "$" + FormatInt(i + 1))
  }

  /** The `insert` statement CreateRecordInTable runs for `data`. */
  function InsertText<V>(tbl: string, data: Input<V>): string
  {
    "insert into " + tbl + " (" + ColumnList(FieldPairs(data)) + ") values ("
      + Join(PlaceholderItems(|FieldPairs(data)|), ",") + ")"
  }

  method InsertQuery<V>(tbl: string, data: Input<V>) returns (q: string, values: seq<V>)
    ensures q == InsertText(tbl, data)
    ensures values == ValuesOf(FieldPairs(data))
  {
    var fields;
    fields, values := DecodeFieldsValues(data);
    var valuesInQ := Placeholders(|values|);
    q := "insert into " + tbl + " (" + fields + ") values (" + valuesInQ + ")";
  }

  /** CreateRecordInTable's loop: `$1`, then `,$k` for every further value. */
  method Placeholders(n: nat) returns (valuesInQ: string)
    ensures valuesInQ == Join(PlaceholderItems(n), ",")
  {
    valuesInQ := "$1";
    ghost var items := PlaceholderItems(n);
    assert FormatInt(1) == "1";
    assert valuesInQ == Join(items[..1], ",");
    var idx := 0;
    while idx < n
      invariant 0 <= idx <= n
      invariant valuesInQ == Join(items[..if idx == 0 then 1 else idx], ",")
    {
      if idx > 0 {
        var item := "$" + FormatInt(idx + 1);
        assert items[..idx + 1] == items[..idx] + [item];
        JoinSnoc(items[..idx], item, ",");
        valuesInQ := valuesInQ + "," + item;
      }
      idx := idx + 1;
    }
    assert items[..|items|] == items;
  }

  /** The placeholder list names every position once, numbered from 1. */
  lemma PlaceholderNumbering(n: nat, i: nat)
    requires i < if n == 0 then 1 else n
    ensures |Split(Join(PlaceholderItems(n), ","), ',')| == if n == 0 then 1 else n
    ensures var item := Split(Join(PlaceholderItems(n), ","), ',')[i];
      |item| >= 1 && item[0] == '$' && ParseDecimal(item[1..]) == Some(i + 1)
  {
    PlaceholdersSplit(n);
    PlaceholderReadsBack(i + 1);
  }

  lemma PlaceholdersSplit(n: nat)
    ensures Split(Join(PlaceholderItems(n), ","), ',') == PlaceholderItems(n)
  {
    var items := PlaceholderItems(n);
    forall k | 0 <= k < |items|
      ensures ',' !in items[k]
    {
      FormatIntNoComma(k + 1);
    }
    SplitJoin(items, ',');
  }

  lemma PlaceholderReadsBack(k: nat)
    requires k >= 1
    ensures var item := "$" + FormatInt(k);
      |item| >= 1 && item[0] == '$' && ParseDecimal(item[1..]) == Some(k)
  {
    DecimalRoundTrip(k);
    assert ("$" + FormatInt(k))[1..] == Decimal(k);
  }

  /** For a non-empty document of plain field names the insert names as many
      columns as it has placeholders and bound values. */
  lemma InsertArityAgrees<V>(ps: Pairs<V>)
    requires |ps| >= 1 && NonEmptyKeys(ps) && NoCommaKeys(ps)
    ensures |Split(ColumnList(ps), ',')| == |ps|
    ensures |Split(Join(PlaceholderItems(|ps|), ","), ',')| == |ps|
  {
    ColumnListSplits(ps);
    PlaceholderNumbering(|ps|, 0);
  }

  /** With no values the statement still binds `$1`. */
  lemma EmptyInsertStillBindsOne(tbl: string)
    ensures InsertText<int>(tbl, OtherType) == "insert into " + tbl + " () values ($1)"
  {
    assert FormatInt(1) == "1";
  }

  // ---------------------------------------------------------------------
  // LookupRecord, GetRecord, GetRecord2

  /** The `select` LookupRecord builds: one `name=$k` per field joined by ` AND `. */
  function LookupText<V>(table: string, row: Pairs<V>): string
  {
    "select * from " + table + " WHERE " + Join(BoundTerms(row), " AND ")
  }

  /** `start` after LookupRecord's loop has appended each of `terms`, each but
      the `total`-th followed by ` AND `. */
  function LookupChain(start: string, terms: seq<string>, total: nat): string
    decreases |terms|
  {
    if |terms| == 0 then start
    else
      var q := LookupChain(start, terms[..|terms| - 1], total) + terms[|terms| - 1];
      if |terms| < total then q + " AND " else q
  }

  lemma LookupChainStep(start: string, terms: seq<string>, total: nat, n: nat)
    requires n < |terms|
    ensures var q := LookupChain(start, terms[..n], total) + terms[n];
      LookupChain(start, terms[..n + 1], total) == if n + 1 < total then q + " AND " else q
  {
    assert terms[..n + 1][..n] == terms[..n];
  }

  /** The chain is the terms joined by ` AND `, with a dangling ` AND ` while
      fewer than `total` terms have been appended. */
  lemma {:induction false} LookupChainIsJoin(start: string, terms: seq<string>, total: nat)
    requires 1 <= |terms| <= total
    ensures |terms| < total ==> LookupChain(start, terms, total) == start + Join(terms, " AND ") + " AND "
    ensures |terms| == total ==> LookupChain(start, terms, total) == start + Join(terms, " AND ")
    decreases |terms|
  {
    var init, last := terms[..|terms| - 1], terms[|terms| - 1];
    if |init| == 0 {
      assert LookupChain(start, init, total) == start;
    } else {
      LookupChainIsJoin(start, init, total);
      assert start + Join(init, " AND ") + " AND " + last == start + Join(terms, " AND ");
    }
  }

  method LookupQuery<V>(table: string, row: Pairs<V>) returns (q: string, values: seq<V>)
    ensures q == LookupText(table, row)
    ensures values == ValuesOf(row)
  {
    var prefix := "select * from " + table + " WHERE ";
    q := prefix;
    var num := 1;
    values := [];
    var i := 0;
    while i < |row|
      invariant 0 <= i <= |row| && num == i + 1
      invariant q == LookupChain(prefix, BoundTerms(row)[..i], |row|)
      invariant values == ValuesOf(row)[..i]
    {
      var keyName := row[i].0;
      LookupStep(prefix, row, i, q);
      ValuesStep(row, i);
      q := q + (EscapeName(keyName) + "=$" + FormatInt(num));
      if num < |row| {
        q := q + " AND ";
      }
      values := values + [row[i].1];
      num := num + 1;
      i := i + 1;
    }
    LookupDone(table, row);
    assert ValuesOf(row)[..i] == ValuesOf(row);
  }

  /** One step of LookupRecord's loop: the i-th term, then ` AND ` unless it is the last. */
  lemma LookupStep<V>(prefix: string, row: Pairs<V>, i: nat, q: string)
    requires i < |row| && q == LookupChain(prefix, BoundTerms(row)[..i], |row|)
    ensures var next := q + (EscapeName(row[i].0) + "=$" + FormatInt(i + 1));
      LookupChain(prefix, BoundTerms(row)[..i + 1], |row|) == if i + 1 < |row| then next + " AND " else next
  {
    LookupChainStep(prefix, BoundTerms(row), |row|, i);
  }

  /** After the last field the chain is the whole statement. */
  lemma LookupDone<V>(table: string, row: Pairs<V>)
    ensures LookupChain("select * from " + table + " WHERE ", BoundTerms(row)[..|row|], |row|) == LookupText(table, row)
  {
    var prefix := "select * from " + table + " WHERE ";
    var terms := BoundTerms(row);
    assert terms[..|row|] == terms;
    if |row| == 0 {
      assert LookupText(table, row) == prefix + "";
    } else {
      LookupChainIsJoin(prefix, terms, |row|);
    }
  }

  /** The filter of LookupRecord has one term per field and one ` AND ` between
      each pair of neighbouring terms. */
  lemma LookupFilterLength<V>(row: Pairs<V>)
    requires |row| >= 1
    ensures |Join(BoundTerms(row), " AND ")| == TotalLength(BoundTerms(row)) + (|row| - 1) * 5
  {
    JoinLength(BoundTerms(row), " AND ");
  }

  function GetRecordText(table: string, keyName: string): string
  {
    "select * from " + table + " WHERE " + EscapeName(keyName) + "=$1"
  }

  function GetRecord2Text(table: string, keyName: string, keyName2: string): string
  {
    "select * from " + table + " WHERE " + EscapeName(keyName) + "=$1 AND "
      + EscapeName(keyName2) + "=$2"
  }

  /** GetRecord and GetRecord2 build the same statement LookupRecord builds for
      a one- and a two-field document. */
  lemma GetRecordTextsAreLookups<V>(table: string, keyName: string, keyName2: string, v: V, v2: V)
    ensures GetRecordText(table, keyName) == LookupText(table, [(keyName, v)])
    ensures GetRecord2Text(table, keyName, keyName2) == LookupText(table, [(keyName, v), (keyName2, v2)])
  {
    OneKeyLookup(table, keyName, v);
    TwoKeyLookup(table, keyName, keyName2, v, v2);
  }

  lemma OneKeyLookup<V>(table: string, keyName: string, v: V)
    ensures GetRecordText(table, keyName) == LookupText(table, [(keyName, v)])
  {
    var e1 := EscapeName(keyName);
    var terms := BoundTerms([(keyName, v)]);
    BoundFirst(e1);
    assert terms == [e1 + "=$1"];
  }

  lemma TwoKeyLookup<V>(table: string, keyName: string, keyName2: string, v: V, v2: V)
    ensures GetRecord2Text(table, keyName, keyName2) == LookupText(table, [(keyName, v), (keyName2, v2)])
  {
    var e1, e2 := EscapeName(keyName), EscapeName(keyName2);
    var terms := BoundTerms([(keyName, v), (keyName2, v2)]);
    BoundFirst(e1);
    assert FormatInt(2) == "2";
    assert e2 + "=$" + "2" == e2 + "=$2";
    assert terms == [e1 + "=$1", e2 + "=$2"];
    assert terms[..1] == [terms[0]];
    assert Join(terms, " AND ") == (e1 + "=$1") + " AND " + (e2 + "=$2");
    assert "=$1" + " AND " == "=$1 AND ";
  }

  /** The first bound term is `name=$1`. */
  lemma BoundFirst(e: string)
    ensures e + "=$" + FormatInt(1) == e + "=$1"
  {
    assert FormatInt(1) == "1";
    assert e + "=$" + "1" == e + "=$1";
  }
}
