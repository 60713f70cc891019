/** The list queries of storage.go (GetList0 and GetList) with their
    paging rule, the row window SQLite returns for such a query, and the
    database file name normalisation shared by DBExists, OpenDB and InitDB. */
module Queries {
  import opened GoLang
  import opened Codec

  /** The largest page size a list query asks for. */
  const MaxPage := 100

  /** `if limit > 100 { limit = 100 }`: clamped from above only. */
  function ClampLimit(limit: Int32): (r: Int32)
    ensures r <= limit && r <= MaxPage as Int32
    ensures r == limit || r == MaxPage as Int32
  {
    if limit > 100 then 100 else limit
  }

  /** The paging a list query asks the engine for. */
  datatype Paging =
    | Unbounded                            // no LIMIT clause
    | Limit(limit: Int32)                  // LIMIT n
    | LimitOffset(limit: Int32, offset: Int32)  // LIMIT n OFFSET m

  /** The paging clause chosen for a `start` and a requested `limit`. */
  function PagingFor(start: Int32, limit: Int32): (p: Paging)
    ensures p.LimitOffset? <==> start > 0
    ensures p.Limit? <==> start <= 0 && limit > 0
    ensures p.Unbounded? <==> start <= 0 && limit <= 0
    ensures p.LimitOffset? ==> p.offset == start
    ensures !p.Unbounded? ==> p.limit == ClampLimit(limit)
  {
    var lim := ClampLimit(limit);
    if start > 0 then LimitOffset(lim, start)
    else if lim > 0 then Limit(lim)
    else Unbounded
  }

  function PagingClause(p: Paging): string
  {
    match p
    case Unbounded => ""
    case Limit(n) => " LIMIT " + FormatInt(n as int)
    case LimitOffset(n, m) => " LIMIT " + FormatInt(n as int) + " OFFSET " + FormatInt(m as int)
  }

  function OrderClause(orderField: string): string
  {
    if |orderField| > 0 then " ORDER BY " + EscapeName(orderField) + " DESC" else ""
  }

  /** GetList0's statement: every row of `table`, ordered when an order
      field is given, and paged last. */
  function ListAllText(table: string, start: Int32, limit: Int32, orderField: string): (s: string)
    ensures |"select * from " + table| <= |s| && s[..|"select * from " + table|] == "select * from " + table
    ensures EndsWith(s, PagingClause(PagingFor(start, limit)))
    ensures orderField == "" && start <= 0 && limit <= 0 ==> s == "select * from " + table
  {
    "select * from " + table + OrderClause(orderField) + PagingClause(PagingFor(start, limit))
  }

  /** GetList's statement: the rows of `table` whose `keyName` is bound to
      `$1`, which is GetRecord's statement followed by the order and the
      paging clauses. */
  function ListText(table: string, keyName: string, start: Int32, limit: Int32, orderField: string): (s: string)
    ensures |GetRecordText(table, keyName)| <= |s|
    ensures s[..|GetRecordText(table, keyName)|] == GetRecordText(table, keyName)
    ensures EndsWith(s, PagingClause(PagingFor(start, limit)))
    ensures orderField == "" ==> s == GetRecordText(table, keyName) + PagingClause(PagingFor(start, limit))
  {
    "select * from " + table + " WHERE " + EscapeName(keyName) + "=$1"
      + OrderClause(orderField) + PagingClause(PagingFor(start, limit))
  }

  /** The paging clause is the last thing in the statement, and it names the
      clamped limit and the start exactly. */
  lemma PagingClauseReadsBack(start: Int32, limit: Int32)
    ensures var c := PagingClause(PagingFor(start, limit));
      && (start > 0 ==> c == " LIMIT " + FormatInt(ClampLimit(limit) as int) + " OFFSET " + FormatInt(start as int))
      && (start <= 0 && limit > 0 ==> c == " LIMIT " + FormatInt(ClampLimit(limit) as int))
      && (start <= 0 && limit <= 0 ==> c == "")
  {
  }

  /** An ORDER BY clause appears exactly when an order field is given. */
  lemma OrderClauseOnlyWithField(orderField: string)
    ensures OrderClause(orderField) == "" <==> orderField == ""
    ensures orderField == "when" ==> OrderClause(orderField) == " ORDER BY `when` DESC"
  {
  }

  /** The window of `rows` SQLite returns for a paging clause: a negative
      LIMIT means no upper bound, a negative OFFSET counts as none, and an
      OFFSET past the end leaves nothing. */
  function Page<T>(rows: seq<T>, p: Paging): (page: seq<T>)
    ensures |page| <= |rows|
    ensures forall x :: x in page ==> x in rows
  {
    match p
    case Unbounded => rows
    case Limit(n) => if n < 0 || n as int >= |rows| then rows else rows[..n]
    case LimitOffset(n, m) =>
      var rest := if m <= 0 then rows else if m as int >= |rows| then [] else rows[m..];
      if n < 0 || n as int >= |rest| then rest else rest[..n]
  }

  /** A page is the run of the rows from `first` on, no longer than the
      clamped limit whenever the statement carries a non-negative LIMIT;
      `first` is the start when the start is inside the result. */
  lemma PageIsWindow<T>(rows: seq<T>, start: Int32, limit: Int32) returns (first: nat)
    ensures var page := Page(rows, PagingFor(start, limit));
      first + |page| <= |rows| && page == rows[first..first + |page|]
    ensures 0 < start as int <= |rows| ==> first == start as int
    ensures (start > 0 && limit >= 0) || (start <= 0 && limit > 0) ==>
      |Page(rows, PagingFor(start, limit))| <= MaxPage
  {
    var p := PagingFor(start, limit);
    if start > 0 {
      first := if start as int >= |rows| then |rows| else start as int;
    } else {
      first := 0;
    }
  }

  /** With no positive limit and no start the statement has no LIMIT at all:
      the whole result comes back, however long. */
  lemma NoLimitMeansEverything<T>(rows: seq<T>, start: Int32, limit: Int32)
    requires start <= 0 && limit <= 0
    ensures Page(rows, PagingFor(start, limit)) == rows
  {
  }

  /** A start with a zero limit asks for `LIMIT 0`: no rows at all. */
  lemma OffsetWithZeroLimitIsEmpty<T>(rows: seq<T>, start: Int32)
    requires start > 0
    ensures Page(rows, PagingFor(start, 0)) == []
  {
  }

  // ---------------------------------------------------------------------
  // the database file name

  const DefaultDbFile := "./databunker.db"

  /** The file DBExists, OpenDB and InitDB use for an optional path: the
      default for a missing or empty path, and `.db` appended to a name of
      three or more characters that does not already end in it. */
  function DbFile(path: Option<string>): (file: string)
    ensures path.None? || path == Some("") ==> file == DefaultDbFile
    ensures path.Some? && |path.value| >= 3 && EndsWith(path.value, ".db") ==> file == path.value
    ensures path.Some? && |path.value| >= 3 && !EndsWith(path.value, ".db") ==> file == path.value + ".db"
    ensures path.Some? && 0 < |path.value| < 3 ==> file == path.value
  {
    var dbfile := if path.Some? && |path.value| > 0 then path.value else DefaultDbFile;
    if |dbfile| >= 3 && dbfile[|dbfile| - 3..] != ".db" then dbfile + ".db" else dbfile
  }

  /** Every normalised name ends in `.db` unless it is a name shorter than
      three characters, and normalising it again changes nothing. */
  lemma DbFileSettles(path: Option<string>)
    ensures var file := DbFile(path);
      EndsWith(file, ".db") || (path.Some? && 0 < |path.value| < 3 && file == path.value)
    ensures DbFile(Some(DbFile(path))) == DbFile(path)
  {
    var file := DbFile(path);
    if path.Some? && |path.value| >= 3 && !EndsWith(path.value, ".db") {
      assert file[|file| - 3..] == ".db";
    }
  }
}
