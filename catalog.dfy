/** The table catalog of storage.go: the closed `Tbl` enumeration of the
    vault's own tables with their fixed names, and the process-wide list
    `knownApps` of every table the database holds, which caps the number of
    application tables a client may create. */
module Catalog {
  import opened GoLang

  /** The table names in `Tbl` order: `TblName.Users` is 0, ...,
      `TblName.Processingactivities` is 8. */
  const CoreTables: seq<string> := ["users", "audit", "xtokens", "sessions", "requests",
                                    "legalbasis", "agreements", "sharedrecords",
                                    "processingactivities"]

  /** The cap on `knownApps` that ValidateNewApp enforces. */
  const MaxApps := 10

  /** `getTable`: the name of an enum value, `users` for any other number. */
  function GetTable(t: int): (name: string)
    ensures 0 <= t < |CoreTables| ==> name == CoreTables[t]
    ensures !(0 <= t < |CoreTables|) ==> name == "users"
  {
    if t == 0 then "users"
    else if t == 1 then "audit"
    else if t == 2 then "xtokens"
    else if t == 3 then "sessions"
    else if t == 4 then "requests"
    else if t == 5 then "legalbasis"
    else if t == 6 then "agreements"
    else if t == 7 then "sharedrecords"
    else if t == 8 then "processingactivities"
    else "users"
  }

  /** Every number names a core table, and only `users` is named twice. */
  lemma GetTableNames(t: int, u: int)
    ensures GetTable(t) in CoreTables
    ensures GetTable(t) == GetTable(u) && GetTable(t) != "users" ==> t == u
    ensures GetTable(t) == "users" <==> !(1 <= t < |CoreTables|)
  {
  }

  /** The set `contains` builds from `slice`, one element per loop step. */
  function Elements(slice: seq<string>): set<string>
    decreases |slice|
  {
    if |slice| == 0 then {} else Elements(slice[..|slice| - 1]) + {slice[|slice| - 1]}
  }

  lemma {:induction false} ElementsAreMembers(slice: seq<string>)
    ensures forall s :: s in Elements(slice) <==> s in slice
    decreases |slice|
  {
    if |slice| > 0 {
      var init := slice[..|slice| - 1];
      ElementsAreMembers(init);
      assert slice == init + [slice[|slice| - 1]];
    }
  }

  /** `contains`: looks `item` up in the set of the slice's elements. */
  function Contains(slice: seq<string>, item: string): (ok: bool)
    ensures ok <==> item in slice
  {
    ElementsAreMembers(slice);
    item in Elements(slice)
  }

  /** ValidateNewApp's rule: a known table is always accepted, a new one
      only while fewer than ten tables are known. */
  function Admits(apps: seq<string>, app: string): (ok: bool)
    ensures ok <==> app in apps || |apps| < MaxApps
  {
    if Contains(apps, app) then true
    else if |apps| >= MaxApps then false
    else true
  }

  /** IndexNewApp's rule: a new name is recorded once its table and index
      were created, and a known name leaves the list alone. */
  function Registered(apps: seq<string>, app: string, created: bool): (r: seq<string>)
    ensures app in apps ==> r == apps
    ensures app !in apps && created ==> r == apps + [app]
    ensures !created ==> r == apps
  {
    if !Contains(apps, app) then
      if created then apps + [app] else apps
    else apps
  }

  predicate NoDuplicates(apps: seq<string>)
  {
    forall i, j :: 0 <= i < j < |apps| ==> apps[i] != apps[j]
  }

  /** Registering a name again changes nothing, and no name is recorded twice. */
  lemma RegisteredIdempotent(apps: seq<string>, app: string, created: bool, again: bool)
    requires NoDuplicates(apps)
    ensures created ==> Registered(Registered(apps, app, created), app, again) == Registered(apps, app, created)
    ensures NoDuplicates(Registered(apps, app, created))
    ensures created ==> app in Registered(apps, app, created)
  {
  }

  /** The catalog after a client run in which each of `names` is first
      validated and, when admitted, indexed; `created[i]` says whether the
      i-th table creation succeeds. */
  function GuardedRun(apps: seq<string>, names: seq<string>, created: seq<bool>): seq<string>
    requires |created| == |names|
    decreases |names|
  {
    if |names| == 0 then apps
    else
      var before := GuardedRun(apps, names[..|names| - 1], created[..|names| - 1]);
      var app := names[|names| - 1];
      if Admits(before, app) then Registered(before, app, created[|names| - 1]) else before
  }

  /** Validating before indexing keeps the catalog within the cap. */
  lemma {:induction false} GuardedRunKeepsCap(apps: seq<string>, names: seq<string>, created: seq<bool>)
    requires |created| == |names| && |apps| <= MaxApps
    ensures |GuardedRun(apps, names, created)| <= MaxApps
    ensures forall a :: a in apps ==> a in GuardedRun(apps, names, created)
    decreases |names|
  {
    if |names| > 0 {
      GuardedRunKeepsCap(apps, names[..|names| - 1], created[..|names| - 1]);
    }
  }

  /** IndexNewApp enforces no cap of its own: a caller that skips
      ValidateNewApp can grow the catalog past ten. */
  lemma UnguardedIndexPassesCap()
    ensures var apps := CoreTables + ["app1"];
      |apps| == MaxApps && !Admits(apps, "app2") && |Registered(apps, "app2", true)| == MaxApps + 1
  {
    var apps := CoreTables + ["app1"];
    assert apps[9] == "app1";
    assert "app2" !in apps;
  }

  /** OpenDB loads every table of the database, the nine core tables among
      them, so a fresh database has room for exactly one application table. */
  lemma CoreTablesLeaveOneSlot(first: string, second: string)
    requires first !in CoreTables && second !in CoreTables && first != second
    ensures Admits(CoreTables, first)
    ensures !Admits(Registered(CoreTables, first, true), second)
  {
  }

  /** The package-level catalog state: the `knownApps` slice. */
  class KnownApps {
    var knownApps: seq<string>

    constructor ()
      ensures knownApps == []
    {
      knownApps := [];
    }

    /** OpenDB's loop over `select name from sqlite_master`: appends every
        table name the query returns, in order. */
    method LoadTables(names: seq<string>)
      modifies this
      ensures knownApps == old(knownApps) + names
    {
      var i := 0;
      while i < |names|
        invariant 0 <= i <= |names|
        invariant knownApps == old(knownApps) + names[..i]
      {
        knownApps := knownApps + [names[i]];
        assert names[..i + 1] == names[..i] + [names[i]];
        i := i + 1;
      }
      assert names[..i] == names;
    }

    method GetAllTables() returns (tables: seq<string>, err: Option<string>)
      ensures tables == knownApps && err == None
    {
      tables := knownApps;
      err := None;
    }

    function ValidateNewApp(appName: string): (ok: bool)
      reads this
      ensures ok <==> appName in knownApps || |knownApps| < MaxApps
    {
      Admits(knownApps, appName)
    }

    /** `execErr` is the error, if any, of running the `CREATE TABLE` and
        `CREATE INDEX` statements for the new table. */
    method IndexNewApp(appName: string, execErr: Option<string>)
      modifies this
      ensures knownApps == Registered(old(knownApps), appName, execErr == None)
    {
      if Contains(knownApps, appName) == false {
        if execErr == None {
          knownApps := knownApps + [appName];
        }
      }
    }
  }
}
