/** The catalog index that the client builds once, at construction, from the bulk list
    of dataset descriptors: year -> api -> database -> list of tables. */
module Catalog {
  import opened Wrappers
  import opened Seqs
  import opened Strings

  /** One entry of the bulk `dataset` list. Each key may be missing from the JSON
      object: `c_vintage` (the year), `c_dataset` (the path api, database, table) and
      `title` (read only for the error message). */
  datatype Descriptor = Descriptor(vintage: Option<Scalar>, dataset: Option<seq<string>>, title: Option<string>)

  /** year -> api -> database -> tables, the tables in first-seen order. */
  type Index = map<string, map<string, map<string, seq<string>>>>

  /** Why the construction raised: a KeyError for a missing key, or the ValueError
      for a vintage descriptor whose path is empty. */
  datatype Reason = MissingKey(key: string) | NoApi(title: string)

  /** The index as it stood when the construction raised, and why it raised. */
  datatype BuildFailure = BuildFailure(partial: Index, reason: Reason)

  /** The descriptor has a vintage and a path of at least `n` segments. */
  predicate HasPath(d: Descriptor, n: nat)
  {
    d.vintage.Some? && d.dataset.Some? && |d.dataset.value| >= n
  }

  /** The year key of a vintage descriptor: str() of its `c_vintage`. */
  function YearOf(d: Descriptor): string
    requires d.vintage.Some?
  {
    Str(d.vintage.value)
  }

  /** A descriptor that makes the construction raise: it has a vintage but no path. */
  predicate Malformed(d: Descriptor)
  {
    d.vintage.Some? && (d.dataset.None? || |d.dataset.value| == 0)
  }

  function ReasonFor(d: Descriptor): Reason
    requires Malformed(d)
  {
    if d.dataset.None? then MissingKey("c_dataset")
    else if d.title.None? then MissingKey("title")
    else NoApi(d.title.value)
  }

  // Reference definitions: what the descriptors contribute, level by level.

  /** The year keys of all descriptors that have a vintage. */
  function Years(ds: seq<Descriptor>): set<string>
  {
    if ds == [] then {}
    else
      var d := ds[|ds| - 1];
      if d.vintage.Some? then Years(ds[..|ds| - 1]) + {YearOf(d)} else Years(ds[..|ds| - 1])
  }

  /** The first path segments of the descriptors of year `y`. */
  function Apis(ds: seq<Descriptor>, y: string): set<string>
  {
    if ds == [] then {}
    else
      var d := ds[|ds| - 1];
      if HasPath(d, 1) && YearOf(d) == y then Apis(ds[..|ds| - 1], y) + {d.dataset.value[0]}
      else Apis(ds[..|ds| - 1], y)
  }

  /** The second path segments of the descriptors of year `y` and api `a`. */
  function Databases(ds: seq<Descriptor>, y: string, a: string): set<string>
  {
    if ds == [] then {}
    else
      var d := ds[|ds| - 1];
      if HasPath(d, 2) && YearOf(d) == y && d.dataset.value[0] == a
      then Databases(ds[..|ds| - 1], y, a) + {d.dataset.value[1]}
      else Databases(ds[..|ds| - 1], y, a)
  }

  /** The third path segments of the descriptors of (`y`, `a`, `db`), in list order,
      repeats included. */
  function TablesSeen(ds: seq<Descriptor>, y: string, a: string, db: string): seq<string>
  {
    if ds == [] then []
    else
      var d := ds[|ds| - 1];
      if HasPath(d, 3) && YearOf(d) == y && d.dataset.value[0] == a && d.dataset.value[1] == db
      then TablesSeen(ds[..|ds| - 1], y, a, db) + [d.dataset.value[2]]
      else TablesSeen(ds[..|ds| - 1], y, a, db)
  }

  /** `idx` records exactly what the descriptors `ds` contribute. */
  ghost predicate Describes(idx: Index, ds: seq<Descriptor>)
  {
    && idx.Keys == Years(ds)
    && (forall y :: y in idx ==> idx[y].Keys == Apis(ds, y))
    && (forall y, a :: y in idx && a in idx[y] ==> idx[y][a].Keys == Databases(ds, y, a))
    && (forall y, a, db :: y in idx && a in idx[y] && db in idx[y][a] ==>
          idx[y][a][db] == Dedup(TablesSeen(ds, y, a, db)))
  }

  /** The position of the first malformed descriptor, if there is one. */
  function FirstMalformed(ds: seq<Descriptor>): (r: Option<nat>)
    ensures r.None? <==> forall i :: 0 <= i < |ds| ==> !Malformed(ds[i])
    ensures r.Some? ==> r.value < |ds| && Malformed(ds[r.value])
    ensures r.Some? ==> forall j :: 0 <= j < r.value ==> !Malformed(ds[j])
  {
    if ds == [] then None
    else
      var earlier := FirstMalformed(ds[..|ds| - 1]);
      if earlier.Some? then earlier
      else if Malformed(ds[|ds| - 1]) then Some(|ds| - 1)
      else None
  }

  lemma UnfoldYears(ds: seq<Descriptor>, d: Descriptor)
    ensures Years(ds + [d]) == if d.vintage.Some? then Years(ds) + {YearOf(d)} else Years(ds)
  {
    assert (ds + [d])[..|ds|] == ds;
  }

  lemma UnfoldApis(ds: seq<Descriptor>, d: Descriptor, y: string)
    ensures Apis(ds + [d], y) ==
      if HasPath(d, 1) && YearOf(d) == y then Apis(ds, y) + {d.dataset.value[0]} else Apis(ds, y)
  {
    assert (ds + [d])[..|ds|] == ds;
  }

  lemma UnfoldDatabases(ds: seq<Descriptor>, d: Descriptor, y: string, a: string)
    ensures Databases(ds + [d], y, a) ==
      if HasPath(d, 2) && YearOf(d) == y && d.dataset.value[0] == a
      then Databases(ds, y, a) + {d.dataset.value[1]} else Databases(ds, y, a)
  {
    assert (ds + [d])[..|ds|] == ds;
  }

  lemma UnfoldTables(ds: seq<Descriptor>, d: Descriptor, y: string, a: string, db: string)
    ensures TablesSeen(ds + [d], y, a, db) ==
      if HasPath(d, 3) && YearOf(d) == y && d.dataset.value[0] == a && d.dataset.value[1] == db
      then TablesSeen(ds, y, a, db) + [d.dataset.value[2]] else TablesSeen(ds, y, a, db)
  {
    assert (ds + [d])[..|ds|] == ds;
  }

  /** A level below a key that no descriptor contributes is empty. */
  lemma ApisOutside(ds: seq<Descriptor>, y: string)
    requires y !in Years(ds)
    ensures Apis(ds, y) == {}
  {
    if ds != [] {
      ApisOutside(ds[..|ds| - 1], y);
    }
  }

  lemma DatabasesOutside(ds: seq<Descriptor>, y: string, a: string)
    requires a !in Apis(ds, y)
    ensures Databases(ds, y, a) == {}
  {
    if ds != [] {
      DatabasesOutside(ds[..|ds| - 1], y, a);
    }
  }

  lemma TablesOutside(ds: seq<Descriptor>, y: string, a: string, db: string)
    requires db !in Databases(ds, y, a)
    ensures TablesSeen(ds, y, a, db) == []
  {
    if ds != [] {
      TablesOutside(ds[..|ds| - 1], y, a, db);
    }
  }

  // The constructor's four dict updates, one per level of the index.

  function WithYear(idx: Index, y: string): Index
  {
    if y in idx then idx else idx[y := map[]]
  }

  function WithApi(idx: Index, y: string, a: string): Index
    requires y in idx
  {
    if a in idx[y] then idx else idx[y := idx[y][a := map[]]]
  }

  function WithDatabase(idx: Index, y: string, a: string, db: string): Index
    requires y in idx && a in idx[y]
  {
    if db in idx[y][a] then idx else idx[y := idx[y][a := idx[y][a][db := []]]]
  }

  function WithTable(idx: Index, y: string, a: string, db: string, t: string): Index
    requires y in idx && a in idx[y] && db in idx[y][a]
  {
    if t in idx[y][a][db] then idx
    else idx[y := idx[y][a := idx[y][a][db := idx[y][a][db] + [t]]]]
  }

  /** The descriptor with its path cut to its first `n` segments. */
  function Cut(d: Descriptor, n: nat): Descriptor
    requires d.dataset.Some? && n <= |d.dataset.value|
  {
    d.(dataset := Some(d.dataset.value[..n]))
  }

  lemma YearStep(idx: Index, ds: seq<Descriptor>, d: Descriptor)
    requires d.vintage.Some? && !HasPath(d, 1)
    requires Describes(idx, ds)
    ensures Describes(WithYear(idx, YearOf(d)), ds + [d])
  {
    var y := YearOf(d);
    var idx' := WithYear(idx, y);
    UnfoldYears(ds, d);
    forall y' | y' in idx' ensures idx'[y'].Keys == Apis(ds + [d], y') {
      UnfoldApis(ds, d, y');
      if y' !in idx { ApisOutside(ds, y'); }
    }
    forall y', a | y' in idx' && a in idx'[y'] ensures idx'[y'][a].Keys == Databases(ds + [d], y', a) {
      UnfoldDatabases(ds, d, y', a);
    }
    forall y', a, db | y' in idx' && a in idx'[y'] && db in idx'[y'][a]
      ensures idx'[y'][a][db] == Dedup(TablesSeen(ds + [d], y', a, db))
    {
      UnfoldTables(ds, d, y', a, db);
    }
  }

  lemma ApiStep(idx: Index, ds: seq<Descriptor>, d: Descriptor)
    requires HasPath(d, 1)
    requires Describes(idx, ds + [Cut(d, 0)])
    ensures YearOf(d) in idx
    ensures Describes(WithApi(idx, YearOf(d), d.dataset.value[0]), ds + [Cut(d, 1)])
  {
    var c0, c1 := Cut(d, 0), Cut(d, 1);
    var y, a := YearOf(d), d.dataset.value[0];
    UnfoldYears(ds, c0);
    UnfoldYears(ds, c1);
    var idx' := WithApi(idx, y, a);
    forall y' | y' in idx' ensures idx'[y'].Keys == Apis(ds + [c1], y') {
      UnfoldApis(ds, c0, y');
      UnfoldApis(ds, c1, y');
    }
    forall y', a' | y' in idx' && a' in idx'[y'] ensures idx'[y'][a'].Keys == Databases(ds + [c1], y', a') {
      UnfoldDatabases(ds, c0, y', a');
      UnfoldDatabases(ds, c1, y', a');
      if y' == y && a' == a && a !in idx[y] { DatabasesOutside(ds + [c0], y, a); }
    }
    forall y', a', db | y' in idx' && a' in idx'[y'] && db in idx'[y'][a']
      ensures idx'[y'][a'][db] == Dedup(TablesSeen(ds + [c1], y', a', db))
    {
      UnfoldTables(ds, c0, y', a', db);
      UnfoldTables(ds, c1, y', a', db);
    }
  }

  lemma DatabaseStep(idx: Index, ds: seq<Descriptor>, d: Descriptor)
    requires HasPath(d, 2)
    requires Describes(idx, ds + [Cut(d, 1)])
    ensures YearOf(d) in idx && d.dataset.value[0] in idx[YearOf(d)]
    ensures Describes(WithDatabase(idx, YearOf(d), d.dataset.value[0], d.dataset.value[1]), ds + [Cut(d, 2)])
  {
    var c1, c2 := Cut(d, 1), Cut(d, 2);
    var y, a, db := YearOf(d), d.dataset.value[0], d.dataset.value[1];
    UnfoldYears(ds, c1);
    UnfoldYears(ds, c2);
    UnfoldApis(ds, c1, y);
    var idx' := WithDatabase(idx, y, a, db);
    DatabaseKeys(idx, y, a, db);
    forall y' | y' in idx' ensures idx'[y'].Keys == Apis(ds + [c2], y') {
      UnfoldApis(ds, c1, y');
      UnfoldApis(ds, c2, y');
    }
    DatabaseKeysLevel(idx, ds, d);
    DatabaseLevel(idx, ds, d);
  }

  lemma DatabaseKeysLevel(idx: Index, ds: seq<Descriptor>, d: Descriptor)
    requires HasPath(d, 2)
    requires Describes(idx, ds + [Cut(d, 1)])
    requires YearOf(d) in idx && d.dataset.value[0] in idx[YearOf(d)]
    ensures var idx' := WithDatabase(idx, YearOf(d), d.dataset.value[0], d.dataset.value[1]);
      forall y', a' | y' in idx' && a' in idx'[y'] ::
        idx'[y'][a'].Keys == Databases(ds + [Cut(d, 2)], y', a')
  {
    var c1, c2 := Cut(d, 1), Cut(d, 2);
    var y, a, db := YearOf(d), d.dataset.value[0], d.dataset.value[1];
    var idx': Index := WithDatabase(idx, y, a, db);
    DatabaseKeys(idx, y, a, db);
    forall y': string, a': string | y' in idx' && a' in idx'[y'] ensures idx'[y'][a'].Keys == Databases(ds + [c2], y', a') {
      UnfoldDatabases(ds, c1, y', a');
      UnfoldDatabases(ds, c2, y', a');
    }
  }

  /** Adding a database adds one key at the database level and an empty table list. */
  lemma DatabaseKeys(idx: Index, y: string, a: string, db: string)
    requires y in idx && a in idx[y]
    ensures var idx' := WithDatabase(idx, y, a, db);
      && idx'.Keys == idx.Keys
      && (forall y' :: y' in idx ==> idx'[y'].Keys == idx[y'].Keys)
      && (forall y', a' :: y' in idx && a' in idx[y'] ==>
            idx'[y'][a'].Keys == if y' == y && a' == a then idx[y][a].Keys + {db} else idx[y'][a'].Keys)
      && (forall y', a', db' :: y' in idx && a' in idx[y'] && db' in idx'[y'][a'] ==>
            idx'[y'][a'][db'] ==
              if y' == y && a' == a && db' == db && db !in idx[y][a] then [] else idx[y'][a'][db'])
  {
    if db !in idx[y][a] {
      var inner := idx[y][a := idx[y][a][db := []]];
      assert inner.Keys == idx[y].Keys;
    }
  }

  lemma DatabaseLevel(idx: Index, ds: seq<Descriptor>, d: Descriptor)
    requires HasPath(d, 2)
    requires Describes(idx, ds + [Cut(d, 1)])
    requires YearOf(d) in idx && d.dataset.value[0] in idx[YearOf(d)]
    ensures var idx' := WithDatabase(idx, YearOf(d), d.dataset.value[0], d.dataset.value[1]);
      forall y', a', db' | y' in idx' && a' in idx'[y'] && db' in idx'[y'][a'] ::
        idx'[y'][a'][db'] == Dedup(TablesSeen(ds + [Cut(d, 2)], y', a', db'))
  {
    var c1, c2 := Cut(d, 1), Cut(d, 2);
    var y, a, db := YearOf(d), d.dataset.value[0], d.dataset.value[1];
    var idx' := WithDatabase(idx, y, a, db);
    DatabaseKeys(idx, y, a, db);
    forall y', a', db' | y' in idx' && a' in idx'[y'] && db' in idx'[y'][a']
      ensures idx'[y'][a'][db'] == Dedup(TablesSeen(ds + [c2], y', a', db'))
    {
      UnfoldTables(ds, c1, y', a', db');
      UnfoldTables(ds, c2, y', a', db');
      if y' == y && a' == a && db' == db && db !in idx[y][a] { TablesOutside(ds + [c1], y, a, db); }
    }
  }

  lemma TableStep(idx: Index, ds: seq<Descriptor>, d: Descriptor)
    requires HasPath(d, 3)
    requires Describes(idx, ds + [Cut(d, 2)])
    ensures YearOf(d) in idx && d.dataset.value[0] in idx[YearOf(d)]
    ensures d.dataset.value[1] in idx[YearOf(d)][d.dataset.value[0]]
    ensures Describes(WithTable(idx, YearOf(d), d.dataset.value[0], d.dataset.value[1], d.dataset.value[2]),
                      ds + [Cut(d, 3)])
  {
    var c2, c3 := Cut(d, 2), Cut(d, 3);
    var y, a, db, t := YearOf(d), d.dataset.value[0], d.dataset.value[1], d.dataset.value[2];
    UnfoldYears(ds, c2);
    UnfoldYears(ds, c3);
    UnfoldApis(ds, c2, y);
    UnfoldDatabases(ds, c2, y, a);
    var idx' := WithTable(idx, y, a, db, t);
    TableKeys(idx, y, a, db, t);
    forall y' | y' in idx' ensures idx'[y'].Keys == Apis(ds + [c3], y') {
      UnfoldApis(ds, c2, y');
      UnfoldApis(ds, c3, y');
    }
    forall y', a' | y' in idx' && a' in idx'[y'] ensures idx'[y'][a'].Keys == Databases(ds + [c3], y', a') {
      UnfoldDatabases(ds, c2, y', a');
      UnfoldDatabases(ds, c3, y', a');
    }
    TableLevel(idx, ds, d);
  }

  /** Adding a table changes no key above the table lists. */
  lemma TableKeys(idx: Index, y: string, a: string, db: string, t: string)
    requires y in idx && a in idx[y] && db in idx[y][a]
    ensures var idx' := WithTable(idx, y, a, db, t);
      && idx'.Keys == idx.Keys
      && (forall y' :: y' in idx ==> idx'[y'].Keys == idx[y'].Keys)
      && (forall y', a' :: y' in idx && a' in idx[y'] ==> idx'[y'][a'].Keys == idx[y'][a'].Keys)
      && (forall y', a', db' :: y' in idx && a' in idx[y'] && db' in idx[y'][a'] ==>
            idx'[y'][a'][db'] ==
              if y' == y && a' == a && db' == db && t !in idx[y][a][db] then idx[y][a][db] + [t]
              else idx[y'][a'][db'])
  {
    if t !in idx[y][a][db] {
      var inner := idx[y][a][db := idx[y][a][db] + [t]];
      assert inner.Keys == idx[y][a].Keys;
    }
  }

  lemma TableLevel(idx: Index, ds: seq<Descriptor>, d: Descriptor)
    requires HasPath(d, 3)
    requires Describes(idx, ds + [Cut(d, 2)])
    requires YearOf(d) in idx && d.dataset.value[0] in idx[YearOf(d)]
    requires d.dataset.value[1] in idx[YearOf(d)][d.dataset.value[0]]
    ensures var idx' := WithTable(idx, YearOf(d), d.dataset.value[0], d.dataset.value[1], d.dataset.value[2]);
      forall y', a', db' | y' in idx' && a' in idx'[y'] && db' in idx'[y'][a'] ::
        idx'[y'][a'][db'] == Dedup(TablesSeen(ds + [Cut(d, 3)], y', a', db'))
  {
    var c2, c3 := Cut(d, 2), Cut(d, 3);
    var y, a, db, t := YearOf(d), d.dataset.value[0], d.dataset.value[1], d.dataset.value[2];
    var idx' := WithTable(idx, y, a, db, t);
    TableKeys(idx, y, a, db, t);
    forall y', a', db' | y' in idx' && a' in idx'[y'] && db' in idx'[y'][a']
      ensures idx'[y'][a'][db'] == Dedup(TablesSeen(ds + [c3], y', a', db'))
    {
      UnfoldTables(ds, c2, y', a', db');
      UnfoldTables(ds, c3, y', a', db');
      if y' == y && a' == a && db' == db {
        var seen := TablesSeen(ds + [c2], y, a, db);
        DedupSnoc(seen, t);
        DedupElements(seen);
      }
    }
  }

  /** Only the first three segments of a path are read. */
  lemma PathTail(idx: Index, ds: seq<Descriptor>, d: Descriptor, n: nat)
    requires d.dataset.Some? && n <= |d.dataset.value|
    requires n == |d.dataset.value| || n == 3
    requires Describes(idx, ds + [Cut(d, n)])
    ensures Describes(idx, ds + [d])
  {
    var c := Cut(d, n);
    UnfoldYears(ds, c);
    UnfoldYears(ds, d);
    forall y | y in idx ensures idx[y].Keys == Apis(ds + [d], y) {
      UnfoldApis(ds, c, y);
      UnfoldApis(ds, d, y);
    }
    forall y, a | y in idx && a in idx[y] ensures idx[y][a].Keys == Databases(ds + [d], y, a) {
      UnfoldDatabases(ds, c, y, a);
      UnfoldDatabases(ds, d, y, a);
    }
    forall y, a, db | y in idx && a in idx[y] && db in idx[y][a]
      ensures idx[y][a][db] == Dedup(TablesSeen(ds + [d], y, a, db))
    {
      UnfoldTables(ds, c, y, a, db);
      UnfoldTables(ds, d, y, a, db);
    }
  }

  lemma NoVintageStep(idx: Index, ds: seq<Descriptor>, d: Descriptor)
    requires d.vintage.None?
    requires Describes(idx, ds)
    ensures Describes(idx, ds + [d])
  {
    UnfoldYears(ds, d);
    forall y | y in idx ensures idx[y].Keys == Apis(ds + [d], y) {
      UnfoldApis(ds, d, y);
    }
    forall y, a | y in idx && a in idx[y] ensures idx[y][a].Keys == Databases(ds + [d], y, a) {
      UnfoldDatabases(ds, d, y, a);
    }
    forall y, a, db | y in idx && a in idx[y] && db in idx[y][a]
      ensures idx[y][a][db] == Dedup(TablesSeen(ds + [d], y, a, db))
    {
      UnfoldTables(ds, d, y, a, db);
    }
  }

  lemma FirstMalformedSnoc(ds: seq<Descriptor>, d: Descriptor)
    ensures FirstMalformed(ds + [d]) ==
      if FirstMalformed(ds).Some? then FirstMalformed(ds) else if Malformed(d) then Some(|ds|) else None
  {
    assert (ds + [d])[..|ds|] == ds;
  }

  /** One pass of the constructor's loop: inserts the descriptor's year, api, database
      and table, the table only if it is not yet listed. A vintage descriptor without a
      path raises after its year has been inserted; the index at that point is returned
      as the failure. */
  method AddDescriptor(idx: Index, ghost seen: seq<Descriptor>, d: Descriptor) returns (r: Result<Index, Index>)
    requires Describes(idx, seen)
    ensures r.Failure? <==> Malformed(d)
    ensures r.Success? ==> Describes(r.value, seen + [d])
    ensures r.Failure? ==> Describes(r.error, seen + [d]) && YearOf(d) in r.error
  {
    if d.vintage.None? {
      NoVintageStep(idx, seen, d);
      return Success(idx);
    }
    var idx := idx;
    var year := Str(d.vintage.value);
    ghost var before := idx;
    if year !in idx {
      idx := idx[year := map[]];
    }
    if d.dataset.None? || |d.dataset.value| < 1 {
      YearStep(before, seen, d);
      return Failure(idx);
    }
    var path := d.dataset.value;
    YearStep(before, seen, Cut(d, 0));
    before := idx;
    var api := path[0];
    ApiStep(before, seen, d);
    if api !in idx[year] {
      idx := idx[year := idx[year][api := map[]]];
    }
    if |path| < 2 {
      PathTail(idx, seen, d, 1);
      return Success(idx);
    }
    before := idx;
    var database := path[1];
    DatabaseStep(before, seen, d);
    if database !in idx[year][api] {
      idx := idx[year := idx[year][api := idx[year][api][database := []]]];
    }
    if |path| < 3 {
      PathTail(idx, seen, d, 2);
      return Success(idx);
    }
    before := idx;
    var table := path[2];
    TableStep(before, seen, d);
    if table !in idx[year][api][database] {
      idx := idx[year := idx[year][api := idx[year][api][database := idx[year][api][database] + [table]]]];
    }
    PathTail(idx, seen, d, 3);
    return Success(idx);
  }

  /** The constructor's loop over the bulk descriptor list. */
  method Build(ds: seq<Descriptor>) returns (r: Result<Index, BuildFailure>)
    ensures r.Success? <==> FirstMalformed(ds).None?
    ensures r.Success? ==> Describes(r.value, ds)
    ensures r.Failure? ==>
      var k := FirstMalformed(ds).value;
      && r.error.reason == ReasonFor(ds[k])
      && Describes(r.error.partial, ds[..k + 1])
      && YearOf(ds[k]) in r.error.partial
  {
    var idx: Index := map[];
    ghost var seen: seq<Descriptor> := [];
    var i := 0;
    while i < |ds|
      invariant 0 <= i <= |ds| && seen == ds[..i]
      invariant Describes(idx, seen)
      invariant FirstMalformed(seen).None?
    {
      var d := ds[i];
      var step := AddDescriptor(idx, seen, d);
      assert ds[..i + 1] == seen + [d];
      if step.Failure? {
        assert FirstMalformed(ds) == Some(i) by {
          FirstMalformedSnoc(seen, d);
          FirstMalformedExtends(ds, i + 1);
        }
        return Failure(BuildFailure(step.error, ReasonFor(d)));
      }
      assert FirstMalformed(seen + [d]).None? by {
        FirstMalformedSnoc(seen, d);
      }
      seen := seen + [d];
      idx := step.value;
      i := i + 1;
    }
    assert seen == ds;
    r := Success(idx);
  }

  lemma {:induction false} FirstMalformedExtends(ds: seq<Descriptor>, n: nat)
    requires n <= |ds|
    requires FirstMalformed(ds[..n]).Some?
    ensures FirstMalformed(ds) == FirstMalformed(ds[..n])
    decreases |ds| - n
  {
    if n < |ds| {
      assert ds[..n + 1] == ds[..n] + [ds[n]];
      FirstMalformedSnoc(ds[..n], ds[n]);
      FirstMalformedExtends(ds, n + 1);
    } else {
      assert ds[..n] == ds;
    }
  }
  // What the index holds, stated against the descriptor list.

  lemma {:induction false} YearsElements(ds: seq<Descriptor>, y: string)
    ensures y in Years(ds) <==> exists i :: 0 <= i < |ds| && ds[i].vintage.Some? && YearOf(ds[i]) == y
  {
    if ds != [] {
      var p, d := ds[..|ds| - 1], ds[|ds| - 1];
      YearsElements(p, y);
      assert ds == p + [d];
      if exists i :: 0 <= i < |ds| && ds[i].vintage.Some? && YearOf(ds[i]) == y {
        var i :| 0 <= i < |ds| && ds[i].vintage.Some? && YearOf(ds[i]) == y;
        if i < |p| { assert p[i] == ds[i]; }
      }
      if y in Years(p) {
        var i :| 0 <= i < |p| && p[i].vintage.Some? && YearOf(p[i]) == y;
        assert ds[i] == p[i];
      }
    }
  }

  lemma {:induction false} ApisElements(ds: seq<Descriptor>, y: string, a: string)
    ensures a in Apis(ds, y) <==>
      exists i :: 0 <= i < |ds| && HasPath(ds[i], 1) && YearOf(ds[i]) == y && ds[i].dataset.value[0] == a
  {
    if ds != [] {
      var p, d := ds[..|ds| - 1], ds[|ds| - 1];
      ApisElements(p, y, a);
      assert ds == p + [d];
      if exists i :: 0 <= i < |ds| && HasPath(ds[i], 1) && YearOf(ds[i]) == y && ds[i].dataset.value[0] == a {
        var i :| 0 <= i < |ds| && HasPath(ds[i], 1) && YearOf(ds[i]) == y && ds[i].dataset.value[0] == a;
        if i < |p| { assert p[i] == ds[i]; }
      }
      if a in Apis(p, y) {
        var i :| 0 <= i < |p| && HasPath(p[i], 1) && YearOf(p[i]) == y && p[i].dataset.value[0] == a;
        assert ds[i] == p[i];
      }
    }
  }

  lemma {:induction false} DatabasesElements(ds: seq<Descriptor>, y: string, a: string, db: string)
    ensures db in Databases(ds, y, a) <==>
      exists i :: 0 <= i < |ds| && HasPath(ds[i], 2) && YearOf(ds[i]) == y && ds[i].dataset.value[0] == a
        && ds[i].dataset.value[1] == db
  {
    if ds != [] {
      var p, d := ds[..|ds| - 1], ds[|ds| - 1];
      DatabasesElements(p, y, a, db);
      assert ds == p + [d];
      if exists i :: 0 <= i < |ds| && HasPath(ds[i], 2) && YearOf(ds[i]) == y && ds[i].dataset.value[0] == a
           && ds[i].dataset.value[1] == db {
        var i :| 0 <= i < |ds| && HasPath(ds[i], 2) && YearOf(ds[i]) == y && ds[i].dataset.value[0] == a
           && ds[i].dataset.value[1] == db;
        if i < |p| { assert p[i] == ds[i]; }
      }
      if db in Databases(p, y, a) {
        var i :| 0 <= i < |p| && HasPath(p[i], 2) && YearOf(p[i]) == y && p[i].dataset.value[0] == a
           && p[i].dataset.value[1] == db;
        assert ds[i] == p[i];
      }
    }
  }

  lemma {:induction false} TablesElements(ds: seq<Descriptor>, y: string, a: string, db: string, t: string)
    ensures t in TablesSeen(ds, y, a, db) <==>
      exists i :: 0 <= i < |ds| && HasPath(ds[i], 3) && YearOf(ds[i]) == y && ds[i].dataset.value[0] == a
        && ds[i].dataset.value[1] == db && ds[i].dataset.value[2] == t
  {
    if ds != [] {
      var p, d := ds[..|ds| - 1], ds[|ds| - 1];
      TablesElements(p, y, a, db, t);
      assert ds == p + [d];
      if exists i :: 0 <= i < |ds| && HasPath(ds[i], 3) && YearOf(ds[i]) == y && ds[i].dataset.value[0] == a
           && ds[i].dataset.value[1] == db && ds[i].dataset.value[2] == t {
        var i :| 0 <= i < |ds| && HasPath(ds[i], 3) && YearOf(ds[i]) == y && ds[i].dataset.value[0] == a
           && ds[i].dataset.value[1] == db && ds[i].dataset.value[2] == t;
        if i < |p| { assert p[i] == ds[i]; }
      }
      if t in TablesSeen(p, y, a, db) {
        var i :| 0 <= i < |p| && HasPath(p[i], 3) && YearOf(p[i]) == y && p[i].dataset.value[0] == a
           && p[i].dataset.value[1] == db && p[i].dataset.value[2] == t;
        assert ds[i] == p[i];
      }
    }
  }

  /** Every descriptor with a vintage is recorded under `str(c_vintage)`, and each of the
      first three segments of its path is recorded one level further down. */
  lemma Recorded(idx: Index, ds: seq<Descriptor>, i: nat)
    requires Describes(idx, ds)
    requires i < |ds| && ds[i].vintage.Some?
    ensures Str(ds[i].vintage.value) in idx
    ensures HasPath(ds[i], 1) ==> ds[i].dataset.value[0] in idx[YearOf(ds[i])]
    ensures HasPath(ds[i], 2) ==> ds[i].dataset.value[1] in idx[YearOf(ds[i])][ds[i].dataset.value[0]]
    ensures HasPath(ds[i], 3) ==>
      var path := ds[i].dataset.value;
      path[2] in idx[YearOf(ds[i])][path[0]][path[1]]
  {
    var d := ds[i];
    var y := YearOf(d);
    YearsElements(ds, y);
    if HasPath(d, 1) {
      var path := d.dataset.value;
      ApisElements(ds, y, path[0]);
      if HasPath(d, 2) {
        DatabasesElements(ds, y, path[0], path[1]);
        if HasPath(d, 3) {
          TablesElements(ds, y, path[0], path[1], path[2]);
          DedupElements(TablesSeen(ds, y, path[0], path[1]));
        }
      }
    }
  }

  /** Conversely, every key of the index comes from some descriptor with a vintage. */
  lemma Sourced(idx: Index, ds: seq<Descriptor>, y: string, a: string, db: string, t: string)
    requires Describes(idx, ds)
    ensures y in idx ==> exists i :: 0 <= i < |ds| && ds[i].vintage.Some? && YearOf(ds[i]) == y
    ensures y in idx && a in idx[y] ==>
      exists i :: 0 <= i < |ds| && HasPath(ds[i], 1) && YearOf(ds[i]) == y && ds[i].dataset.value[0] == a
    ensures y in idx && a in idx[y] && db in idx[y][a] ==>
      exists i :: 0 <= i < |ds| && HasPath(ds[i], 2) && YearOf(ds[i]) == y && ds[i].dataset.value[0] == a
        && ds[i].dataset.value[1] == db
    ensures y in idx && a in idx[y] && db in idx[y][a] && t in idx[y][a][db] ==>
      exists i :: 0 <= i < |ds| && HasPath(ds[i], 3) && YearOf(ds[i]) == y && ds[i].dataset.value[0] == a
        && ds[i].dataset.value[1] == db && ds[i].dataset.value[2] == t
  {
    YearsElements(ds, y);
    ApisElements(ds, y, a);
    DatabasesElements(ds, y, a, db);
    TablesElements(ds, y, a, db, t);
    if y in idx && a in idx[y] && db in idx[y][a] {
      DedupElements(TablesSeen(ds, y, a, db));
    }
  }

  /** Each table list is free of repeats and lists the tables in the order in which
      they first appear in the descriptor list. */
  lemma TablesFirstSeen(idx: Index, ds: seq<Descriptor>, y: string, a: string, db: string)
    requires Describes(idx, ds)
    requires y in idx && a in idx[y] && db in idx[y][a]
    ensures NoDuplicates(idx[y][a][db])
    ensures forall t :: t in idx[y][a][db] <==> t in TablesSeen(ds, y, a, db)
    ensures var seen, tables := TablesSeen(ds, y, a, db), idx[y][a][db];
      forall i, j :: 0 <= i < j < |tables| ==> FirstIndex(seen, tables[i]) < FirstIndex(seen, tables[j])
  {
    var seen := TablesSeen(ds, y, a, db);
    DedupNoDuplicates(seen);
    DedupElements(seen);
    DedupFirstSeen(seen);
  }

  /** Descriptors without `c_vintage` neither add to nor change the index. */
  lemma NoVintageIgnored(idx: Index, ds: seq<Descriptor>, d: Descriptor)
    requires d.vintage.None?
    ensures Describes(idx, ds + [d]) <==> Describes(idx, ds)
  {
    UnfoldYears(ds, d);
    forall y ensures Apis(ds + [d], y) == Apis(ds, y) {
      UnfoldApis(ds, d, y);
    }
    forall y, a ensures Databases(ds + [d], y, a) == Databases(ds, y, a) {
      UnfoldDatabases(ds, d, y, a);
    }
    forall y, a, db ensures TablesSeen(ds + [d], y, a, db) == TablesSeen(ds, y, a, db) {
      UnfoldTables(ds, d, y, a, db);
    }
  }

  /** The descriptor list determines the index completely. */
  lemma DescribesUnique(i1: Index, i2: Index, ds: seq<Descriptor>)
    requires Describes(i1, ds) && Describes(i2, ds)
    ensures i1 == i2
  {
    forall y | y in i1 ensures i1[y] == i2[y] {
      forall a | a in i1[y] ensures i1[y][a] == i2[y][a] {
        assert i1[y][a].Keys == i2[y][a].Keys;
      }
      assert i1[y].Keys == i2[y].Keys;
    }
  }

  /** A single descriptor with a one-segment path yields an empty api map, one with a
      two-segment path an empty table list, and one with three segments a one-table list. */
  lemma SingleDescriptor(idx: Index, d: Descriptor)
    requires HasPath(d, 1) && Describes(idx, [d])
    ensures var y, path := YearOf(d), d.dataset.value;
      if |path| == 1 then idx == map[y := map[path[0] := map[]]]
      else if |path| == 2 then idx == map[y := map[path[0] := map[path[1] := []]]]
      else idx == map[y := map[path[0] := map[path[1] := [path[2]]]]]
  {
    SingleExpected(d);
    DescribesUnique(idx, Expected(d), [d]);
  }

  /** The index of a single descriptor, by the length of its path. */
  function Expected(d: Descriptor): Index
    requires HasPath(d, 1)
  {
    var y, path := YearOf(d), d.dataset.value;
    if |path| == 1 then map[y := map[path[0] := map[]]]
    else if |path| == 2 then map[y := map[path[0] := map[path[1] := []]]]
    else map[y := map[path[0] := map[path[1] := [path[2]]]]]
  }

  lemma SingleExpected(d: Descriptor)
    requires HasPath(d, 1)
    ensures Describes(Expected(d), [d])
  {
    var y, path := YearOf(d), d.dataset.value;
    var e := Expected(d);
    SingleLevels(d);
    assert e.Keys == {y} && e[y].Keys == {path[0]};
    assert forall y' :: y' in e ==> e[y'].Keys == Apis([d], y');
    if |path| == 1 {
      assert e[y][path[0]] == map[];
    } else if |path| == 2 {
      assert e[y][path[0]] == map[path[1] := []];
      assert Dedup<string>([]) == [];
    } else {
      assert e[y][path[0]] == map[path[1] := [path[2]]];
      assert Dedup([path[2]]) == [path[2]] by { DedupSnoc([], path[2]); assert [] + [path[2]] == [path[2]]; }
    }
  }

  /** What one descriptor contributes, level by level. */
  lemma SingleLevels(d: Descriptor)
    requires HasPath(d, 1)
    ensures var y, path := YearOf(d), d.dataset.value;
      && Years([d]) == {y}
      && (forall y' :: Apis([d], y') == if y == y' then {path[0]} else {})
      && (forall y', a' :: Databases([d], y', a') ==
            if HasPath(d, 2) && y == y' && path[0] == a' then {path[1]} else {})
      && (forall y', a', db' :: TablesSeen([d], y', a', db') ==
            if HasPath(d, 3) && y == y' && path[0] == a' && path[1] == db' then [path[2]] else [])
  {
    var path := d.dataset.value;
    UnfoldYears([], d);
    assert [] + [d] == [d];
    forall y' ensures Apis([d], y') == if YearOf(d) == y' then {path[0]} else {} {
      UnfoldApis([], d, y');
    }
    forall y', a' ensures Databases([d], y', a') ==
      if HasPath(d, 2) && YearOf(d) == y' && path[0] == a' then {path[1]} else {}
    {
      UnfoldDatabases([], d, y', a');
    }
    forall y', a', db' ensures TablesSeen([d], y', a', db') ==
      if HasPath(d, 3) && YearOf(d) == y' && path[0] == a' && path[1] == db' then [path[2]] else []
    {
      UnfoldTables([], d, y', a', db');
    }
  }
}
