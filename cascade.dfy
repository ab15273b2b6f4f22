/** What the setters, getters and requests of the configuration promise: which fields a
    setter clears, when it accepts its argument, what the variable and geography lists
    become, which field a failing getter names, and what the data-pull URL holds. */
module Cascade {
  import opened Wrappers
  import opened Seqs
  import opened Strings
  import opened Dicts
  import opened Configuration
  import Catalog
  import Metadata = Variables
  import Urls

  lemma {:induction false} SetPrefixAgree(c: Config, c': Config, fields: seq<Field>)
    requires forall g :: g in fields ==> (IsSet(c, g) <==> IsSet(c', g))
    ensures SetPrefix(c, fields) == SetPrefix(c', fields)
    decreases |fields|
  {
    if fields != [] {
      assert fields[0] in fields;
      assert forall g :: g in fields[1..] ==> g in fields;
      SetPrefixAgree(c, c', fields[1..]);
    }
  }

  /** The `try`/`del` block deletes exactly the leading fields of its list that are set, and
      leaves every other field as it was: it stops at the first field already unset. */
  lemma {:induction false} DeleteChainExact(c: Config, fields: seq<Field>)
    requires NoDuplicates(fields)
    ensures var r, k := DeleteChain(c, fields), SetPrefix(c, fields);
      && (forall i :: 0 <= i < k ==> !IsSet(r, fields[i]))
      && (forall g :: g !in fields[..k] ==> Agree(r, c, g))
    decreases |fields|
  {
    AgreeLaws();
    if fields != [] && IsSet(c, fields[0]) {
      var f, rest := fields[0], fields[1..];
      var c' := Unset(c, f);
      assert f !in rest by {
        forall j | 0 <= j < |rest| ensures rest[j] != f {
          assert rest[j] == fields[j + 1];
        }
      }
      assert NoDuplicates(rest) by {
        forall i, j | 0 <= i < j < |rest| ensures rest[i] != rest[j] {
          assert rest[i] == fields[i + 1] && rest[j] == fields[j + 1];
        }
      }
      SetPrefixAgree(c, c', rest);
      DeleteChainExact(c', rest);
      var r, k := DeleteChain(c, fields), SetPrefix(c, fields);
      assert r == DeleteChain(c', rest);
      assert k == 1 + SetPrefix(c', rest);
      forall i | 0 <= i < k ensures !IsSet(r, fields[i]) {
        if i == 0 {
          assert Agree(r, c', f);
        } else {
          assert fields[i] == rest[i - 1];
        }
      }
      forall g | g !in fields[..k] ensures Agree(r, c, g) {
        assert fields[..k] == [f] + rest[..k - 1];
        assert g != f && g !in rest[..k - 1];
      }
    }
  }

  lemma DependentsDistinct()
    ensures NoDuplicates(YearDependents) && NoDuplicates(ApiDependents)
    ensures NoDuplicates(DatabaseDependents) && NoDuplicates(TableDependents)
    ensures NoDuplicates([Variables])
  {
  }

  /** A failing chain of getters names its first unset field. */
  predicate NamesFirstUnset(e: Error, c: Config, chain: seq<Field>)
  {
    exists k :: 0 <= k < |chain| && e == NotConfigured(chain[k]) && !IsSet(c, chain[k])
      && forall i :: 0 <= i < k ==> IsSet(c, chain[i])
  }

  lemma RequireNamesFirstUnset(c: Config, chain: seq<Field>)
    ensures Require(c, chain).Fail? ==> NamesFirstUnset(Require(c, chain).error, c, chain)
  {
    var k := SetPrefix(c, chain);
    if k < |chain| {
      assert chain[k] in chain;
    }
  }

  /** Calling the getters of a chain: the first one raises when its field is unset,
      otherwise the rest of the chain decides. */
  lemma RequireStep(c: Config, f: Field, rest: seq<Field>)
    ensures Require(c, [f] + rest) == if IsSet(c, f) then Require(c, rest) else Fail(NotConfigured(f))
  {
    assert ([f] + rest)[1..] == rest;
  }

  /** The chain's getters raise for the first unset field. */
  lemma RequireFirstUnset(c: Config, chain: seq<Field>, i: nat)
    requires i < |chain| && !IsSet(c, chain[i])
    requires forall j :: 0 <= j < i ==> IsSet(c, chain[j])
    ensures Require(c, chain) == Fail(NotConfigured(chain[i]))
  {
    var k := SetPrefix(c, chain);
    assert k == i;
  }

  /** `get_year` raises exactly when no year is stored; after `set_year` it returns
      `str(year)` when the catalog lists it, and otherwise what it returned before. */
  lemma GetYearReports(c: Config, idx: Catalog.Index, year: Scalar)
    ensures GetYear(c).Failure? <==> c.year.None?
    ensures GetYear(c).Failure? ==> NamesFirstUnset(GetYear(c).error, c, [Year])
    ensures GetYear(Fresh).Failure?
    ensures GetYear(SetYear(c, idx, year).config)
            == if Str(year) in PullYears(idx) then Success(Str(year)) else GetYear(c)
  {
    RequireNamesFirstUnset(c, [Year]);
    RequireStep(c, Year, []);
    DependentsDistinct();
    DeleteChainExact(c, YearDependents);
    var k := SetPrefix(c, YearDependents);
    assert Year !in YearDependents[..k] by {
      assert forall i :: 0 <= i < k ==> YearDependents[..k][i] == YearDependents[i];
    }
  }

  /** `get_api` raises exactly when no api is stored, and its message first asks for the
      year when that is unset too. */
  lemma GetApiReports(c: Config)
    ensures GetApi(c).Failure? <==> c.api.None?
    ensures GetApi(c).Failure? ==> NamesFirstUnset(GetApi(c).error, c, [Year, Api])
  {
    RequireNamesFirstUnset(c, [Year, Api]);
  }

  /** `get_database` raises exactly when no database is stored, naming the first unset
      field among year, api and database. */
  lemma GetDatabaseReports(c: Config)
    ensures GetDatabase(c).Failure? <==> c.database.None?
    ensures GetDatabase(c).Failure? ==> NamesFirstUnset(GetDatabase(c).error, c, [Year, Api, Database])
  {
    RequireNamesFirstUnset(c, [Year, Api, Database]);
  }

  /** `get_table` raises exactly when no table is stored, naming the first unset field of
      the path. */
  lemma GetTableReports(c: Config)
    ensures GetTable(c).Failure? <==> c.table.None?
    ensures GetTable(c).Failure? ==> NamesFirstUnset(GetTable(c).error, c, TableChain)
  {
    RequireNamesFirstUnset(c, TableChain);
  }

  /** `get_concepts` raises exactly when no concepts are stored, naming the first unset
      field of the path and the concepts. */
  lemma GetConceptsReports(c: Config)
    ensures GetConcepts(c).Failure? <==> c.concepts.None?
    ensures GetConcepts(c).Failure? ==> NamesFirstUnset(GetConcepts(c).error, c, TableChain + [Concepts])
  {
    RequireNamesFirstUnset(c, TableChain + [Concepts]);
  }

  /** `get_geography` raises exactly when no geography is stored, naming the first unset
      field of the path and the geography. */
  lemma GetGeographyReports(c: Config)
    ensures GetGeography(c).Failure? <==> c.geography.None?
    ensures GetGeography(c).Failure? ==> NamesFirstUnset(GetGeography(c).error, c, GeographyChain)
  {
    RequireNamesFirstUnset(c, GeographyChain);
  }

  /** `get_variables` raises only while the attribute is unassigned: on a new client and
      after `set_concepts` deletes it. `clear_variables` makes it return None, and
      `add_variable` always leaves a list, which `variable` joins when it succeeds. */
  lemma GetVariablesReports(c: Config, args: seq<string>, doc: Metadata.Document, v: string, fetched: seq<string>)
    ensures GetVariables(c).Failure? <==> c.variables.Missing?
    ensures GetVariables(c) == Success(None) <==> c.variables.Null?
    ensures GetVariables(Fresh).Failure?
    ensures GetVariables(SetConcepts(c, args, doc).config).Failure?
    ensures GetVariables(ClearVariables(c)) == Success(None)
    ensures var s := AddVariable(c, v, fetched);
      && GetVariables(s.config).Success? && GetVariables(s.config).value.Some?
      && (s.outcome.Pass? ==> v in GetVariables(s.config).value.value)
      && (s.outcome.Fail? ==> GetVariables(s.config) == Success(Some([])))
  {
    DependentsDistinct();
    DeleteChainExact(c, [Variables]);
  }

  /** `get_geography_values` fails only while the attribute is unassigned, as on a new
      client. `set_geography` resets it to None and, on success, to the wildcard alone;
      a value that `add_geography_value` accepts ends the list. */
  lemma GetGeographyValuesReports(c: Config, geography: string, names: seq<string>, value: Scalar, codes: seq<string>)
    ensures GetGeographyValues(c).Failure? <==> c.geographyValues.Missing?
    ensures GetGeographyValues(c) == Success(None) <==> c.geographyValues.Null?
    ensures GetGeographyValues(Fresh).Failure?
    ensures var s := SetGeography(c, geography, names);
      GetGeographyValues(s.config) == if s.outcome.Pass? then Success(Some(["*"])) else Success(None)
    ensures var s := AddGeographyValue(c, value, codes);
      var g := GetGeographyValues(s.config);
      && (s.outcome.Pass? ==> g.Success? && g.value.Some? && |g.value.value| > 0)
      && (s.outcome.Pass? ==> g.value.value[|g.value.value| - 1] == Str(value))
      && (s.outcome.Fail? ==> g == GetGeographyValues(c))
  {
  }

  /** Fields other than those listed keep their values. */
  predicate Keeps(c': Config, c: Config, changed: set<Field>)
  {
    forall g :: g !in changed ==> Agree(c', c, g)
  }

  /** A configuration that differs from another at most in one field keeps the rest. */
  lemma KeepsAllBut(c': Config, c: Config, own: Field)
    requires own == Year || c'.year == c.year
    requires own == Api || c'.api == c.api
    requires own == Database || c'.database == c.database
    requires own == Table || c'.table == c.table
    requires own == Concepts || c'.concepts == c.concepts
    requires own == Variables || c'.variables == c.variables
    requires own == Geography || c'.geography == c.geography
    requires own == GeographyValues || c'.geographyValues == c.geographyValues
    ensures Keeps(c', c, {own})
  {
  }

  /** The effect of a setter's `del` block: the leading set fields of its list are
      deleted, every other field is kept. */
  predicate Cleared(c': Config, c: Config, dependents: seq<Field>, own: Field)
  {
    var k := SetPrefix(c, dependents);
    && (forall i :: 0 <= i < k ==> !IsSet(c', dependents[i]))
    && (forall g :: g !in dependents[..k] && g != own ==> Agree(c', c, g))
  }

  /** A field outside the dependents and other than the setter's own is untouched. */
  lemma ClearedKeeps(c': Config, c: Config, dependents: seq<Field>, own: Field, g: Field)
    requires Cleared(c', c, dependents, own)
    requires g !in dependents && g != own
    ensures Agree(c', c, g)
  {
    var k := SetPrefix(c, dependents);
    assert g !in dependents[..k] by {
      assert forall x :: x in dependents[..k] ==> x in dependents;
    }
  }

  lemma ClearedByChain(c: Config, dependents: seq<Field>, own: Field, c': Config)
    requires NoDuplicates(dependents) && own !in dependents
    requires Keeps(c', DeleteChain(c, dependents), {own})
    ensures Cleared(c', c, dependents, own)
  {
    AgreeLaws();
    DeleteChainExact(c, dependents);
    var k := SetPrefix(c, dependents);
    forall i | 0 <= i < k ensures !IsSet(c', dependents[i]) {
      assert dependents[i] in dependents;
    }
  }

  /** `pull_databases` needs a year and an api, asked for in that order. */
  lemma PullDatabasesSpec(c: Config, idx: Catalog.Index)
    requires Known(c, idx)
    ensures PullDatabases(c, idx) ==
      if c.year.None? then Failure(NotConfigured(Year))
      else if c.api.None? then Failure(NotConfigured(Api))
      else Success(idx[c.year.value][c.api.value].Keys)
  {
    RequireStep(c, Year, [Api]);
    RequireStep(c, Api, []);
  }

  /** `pull_tables` needs a year, an api and a database, asked for in that order. */
  lemma PullTablesSpec(c: Config, idx: Catalog.Index)
    requires Known(c, idx)
    ensures PullTables(c, idx) ==
      if c.year.None? then Failure(NotConfigured(Year))
      else if c.api.None? then Failure(NotConfigured(Api))
      else if c.database.None? then Failure(NotConfigured(Database))
      else Success(idx[c.year.value][c.api.value][c.database.value])
  {
    RequireStep(c, Year, [Api, Database]);
    RequireStep(c, Api, [Database]);
    RequireStep(c, Database, []);
  }

  /** `set_year` clears its dependents before it validates, and stores `str(year)`
      exactly when that is a year of the catalog; otherwise it raises and keeps the year. */
  lemma SetYearSpec(c: Config, idx: Catalog.Index, year: Scalar)
    ensures var s := SetYear(c, idx, year);
      && Cleared(s.config, c, YearDependents, Year)
      && (s.outcome.Pass? <==> Str(year) in idx)
      && (s.outcome.Pass? ==> s.config.year == Some(Str(year)))
      && (s.outcome.Fail? ==> s.config.year == c.year && s.outcome.error == InvalidSelection(Year))
  {
    var c1 := DeleteChain(c, YearDependents);
    var s := SetYear(c, idx, year);
    assert s.config == c1 || s.config == c1.(year := Some(Str(year)));
    KeepsAllBut(s.config, c1, Year);
    DependentsDistinct();
    ClearedByChain(c, YearDependents, Year, s.config);
  }

  /** `set_api` clears its dependents, needs a year, and stores an api of that year. */
  lemma SetApiSpec(c: Config, idx: Catalog.Index, api: string)
    requires Known(c, idx)
    ensures var s := SetApi(c, idx, api);
      && Cleared(s.config, c, ApiDependents, Api)
      && (s.outcome.Pass? <==> c.year.Some? && api in idx[c.year.value])
      && (s.outcome.Pass? ==> s.config.api == Some(api))
      && (s.outcome.Fail? ==> s.config.api == c.api)
      && (s.outcome.Fail? ==> s.outcome.error == if c.year.None? then NotConfigured(Year) else InvalidSelection(Api))
  {
    var c1 := DeleteChain(c, ApiDependents);
    assert Cleared(SetApi(c, idx, api).config, c, ApiDependents, Api) by {
      var s := SetApi(c, idx, api);
      assert s.config == c1 || s.config == c1.(api := Some(api));
      KeepsAllBut(s.config, c1, Api);
      DependentsDistinct();
      ClearedByChain(c, ApiDependents, Api, s.config);
    }
    assert c1.year == c.year && c1.api == c.api by {
      assert Agree(c1, c, Year) && Agree(c1, c, Api);
    }
  }

  /** `set_database` clears its dependents, needs a year and an api, and stores a database
      of that api. */
  lemma SetDatabaseSpec(c: Config, idx: Catalog.Index, database: string)
    requires Known(c, idx)
    ensures var s := SetDatabase(c, idx, database);
      && Cleared(s.config, c, DatabaseDependents, Database)
      && (s.outcome.Pass? <==>
            c.year.Some? && c.api.Some? && database in idx[c.year.value][c.api.value])
      && (s.outcome.Pass? ==> s.config.database == Some(database))
      && (s.outcome.Fail? ==> s.config.database == c.database)
      && (s.outcome.Fail? ==>
            s.outcome.error == if c.year.None? then NotConfigured(Year)
                               else if c.api.None? then NotConfigured(Api)
                               else InvalidSelection(Database))
  {
    var c1 := DeleteChain(c, DatabaseDependents);
    DeleteChainKnown(c, idx, DatabaseDependents);
    assert Cleared(SetDatabase(c, idx, database).config, c, DatabaseDependents, Database) by {
      var s := SetDatabase(c, idx, database);
      assert s.config == c1 || s.config == c1.(database := Some(database));
      KeepsAllBut(s.config, c1, Database);
      DependentsDistinct();
      ClearedByChain(c, DatabaseDependents, Database, s.config);
    }
    assert c1.year == c.year && c1.api == c.api && c1.database == c.database by {
      assert Agree(c1, c, Year) && Agree(c1, c, Api) && Agree(c1, c, Database);
    }
    PullDatabasesSpec(c1, idx);
  }

  /** `set_table` clears its dependents, needs a year, an api and a database, and stores a
      table of that database or the `detail` sentinel, which it does not look up. */
  lemma SetTableSpec(c: Config, idx: Catalog.Index, table: string)
    requires Known(c, idx)
    ensures var s := SetTable(c, idx, table);
      && Cleared(s.config, c, TableDependents, Table)
      && (s.outcome.Pass? <==>
            c.year.Some? && c.api.Some? && c.database.Some?
            && (table == Urls.Detail || table in idx[c.year.value][c.api.value][c.database.value]))
      && (s.outcome.Pass? ==> s.config.table == Some(table))
      && (s.outcome.Fail? ==> s.config.table == c.table)
      && (s.outcome.Fail? ==>
            s.outcome.error == if c.year.None? then NotConfigured(Year)
                               else if c.api.None? then NotConfigured(Api)
                               else if c.database.None? then NotConfigured(Database)
                               else InvalidSelection(Table))
  {
    var c1 := DeleteChain(c, TableDependents);
    DeleteChainKnown(c, idx, TableDependents);
    assert Cleared(SetTable(c, idx, table).config, c, TableDependents, Table) by {
      var s := SetTable(c, idx, table);
      assert s.config == c1 || s.config == c1.(table := Some(table));
      KeepsAllBut(s.config, c1, Table);
      DependentsDistinct();
      ClearedByChain(c, TableDependents, Table, s.config);
    }
    assert c1.year == c.year && c1.api == c.api && c1.database == c.database && c1.table == c.table by {
      assert Agree(c1, c, Year) && Agree(c1, c, Api) && Agree(c1, c, Database) && Agree(c1, c, Table);
    }
    PullTablesSpec(c1, idx);
  }

  /** The clearing stops at the first unset field: when concepts were never set,
      `set_year` leaves the variables and the geography as they were. */
  lemma GeographySurvivesSetYear(c: Config, idx: Catalog.Index, year: Scalar)
    requires c.concepts.None?
    ensures SetYear(c, idx, year).config.geography == c.geography
    ensures SetYear(c, idx, year).config.variables == c.variables
  {
    SetYearSpec(c, idx, year);
    var k := SetPrefix(c, YearDependents);
    assert YearDependents[3] == Concepts && !IsSet(c, Concepts);
    assert k <= 3;
    var s := SetYear(c, idx, year).config;
    assert YearDependents[..k] <= [Api, Database, Table];
    assert Geography !in YearDependents[..k] && Variables !in YearDependents[..k];
    assert Agree(s, c, Geography) && Agree(s, c, Variables);
  }

  /** When every dependent is set, `set_year` clears them all. */
  lemma SetYearClearsAllSet(c: Config, idx: Catalog.Index, year: Scalar)
    requires forall g :: g in YearDependents ==> IsSet(c, g)
    ensures var s := SetYear(c, idx, year).config;
      forall g :: g in YearDependents ==> !IsSet(s, g)
  {
    SetYearSpec(c, idx, year);
    var k := SetPrefix(c, YearDependents);
    assert forall i :: 0 <= i < |YearDependents| ==> IsSet(c, YearDependents[i]);
    assert k == |YearDependents|;
  }

  /** No setter of the catalog path touches the geography values. */
  lemma PathSettersKeepGeographyValues(c: Config, idx: Catalog.Index, year: Scalar, name: string)
    requires Known(c, idx)
    ensures SetYear(c, idx, year).config.geographyValues == c.geographyValues
    ensures SetApi(c, idx, name).config.geographyValues == c.geographyValues
    ensures SetDatabase(c, idx, name).config.geographyValues == c.geographyValues
    ensures SetTable(c, idx, name).config.geographyValues == c.geographyValues
  {
    SetYearSpec(c, idx, year);
    ClearedKeeps(SetYear(c, idx, year).config, c, YearDependents, Year, GeographyValues);
    SetApiSpec(c, idx, name);
    ClearedKeeps(SetApi(c, idx, name).config, c, ApiDependents, Api, GeographyValues);
    SetDatabaseSpec(c, idx, name);
    ClearedKeeps(SetDatabase(c, idx, name).config, c, DatabaseDependents, Database, GeographyValues);
    SetTableSpec(c, idx, name);
    ClearedKeeps(SetTable(c, idx, name).config, c, TableDependents, Table, GeographyValues);
  }
}
