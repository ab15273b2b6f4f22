/** What the selections below the table promise (concepts, variables, geography and its
    values), that every setter keeps the configuration valid, and what the request URLs
    of a configuration hold. */
module Selections {
  import opened Wrappers
  import opened Seqs
  import opened Strings
  import opened Dicts
  import opened Configuration
  import Catalog
  import Metadata = Variables
  import Urls
  import Cascade

  /** Two configurations that agree on whether the fields of a chain are set fail the
      chain's getters alike. */
  lemma RequireAgree(c: Config, c': Config, chain: seq<Field>)
    requires forall g :: g in chain ==> (IsSet(c, g) <==> IsSet(c', g))
    ensures Require(c, chain) == Require(c', chain)
  {
    Cascade.SetPrefixAgree(c, c', chain);
  }

  // Concepts.

  /** The loop of `set_concepts` passes when there is nothing to check, or when the table
      is selected and every argument is a concept of its variables document; it raises
      the getters' error first, and otherwise rejects the concepts. */
  lemma {:induction false} CheckConceptsSpec(c: Config, args: seq<string>, doc: Metadata.Document)
    ensures var r, t := CheckConcepts(c, args, doc), Require(c, TableChain);
      && (r.Pass? <==>
            (args == [] || (t.Pass? && forall i :: 0 <= i < |args| ==> args[i] in Keys(Metadata.Grouped(doc)))))
      && (r.Fail? ==> r.error == if t.Fail? then t.error else InvalidSelection(Concepts))
    decreases |args|
  {
    if args != [] && Require(c, TableChain).Pass? {
      CheckConceptsSpec(c, args[1..], doc);
      if args[0] in Keys(Metadata.Grouped(doc)) {
        forall i | 0 < i < |args| ensures args[i] == args[1..][i - 1] { }
      }
    }
  }

  /** `set_concepts` always deletes the variables first; it stores its arguments when each
      names a concept of the selected table (or when there are none), and otherwise keeps
      the concepts it had. No other field changes. */
  lemma SetConceptsSpec(c: Config, args: seq<string>, doc: Metadata.Document)
    ensures var s, t := SetConcepts(c, args, doc), Require(c, TableChain);
      && Cascade.Keeps(s.config, c, {Concepts, Variables})
      && s.config.variables == Missing
      && (s.outcome.Pass? <==>
            (args == [] || (t.Pass? && forall i :: 0 <= i < |args| ==> args[i] in Keys(Metadata.Grouped(doc)))))
      && (s.outcome.Pass? ==> s.config.concepts == Some(args))
      && (s.outcome.Fail? ==> s.config.concepts == c.concepts)
      && (s.outcome.Fail? ==> s.outcome.error == if t.Fail? then t.error else InvalidSelection(Concepts))
  {
    AgreeLaws();
    var c1 := DeleteChain(c, [Variables]);
    assert !IsSet(c1, Variables) by {
      if IsSet(c, Variables) { assert c1 == Unset(c, Variables); }
    }
    RequireAgree(c, c1, TableChain);
    CheckConceptsSpec(c1, args, doc);
  }

  /** A call without arguments stores the empty list, even on a client with nothing
      selected. */
  lemma SetConceptsEmpty(c: Config, doc: Metadata.Document)
    ensures SetConcepts(c, [], doc).outcome.Pass?
    ensures SetConcepts(c, [], doc).config.concepts == Some([])
  {
    SetConceptsSpec(c, [], doc);
  }

  // Variables.

  /** Every name of the list is allowed, or is the `NAME` column. */
  predicate AllowedList(vs: seq<string>, allowed: seq<string>)
  {
    forall i :: 0 <= i < |vs| ==> vs[i] in allowed || vs[i] == "NAME"
  }

  /** `pull_variables(as_list=True)` yields the fetched list exactly when the whole path and
      the concepts are set; otherwise it names the first unset field of the path, or, with
      the path complete, fails on the unbound `concepts`. */
  lemma VariableUniverseReports(c: Config, fetched: seq<string>)
    ensures var u := VariableUniverse(c, fetched);
      && (u.Success? <==> (forall g :: g in TableChain ==> IsSet(c, g)) && c.concepts.Some?)
      && (u.Success? ==> u.value == fetched)
      && (u.Failure? && u.error != UnboundConcepts ==> Cascade.NamesFirstUnset(u.error, c, TableChain))
      && (u.Failure? && u.error == UnboundConcepts ==>
            (forall g :: g in TableChain ==> IsSet(c, g)) && c.concepts.None?)
  {
    Cascade.RequireNamesFirstUnset(c, TableChain);
  }

  /** With only the year chosen, `add_variable` raises the api getter's error: the
      database getter's message asks for the api before anything else. */
  lemma AddVariableNeedsApi(y: string, v: string, fetched: seq<string>)
    ensures AddVariable(Fresh.(year := Some(y)), v, fetched).outcome == Fail(NotConfigured(Api))
  {
    var c := Fresh.(year := Some(y));
    assert SetPrefix(c, TableChain) == 1 by {
      assert IsSet(c, Year) && !IsSet(c, Api);
    }
  }

  /** `add_variable` touches only the variable list, and always leaves a list. When the
      variable universe cannot be pulled it raises and leaves the empty list; a variable
      that is neither allowed nor `NAME` is rejected with the empty list left behind. */
  lemma AddVariableSpec(c: Config, v: string, fetched: seq<string>)
    ensures var s, u := AddVariable(c, v, fetched), VariableUniverse(c, fetched);
      && Cascade.Keeps(s.config, c, {Variables})
      && s.config.variables.Present?
      && (u.Failure? ==> s.outcome == Fail(u.error) && s.config.variables == Present([]))
      && (u.Success? && v !in u.value && v != "NAME" ==>
            s.outcome == Fail(VariableNotAllowed(v)) && s.config.variables == Present([]))
      && (u.Success? && v in u.value ==> s.outcome.Pass?)
  {
  }

  /** On success the variable is in the list; on failure the list is empty. Duplicates
      never enter the list, and a list of allowed names stays one. */
  lemma AddVariableInvariant(c: Config, v: string, fetched: seq<string>)
    requires VariableUniverse(c, fetched).Success?
    requires c.variables.Present? ==> NoDuplicates(c.variables.value)
    requires c.variables.Present? ==> AllowedList(c.variables.value, fetched)
    ensures var s := AddVariable(c, v, fetched);
      && s.config.variables.Present?
      && NoDuplicates(s.config.variables.value)
      && AllowedList(s.config.variables.value, fetched)
      && (s.outcome.Pass? ==> v in s.config.variables.value)
      && (s.outcome.Fail? ==> s.config.variables.value == [])
  {
    var s := AddVariable(c, v, fetched);
    if c.variables.Present? && (v in fetched || v == "NAME") && v !in c.variables.value {
      var vs := c.variables.value;
      assert s.config.variables.value == vs + [v];
      forall i, j | 0 <= i < j < |vs + [v]| ensures (vs + [v])[i] != (vs + [v])[j] {
        if j == |vs| { assert (vs + [v])[i] == vs[i]; }
      }
    }
  }

  /** An allowed variable that is not yet listed is appended, keeping the earlier ones. */
  lemma AddVariableAppends(c: Config, v: string, fetched: seq<string>)
    requires VariableUniverse(c, fetched).Success? && v in fetched
    requires c.variables.Present? && v !in c.variables.value
    ensures AddVariable(c, v, fetched) == Step(c.(variables := Present(c.variables.value + [v])), Pass)
  {
  }

  /** Adding the same allowed variable twice leaves that variable alone in the list: the
      duplicate check raises inside the `try`, and the `except` rebuilds the list from it. */
  lemma AddVariableTwice(c: Config, v: string, fetched: seq<string>)
    requires VariableUniverse(c, fetched).Success? && v in fetched
    ensures var s1 := AddVariable(c, v, fetched);
      var s2 := AddVariable(s1.config, v, fetched);
      s2.outcome.Pass? && s2.config.variables == Present([v])
  {
    var s1 := AddVariable(c, v, fetched);
    AddVariableSpec(c, v, fetched);
    AgreeLaws();
    RequireAgree(c, s1.config, TableChain);
    assert s1.config.concepts == c.concepts by { assert Agree(s1.config, c, Concepts); }
    assert v in s1.config.variables.value;
  }

  /** `NAME` is accepted without being in the universe, but only appended to an existing
      list that lacks it; otherwise it is rejected. */
  lemma AddName(c: Config, fetched: seq<string>)
    requires VariableUniverse(c, fetched).Success? && "NAME" !in fetched
    ensures var s := AddVariable(c, "NAME", fetched);
      && (s.outcome.Pass? <==> c.variables.Present? && "NAME" !in c.variables.value)
      && (s.outcome.Pass? ==> s.config.variables == Present(c.variables.value + ["NAME"]))
  {
  }

  /** `set_variables` touches only the variable list. */
  lemma {:induction false} SetVariablesKeeps(c: Config, args: seq<string>, fetched: seq<string>)
    ensures Cascade.Keeps(SetVariables(c, args, fetched).config, c, {Variables})
    decreases |args|
  {
    if args != [] {
      var s := AddVariable(c, args[0], fetched);
      AddVariableSpec(c, args[0], fetched);
      if s.outcome.Pass? {
        SetVariablesKeeps(s.config, args[1..], fetched);
        AgreeLaws();
      }
    }
  }

  /** Distinct allowed arguments, none of them listed yet, are appended in order. */
  lemma {:induction false} SetVariablesAppend(c: Config, args: seq<string>, fetched: seq<string>)
    requires VariableUniverse(c, fetched).Success?
    requires forall i :: 0 <= i < |args| ==> args[i] in fetched
    requires NoDuplicates(args)
    requires c.variables.Present?
    requires forall i :: 0 <= i < |args| ==> args[i] !in c.variables.value
    ensures SetVariables(c, args, fetched) == Step(c.(variables := Present(c.variables.value + args)), Pass)
    decreases |args|
  {
    if args != [] {
      var vs := c.variables.value;
      var s := AddVariable(c, args[0], fetched);
      assert args[0] in fetched && args[0] !in vs;
      assert s == Step(c.(variables := Present(vs + [args[0]])), Pass);
      var rest := args[1..];
      RequireAgree(c, s.config, TableChain);
      assert SetVariables(c, args, fetched) == SetVariables(s.config, rest, fetched);
      forall i | 0 <= i < |rest| ensures rest[i] !in vs + [args[0]] {
        assert rest[i] == args[i + 1];
      }
      assert NoDuplicates(rest) by {
        forall i, j | 0 <= i < j < |rest| ensures rest[i] != rest[j] {
          assert rest[i] == args[i + 1] && rest[j] == args[j + 1];
        }
      }
      SetVariablesAppend(s.config, rest, fetched);
      assert s.config.variables.value + rest == vs + args;
      assert s.config.(variables := Present(vs + args)) == c.(variables := Present(vs + args));
    } else {
      assert c.variables.value + args == c.variables.value;
    }
  }

  /** On a client without a list, distinct allowed arguments become the list. */
  lemma SetVariablesFresh(c: Config, args: seq<string>, fetched: seq<string>)
    requires VariableUniverse(c, fetched).Success?
    requires forall i :: 0 <= i < |args| ==> args[i] in fetched
    requires NoDuplicates(args) && |args| >= 1
    requires !c.variables.Present?
    ensures SetVariables(c, args, fetched) == Step(c.(variables := Present(args)), Pass)
  {
    var s := AddVariable(c, args[0], fetched);
    assert s.config == c.(variables := Present([args[0]]));
    var rest := args[1..];
    RequireAgree(c, s.config, TableChain);
    forall i | 0 <= i < |rest| ensures rest[i] !in [args[0]] && rest[i] in fetched {
      assert rest[i] == args[i + 1];
    }
    assert NoDuplicates(rest) by {
      forall i, j | 0 <= i < j < |rest| ensures rest[i] != rest[j] {
        assert rest[i] == args[i + 1] && rest[j] == args[j + 1];
      }
    }
    SetVariablesAppend(s.config, rest, fetched);
    assert [args[0]] + rest == args;
  }

  // Geography.

  /** `set_geography` always resets the values to None first; it stores a geography of the
      table's list with the wildcard value, and otherwise keeps the geography it had. */
  lemma SetGeographySpec(c: Config, geography: string, names: seq<string>)
    ensures var s, t := SetGeography(c, geography, names), Require(c, TableChain);
      && Cascade.Keeps(s.config, c, {Geography, GeographyValues})
      && (s.outcome.Pass? <==> t.Pass? && geography in names)
      && (s.outcome.Pass? ==>
            s.config.geography == Some(geography) && s.config.geographyValues == Present(["*"]))
      && (s.outcome.Fail? ==>
            s.config.geography == c.geography && s.config.geographyValues == Null)
      && (s.outcome.Fail? ==>
            s.outcome.error == if t.Fail? then t.error else GeographyNotAllowed(geography))
  {
    RequireAgree(c, c.(geographyValues := Null), TableChain);
  }

  /** `add_geography_value` changes nothing when it raises: without the chain up to the
      geography, on a `detail` table, or for a value outside the code column. Otherwise it
      ends the value list with the new value, which replaces a wildcard and extends any
      other list. */
  lemma AddGeographyValueSpec(c: Config, value: Scalar, codes: seq<string>)
    ensures var s, t := AddGeographyValue(c, value, codes), Require(c, GeographyChain);
      && Cascade.Keeps(s.config, c, {GeographyValues})
      && (s.outcome.Pass? <==>
            t.Pass? && c.table != Some(Urls.Detail) && value.Text? && value.s in codes)
      && (s.outcome.Fail? ==> s.config == c)
      && (s.outcome.Pass? ==>
            (s.config.geographyValues.Present? && |s.config.geographyValues.value| >= 1
             && Last(s.config.geographyValues.value) == value.s))
      && (s.outcome.Pass? && c.geographyValues.Present? && "*" !in c.geographyValues.value ==>
            s.config.geographyValues.value == c.geographyValues.value + [value.s])
      && (s.outcome.Pass? && (!c.geographyValues.Present? || "*" in c.geographyValues.value) ==>
            s.config.geographyValues.value == [value.s])
  {
    AgreeLaws();
    if Require(c, GeographyChain).Pass? {
      assert IsSet(c, Table);
    }
  }

  function Last(s: seq<string>): string
    requires |s| >= 1
  {
    s[|s| - 1]
  }

  /** The wildcard that `set_geography` stores is replaced by the first value added, and
      later values are appended after it. */
  lemma GeographyValuesAfterSetGeography(c: Config, geography: string, names: seq<string>,
                                          v1: string, v2: string, codes: seq<string>)
    requires SetGeography(c, geography, names).outcome.Pass?
    requires c.table != Some(Urls.Detail)
    requires v1 in codes && v2 in codes && v1 != "*"
    ensures var s1 := SetGeography(c, geography, names).config;
      var s2 := AddGeographyValue(s1, Text(v1), codes);
      var s3 := AddGeographyValue(s2.config, Text(v2), codes);
      && s2.outcome.Pass? && s2.config.geographyValues == Present([v1])
      && s3.outcome.Pass? && s3.config.geographyValues == Present([v1, v2])
  {
    SetGeographySpec(c, geography, names);
    var s1 := SetGeography(c, geography, names).config;
    AgreeLaws();
    assert Agree(s1, c, Table);
    assert Require(s1, GeographyChain).Pass? by {
      assert forall g :: g in TableChain ==> IsSet(s1, g);
      assert IsSet(s1, Geography);
    }
    var s2 := AddGeographyValue(s1, Text(v1), codes);
    AddGeographyValueSpec(s1, Text(v1), codes);
    assert s2.config.geographyValues == Present([v1]);
    assert Agree(s2.config, s1, Table);
    RequireAgree(s1, s2.config, GeographyChain);
    assert "*" !in [v1];
    AddGeographyValueSpec(s2.config, Text(v2), codes);
    assert [v1] + [v2] == [v1, v2];
  }

  // The invariant.

  /** A field of the catalog path is unset after the `del` block when it was deleted, or
      when the field before it was unset already. */
  lemma {:induction false} UnsetFrom(c: Config, deps: seq<Field>, k: nat, j: nat)
    requires k <= j < |deps| && !IsSet(c, deps[k])
    requires forall i :: k < i <= j ==> IsSet(c, deps[i]) ==> IsSet(c, deps[i - 1])
    ensures !IsSet(c, deps[j])
    decreases j - k
  {
    if j > k {
      UnsetFrom(c, deps, k, j - 1);
    }
  }

  lemma ClearedLeading(c: Config, c': Config, deps: seq<Field>, own: Field, n: nat)
    requires NoDuplicates(deps) && own !in deps && n <= |deps|
    requires Cascade.Cleared(c', c, deps, own)
    requires forall i :: 0 < i < n ==> IsSet(c, deps[i]) ==> IsSet(c, deps[i - 1])
    ensures forall j :: 0 <= j < n ==> !IsSet(c', deps[j])
  {
    AgreeLaws();
    var k := SetPrefix(c, deps);
    forall j | 0 <= j < n ensures !IsSet(c', deps[j]) {
      if j >= k {
        UnsetFrom(c, deps, k, j);
        forall i | 0 <= i < k ensures deps[i] != deps[j] { }
        assert deps[j] !in deps[..k];
        assert deps[j] != own by { assert deps[j] in deps; }
        assert Agree(c', c, deps[j]);
      }
    }
  }

  /** An operation that keeps the catalog path keeps the configuration valid. */
  lemma ValidKept(c: Config, c': Config, idx: Catalog.Index)
    requires Valid(c, idx)
    requires Agree(c', c, Year) && Agree(c', c, Api) && Agree(c', c, Database) && Agree(c', c, Table)
    ensures Valid(c', idx)
  {
  }

  lemma SetYearValid(c: Config, idx: Catalog.Index, year: Scalar)
    requires Valid(c, idx)
    ensures Valid(SetYear(c, idx, year).config, idx)
  {
    var s := SetYear(c, idx, year).config;
    assert s.api.None? && s.database.None? && s.table.None? by {
      Cascade.SetYearSpec(c, idx, year);
      Cascade.DependentsDistinct();
      ClearedLeading(c, s, YearDependents, Year, 3);
      assert !IsSet(s, YearDependents[0]) && !IsSet(s, YearDependents[1]) && !IsSet(s, YearDependents[2]);
    }
    assert s.year.Some? ==> s.year.value in idx by {
      Cascade.SetYearSpec(c, idx, year);
    }
  }

  lemma SetApiValid(c: Config, idx: Catalog.Index, api: string)
    requires Valid(c, idx)
    ensures Valid(SetApi(c, idx, api).config, idx)
  {
    var s := SetApi(c, idx, api).config;
    Cascade.SetApiSpec(c, idx, api);
    Cascade.DependentsDistinct();
    ClearedLeading(c, s, ApiDependents, Api, 2);
    assert Agree(s, c, Year);
  }

  lemma SetDatabaseValid(c: Config, idx: Catalog.Index, database: string)
    requires Valid(c, idx)
    ensures Valid(SetDatabase(c, idx, database).config, idx)
  {
    var s := SetDatabase(c, idx, database).config;
    Cascade.SetDatabaseSpec(c, idx, database);
    Cascade.DependentsDistinct();
    ClearedLeading(c, s, DatabaseDependents, Database, 1);
    assert Agree(s, c, Year) && Agree(s, c, Api);
  }

  lemma SetTableValid(c: Config, idx: Catalog.Index, table: string)
    requires Valid(c, idx)
    ensures Valid(SetTable(c, idx, table).config, idx)
  {
    var s := SetTable(c, idx, table).config;
    Cascade.SetTableSpec(c, idx, table);
    Cascade.DependentsDistinct();
    assert Agree(s, c, Year) && Agree(s, c, Api) && Agree(s, c, Database);
  }

  // The setters below the table keep the catalog path, and so the configuration valid.

  lemma SetConceptsValid(c: Config, idx: Catalog.Index, args: seq<string>, doc: Metadata.Document)
    requires Valid(c, idx)
    ensures Valid(SetConcepts(c, args, doc).config, idx)
  {
    SetConceptsSpec(c, args, doc);
    ValidKept(c, SetConcepts(c, args, doc).config, idx);
  }

  lemma AddVariableValid(c: Config, idx: Catalog.Index, v: string, fetched: seq<string>)
    requires Valid(c, idx)
    ensures Valid(AddVariable(c, v, fetched).config, idx)
  {
    AddVariableSpec(c, v, fetched);
    ValidKept(c, AddVariable(c, v, fetched).config, idx);
  }

  lemma SetVariablesValid(c: Config, idx: Catalog.Index, args: seq<string>, fetched: seq<string>)
    requires Valid(c, idx)
    ensures Valid(SetVariables(c, args, fetched).config, idx)
  {
    SetVariablesKeeps(c, args, fetched);
    ValidKept(c, SetVariables(c, args, fetched).config, idx);
  }

  lemma SetGeographyValid(c: Config, idx: Catalog.Index, geography: string, names: seq<string>)
    requires Valid(c, idx)
    ensures Valid(SetGeography(c, geography, names).config, idx)
  {
    SetGeographySpec(c, geography, names);
    ValidKept(c, SetGeography(c, geography, names).config, idx);
  }

  lemma AddGeographyValueValid(c: Config, idx: Catalog.Index, value: Scalar, codes: seq<string>)
    requires Valid(c, idx)
    ensures Valid(AddGeographyValue(c, value, codes).config, idx)
  {
    AddGeographyValueSpec(c, value, codes);
    ValidKept(c, AddGeographyValue(c, value, codes).config, idx);
  }

  /** A client that has just been built is valid, whatever its catalog. */
  lemma FreshValid(idx: Catalog.Index)
    ensures Valid(Fresh, idx)
    ensures DataRequest(Fresh) == Failure(NotConfigured(Year))
  {
    assert !IsSet(Fresh, Year);
  }

  // Requests.

  /** Every field the data pull reads holds a value it can join. */
  predicate Complete(c: Config)
  {
    && c.year.Some? && c.api.Some? && c.database.Some? && c.table.Some?
    && c.variables.Present? && c.geography.Some? && c.geographyValues.Present?
  }

  /** `pull_data` builds its URL exactly when every field it reads is set and neither list
      was reset to None; otherwise it raises the first getter's error, or fails to join the
      list that is None. */
  lemma DataRequestSpec(c: Config)
    ensures var r, t := DataRequest(c), Require(c, DataChain);
      && (r.Success? <==> Complete(c))
      && (r.Failure? && t.Fail? ==> Cascade.NamesFirstUnset(r.error, c, DataChain))
      && (r.Failure? && t.Pass? ==>
            r.error == if c.variables.Null? then NotJoinable(Variables) else NotJoinable(GeographyValues))
  {
    Cascade.RequireNamesFirstUnset(c, DataChain);
    if Require(c, DataChain).Pass? {
      assert IsSet(c, Year) && IsSet(c, Api) && IsSet(c, Database) && IsSet(c, Table);
      assert IsSet(c, Variables) && IsSet(c, Geography) && IsSet(c, GeographyValues);
    }
    assert Complete(c) ==> forall g :: g in DataChain ==> IsSet(c, g);
  }

  /** The data-pull URL of a complete configuration reads back as its dataset path (without
      a `detail` table), its variables, its geography and its values. */
  lemma DataRequestRoundTrip(c: Config)
    requires Complete(c)
    requires Urls.PathSafe(c.year.value, c.api.value, c.database.value, c.table.value)
    requires Urls.ListSafe(c.variables.value, {',', '&'})
    requires Avoids(c.geography.value, {':'})
    requires Urls.ListSafe(c.geographyValues.value, {','})
    ensures DataRequest(c).Success?
    ensures Urls.ParseDataUrl(DataRequest(c).value)
            == Some(Urls.Query(Urls.DatasetPath(c.year.value, c.api.value, c.database.value, c.table.value),
                               c.variables.value, c.geography.value, c.geographyValues.value))
  {
    DataRequestSpec(c);
    Urls.ParseDataUrlRoundTrip(c.year.value, c.api.value, c.database.value, c.table.value,
                               c.variables.value, c.geography.value, c.geographyValues.value);
  }

  /** `pull_geography_values` needs the chain up to the geography, and asks for the names of
      all of its values. */
  lemma GeographyValuesRequestSpec(c: Config)
    ensures var r := GeographyValuesRequest(c);
      && (r.Success? <==> c.year.Some? && c.api.Some? && c.database.Some? && c.table.Some? && c.geography.Some?)
      && (r.Failure? ==> Cascade.NamesFirstUnset(r.error, c, GeographyChain))
      && (r.Success? ==> r.value == Urls.DataUrl(c.year.value, c.api.value, c.database.value,
                                                 c.table.value, ["NAME"], c.geography.value, ["*"]))
  {
    Cascade.RequireNamesFirstUnset(c, GeographyChain);
    if Require(c, GeographyChain).Pass? {
      assert IsSet(c, Year) && IsSet(c, Api) && IsSet(c, Database) && IsSet(c, Table) && IsSet(c, Geography);
    }
    if c.year.Some? && c.api.Some? && c.database.Some? && c.table.Some? && c.geography.Some? {
      Urls.GeographyValuesIsDataPull(c.year.value, c.api.value, c.database.value, c.table.value, c.geography.value);
    }
  }

  /** The metadata documents are requested as JSON below the dataset path, once the table
      is selected. */
  lemma MetadataRequestSpec(c: Config, endpoint: string)
    requires Avoids(endpoint, {'/'})
    ensures var r := MetadataRequest(c, endpoint);
      && (r.Success? <==> c.year.Some? && c.api.Some? && c.database.Some? && c.table.Some?)
      && (r.Failure? ==> Cascade.NamesFirstUnset(r.error, c, TableChain))
      && (r.Success? && Urls.PathSafe(c.year.value, c.api.value, c.database.value, c.table.value) ==>
            var prefix := Urls.BaseUrl + "/";
            && |r.value| >= |prefix| && r.value[..|prefix|] == prefix
            && Split(r.value[|prefix|..], '/')
               == Urls.DatasetPath(c.year.value, c.api.value, c.database.value, c.table.value)
                  + [endpoint + ".json"])
  {
    Cascade.RequireNamesFirstUnset(c, TableChain);
    if Require(c, TableChain).Pass? {
      assert IsSet(c, Year) && IsSet(c, Api) && IsSet(c, Database) && IsSet(c, Table);
    }
    if c.year.Some? && c.api.Some? && c.database.Some? && c.table.Some? && Urls.PathSafe(c.year.value, c.api.value, c.database.value, c.table.value) {
      assert Avoids("json", {'/'});
      assert endpoint + "." + "json" == endpoint + ".json";
      Urls.LinkSegments(c.year.value, c.api.value, c.database.value, c.table.value, endpoint, Some("json"));
    }
  }

  /** The request of the data-pull example: the 2020 five-year ACS at the database
      endpoint (the `detail` table), the `NAME` of every state. Its URL has no table
      segment. */
  lemma DataRequestExample()
    ensures var r := DataRequest(Config(Some("2020"), Some("acs"), Some("acs5"), Some("detail"), None,
                                        Present(["NAME"]), Some("state"), Present(["*"])));
      && r.Success?
      && Urls.ParseDataUrl(r.value) == Some(Urls.Query(["2020", "acs", "acs5"], ["NAME"], "state", ["*"]))
  {
    var c := Config(Some("2020"), Some("acs"), Some("acs5"), Some("detail"), None,
                    Present(["NAME"]), Some("state"), Present(["*"]));
    assert Urls.PathSafe("2020", "acs", "acs5", "detail");
    assert Urls.ListSafe(["NAME"], {',', '&'}) && Urls.ListSafe(["*"], {','});
    assert Avoids("state", {':'});
    DataRequestRoundTrip(c);
  }
}
