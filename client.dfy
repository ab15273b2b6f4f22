/** The client object `Census`: the catalog it loads once, and the selections that its
    setters update in place. Every setter is proved to leave the object in the state, and
    to raise the error, that the corresponding function of `Configuration` gives, and to
    keep the object valid. */
module Client {
  import opened Wrappers
  import opened Strings
  import opened Dicts
  import opened Configuration
  import Catalog
  import Metadata = Variables
  import Urls
  import Cascade
  import Selections

  class Census {
    /** `__api_options`: built once, never updated. */
    const catalog: Catalog.Index
    /** `__token`: kept, never sent. */
    const token: string

    var year: Option<string>
    var api: Option<string>
    var database: Option<string>
    var table: Option<string>
    var concepts: Option<seq<string>>
    var variables: Slot<seq<string>>
    var geography: Option<string>
    var geographyValues: Slot<seq<string>>

    /** The selections as a value. */
    function State(): Config
      reads this
    {
      Config(year, api, database, table, concepts, variables, geography, geographyValues)
    }

    ghost predicate Valid()
      reads this
    {
      Configuration.Valid(State(), catalog)
    }

    /** A client over an index that is already built. */
    constructor(catalog: Catalog.Index, token: string)
      ensures this.catalog == catalog && this.token == token
      ensures State() == Fresh
      ensures Valid()
    {
      this.catalog := catalog;
      this.token := token;
      year, api, database, table := None, None, None, None;
      concepts, variables, geography, geographyValues := None, Missing, None, Missing;
    }

    /** `Census(token)`: builds the index from the catalog's dataset descriptors, and raises
        where the loop meets a descriptor it cannot read. */
    static method Open(descriptors: seq<Catalog.Descriptor>, token: string)
      returns (r: Result<Census, Catalog.BuildFailure>)
      ensures r.Success? <==> Catalog.FirstMalformed(descriptors).None?
      ensures r.Success? ==> fresh(r.value) && r.value.State() == Fresh && r.value.Valid()
      ensures r.Success? ==> Catalog.Describes(r.value.catalog, descriptors) && r.value.token == token
      ensures r.Failure? ==>
        var k := Catalog.FirstMalformed(descriptors).value;
        && r.error.reason == Catalog.ReasonFor(descriptors[k])
        && Catalog.Describes(r.error.partial, descriptors[..k + 1])
        && Catalog.YearOf(descriptors[k]) in r.error.partial
    {
      var built := Catalog.Build(descriptors);
      match built
      case Failure(e) => r := Failure(e);
      case Success(idx) =>
        var client := new Census(idx, token);
        r := Success(client);
    }

    /** `del self.__f`, reporting whether the attribute existed. */
    method Delete(f: Field) returns (deleted: bool)
      modifies this
      ensures deleted == IsSet(old(State()), f)
      ensures State() == if deleted then Unset(old(State()), f) else old(State())
    {
      deleted := IsSet(State(), f);
      if deleted {
        match f
        case Year => year := None;
        case Api => api := None;
        case Database => database := None;
        case Table => table := None;
        case Concepts => concepts := None;
        case Variables => variables := Missing;
        case Geography => geography := None;
        case GeographyValues => geographyValues := Missing;
      }
    }

    /** A `try` block of `del` statements: the first missing attribute ends it. */
    method DeleteChain(fields: seq<Field>)
      modifies this
      ensures State() == Configuration.DeleteChain(old(State()), fields)
    {
      var i := 0;
      while i < |fields|
        invariant 0 <= i <= |fields|
        invariant Configuration.DeleteChain(old(State()), fields)
                  == Configuration.DeleteChain(State(), fields[i..])
      {
        var deleted := Delete(fields[i]);
        assert fields[i..][0] == fields[i] && fields[i..][1..] == fields[i + 1..];
        if !deleted {
          return;
        }
        i := i + 1;
      }
    }

    /** `set_year` */
    method SetYear(year: Scalar) returns (outcome: Outcome<Error>)
      requires Valid()
      modifies this
      ensures Step(State(), outcome) == Configuration.SetYear(old(State()), catalog, year)
      ensures Valid()
    {
      Selections.SetYearValid(State(), catalog, year);
      DeleteChain(YearDependents);
      if Str(year) in PullYears(catalog) {
        this.year := Some(Str(year));
        outcome := Pass;
      } else {
        outcome := Fail(InvalidSelection(Year));
      }
    }

    /** `set_api` */
    method SetApi(api: string) returns (outcome: Outcome<Error>)
      requires Valid()
      modifies this
      ensures Step(State(), outcome) == Configuration.SetApi(old(State()), catalog, api)
      ensures Valid()
    {
      Selections.SetApiValid(State(), catalog, api);
      DeleteChainKnown(State(), catalog, ApiDependents);
      DeleteChain(ApiDependents);
      var apis := PullApis(State(), catalog);
      if apis.Failure? {
        outcome := Fail(apis.error);
      } else if api in apis.value {
        this.api := Some(api);
        outcome := Pass;
      } else {
        outcome := Fail(InvalidSelection(Api));
      }
    }

    /** `set_database` */
    method SetDatabase(database: string) returns (outcome: Outcome<Error>)
      requires Valid()
      modifies this
      ensures Step(State(), outcome) == Configuration.SetDatabase(old(State()), catalog, database)
      ensures Valid()
    {
      Selections.SetDatabaseValid(State(), catalog, database);
      DeleteChainKnown(State(), catalog, DatabaseDependents);
      DeleteChain(DatabaseDependents);
      var databases := PullDatabases(State(), catalog);
      if databases.Failure? {
        outcome := Fail(databases.error);
      } else if database in databases.value {
        this.database := Some(database);
        outcome := Pass;
      } else {
        outcome := Fail(InvalidSelection(Database));
      }
    }

    /** `set_table` */
    method SetTable(table: string) returns (outcome: Outcome<Error>)
      requires Valid()
      modifies this
      ensures Step(State(), outcome) == Configuration.SetTable(old(State()), catalog, table)
      ensures Valid()
    {
      Selections.SetTableValid(State(), catalog, table);
      DeleteChainKnown(State(), catalog, TableDependents);
      DeleteChain(TableDependents);
      var tables := PullTables(State(), catalog);
      if tables.Failure? {
        outcome := Fail(tables.error);
      } else if table in tables.value || table == Urls.Detail {
        this.table := Some(table);
        outcome := Pass;
      } else {
        outcome := Fail(InvalidSelection(Table));
      }
    }

    /** `pull_concepts`: the concepts of the table's variables document `doc`, grouped as
        `process_variables_and_concepts` groups them. */
    method PullConcepts(doc: Metadata.Document) returns (r: Result<seq<string>, Error>)
      ensures r == Configuration.PullConcepts(State(), doc)
    {
      match Require(State(), TableChain)
      case Fail(e) => r := Failure(e);
      case Pass =>
        var groups := Metadata.GroupByConcept(doc);
        r := Success(Keys(groups));
    }

    /** `set_concepts(*args)` */
    method SetConcepts(args: seq<string>, doc: Metadata.Document) returns (outcome: Outcome<Error>)
      requires Valid()
      modifies this
      ensures Step(State(), outcome) == Configuration.SetConcepts(old(State()), args, doc)
      ensures Valid()
    {
      Selections.SetConceptsValid(State(), catalog, args, doc);
      DeleteChain([Variables]);
      ghost var cleared := State();
      var chosen := [];
      var i := 0;
      while i < |args|
        invariant 0 <= i <= |args| && chosen == args[..i]
        invariant State() == cleared
        invariant CheckConcepts(cleared, args, doc) == CheckConcepts(cleared, args[i..], doc)
      {
        assert args[i..][0] == args[i] && args[i..][1..] == args[i + 1..];
        var pulled := PullConcepts(doc);
        if pulled.Failure? {
          outcome := Fail(pulled.error);
          return;
        }
        if args[i] !in pulled.value {
          outcome := Fail(InvalidSelection(Concepts));
          return;
        }
        chosen := chosen + [args[i]];
        i := i + 1;
      }
      assert chosen == args;
      concepts := Some(chosen);
      outcome := Pass;
    }

    /** `add_variable`: `fetched` is what `pull_variables(as_list=True)` would return once
        the concepts are set. */
    method AddVariable(v: string, fetched: seq<string>) returns (outcome: Outcome<Error>)
      requires Valid()
      modifies this
      ensures Step(State(), outcome) == Configuration.AddVariable(old(State()), v, fetched)
      ensures Valid()
    {
      Selections.AddVariableValid(State(), catalog, v, fetched);
      // The `try` block: it completes only by appending a new variable to a list.
      var universe := VariableUniverse(State(), fetched);
      if universe.Success? && (v in universe.value || v == "NAME")
         && variables.Present? && v !in variables.value {
        variables := Present(variables.value + [v]);
        return Pass;
      }
      // The `except` block.
      variables := Present([]);
      var again := VariableUniverse(State(), fetched);
      if again.Failure? {
        return Fail(again.error);
      }
      if v in again.value {
        variables := Present([v]);
        outcome := Pass;
      } else {
        outcome := Fail(VariableNotAllowed(v));
      }
    }

    /** `set_variables(*args)` */
    method SetVariables(args: seq<string>, fetched: seq<string>) returns (outcome: Outcome<Error>)
      requires Valid()
      modifies this
      ensures Step(State(), outcome) == Configuration.SetVariables(old(State()), args, fetched)
      ensures Valid()
    {
      var i := 0;
      while i < |args|
        invariant 0 <= i <= |args| && Valid()
        invariant Configuration.SetVariables(old(State()), args, fetched)
                  == Configuration.SetVariables(State(), args[i..], fetched)
      {
        assert args[i..][0] == args[i] && args[i..][1..] == args[i + 1..];
        outcome := AddVariable(args[i], fetched);
        if outcome.Fail? {
          return;
        }
        i := i + 1;
      }
      outcome := Pass;
    }

    /** `clear_variables` */
    method ClearVariables()
      requires Valid()
      modifies this
      ensures State() == Configuration.ClearVariables(old(State()))
      ensures Valid()
    {
      variables := Null;
    }

    /** `set_geography`: `names` is the table's geography list. */
    method SetGeography(geography: string, names: seq<string>) returns (outcome: Outcome<Error>)
      requires Valid()
      modifies this
      ensures Step(State(), outcome) == Configuration.SetGeography(old(State()), geography, names)
      ensures Valid()
    {
      Selections.SetGeographyValid(State(), catalog, geography, names);
      geographyValues := Null;
      match Require(State(), TableChain)
      case Fail(e) => outcome := Fail(e);
      case Pass =>
        if geography in names {
          this.geography := Some(geography);
          geographyValues := Present(["*"]);
          outcome := Pass;
        } else {
          outcome := Fail(GeographyNotAllowed(geography));
        }
    }

    /** `add_geography_value`: `codes` is the code column of the geography's values. */
    method AddGeographyValue(value: Scalar, codes: seq<string>) returns (outcome: Outcome<Error>)
      requires Valid()
      modifies this
      ensures Step(State(), outcome) == Configuration.AddGeographyValue(old(State()), value, codes)
      ensures Valid()
    {
      Selections.AddGeographyValueValid(State(), catalog, value, codes);
      var checked := Require(State(), GeographyChain);
      if checked.Fail? {
        return Fail(checked.error);
      }
      assert IsSet(State(), Table);
      if table.value == Urls.Detail {
        return Fail(DetailNotTabular);
      }
      if !(value.Text? && value.s in codes) {
        return Fail(GeographyValueNotAllowed(value));
      }
      var v := Str(value);
      match geographyValues {
        case Present(vs) =>
          if "*" in vs {
            geographyValues := Present([v]);
          } else {
            geographyValues := Present(vs + [v]);
          }
        case _ =>
          geographyValues := Present([v]);
      }
      outcome := Pass;
    }

    /** The URL of `pull_data`: the getters in the order the source calls them, then the
        two joins. */
    method DataUrl() returns (r: Result<string, Error>)
      ensures r == DataRequest(State())
    {
      var c := State();
      var year := GetYear(c);
      if year.Failure? {
        Cascade.RequireFirstUnset(c, DataChain, 0);
        return Failure(year.error);
      }
      var api := GetApi(c);
      if api.Failure? {
        Cascade.RequireFirstUnset(c, [Year, Api], 1);
        Cascade.RequireFirstUnset(c, DataChain, 1);
        return Failure(api.error);
      }
      var database := GetDatabase(c);
      if database.Failure? {
        Cascade.RequireFirstUnset(c, [Year, Api, Database], 2);
        Cascade.RequireFirstUnset(c, DataChain, 2);
        return Failure(database.error);
      }
      var table := GetTable(c);
      if table.Failure? {
        Cascade.RequireFirstUnset(c, TableChain, 3);
        Cascade.RequireFirstUnset(c, DataChain, 3);
        return Failure(table.error);
      }
      var variables := GetVariables(c);
      if variables.Failure? {
        Cascade.RequireFirstUnset(c, DataChain, 4);
        return Failure(variables.error);
      }
      var geography := GetGeography(c);
      if geography.Failure? {
        Cascade.RequireFirstUnset(c, GeographyChain, 4);
        Cascade.RequireFirstUnset(c, DataChain, 5);
        return Failure(geography.error);
      }
      var values := GetGeographyValues(c);
      if values.Failure? {
        Cascade.RequireFirstUnset(c, DataChain, 6);
        return Failure(values.error);
      }
      assert Require(c, DataChain).Pass?;
      if variables.value.None? {
        return Failure(NotJoinable(Variables));
      }
      if values.value.None? {
        return Failure(NotJoinable(GeographyValues));
      }
      r := Success(Urls.DataUrl(year.value, api.value, database.value, table.value,
                                variables.value.value, geography.value, values.value.value));
    }
  }
}
