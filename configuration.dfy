/** The client's configuration: the selections year, api, database, table, concepts,
    variables, geography and geography values, each of which may be unset; what every
    setter does to them; what the getters report; and the request URLs that the complete
    configuration determines. Remote documents (the variables document of a table, the
    geography list, the geography code column, the concept-filtered variable list) are
    parameters. */
module Configuration {
  import opened Wrappers
  import opened Seqs
  import opened Strings
  import opened Dicts
  import Catalog
  import Metadata = Variables
  import Urls

  /** The fields of the client, from coarse to fine. */
  datatype Field = Year | Api | Database | Table | Concepts | Variables | Geography | GeographyValues

  /** An attribute that the source also sets to None: missing (never assigned, or deleted),
      None, or a list. */
  datatype Slot<T> = Missing | Null | Present(value: T)

  datatype Config = Config(
    year: Option<string>,
    api: Option<string>,
    database: Option<string>,
    table: Option<string>,
    concepts: Option<seq<string>>,
    variables: Slot<seq<string>>,
    geography: Option<string>,
    geographyValues: Slot<seq<string>>)

  /** A client straight after construction: no attribute assigned yet. */
  const Fresh: Config := Config(None, None, None, None, None, Missing, None, Missing)

  /** What an operation raises. */
  datatype Error =
    | NotConfigured(field: Field)        // AttributeError from a getter of an unset field
    | InvalidSelection(field: Field)     // ValueError from set_year/api/database/table/concepts
    | VariableNotAllowed(variable: string)
    | UnboundConcepts                    // pull_variables without concepts reads an unbound local
    | GeographyNotAllowed(geography: string)
    | GeographyValueNotAllowed(value: Scalar)
    | DetailNotTabular                   // a `detail` pull is raw text, not a table
    | NotJoinable(field: Field)          // ','.join of a list that was reset to None

  /** The new configuration after a call, and whether the call raised. */
  datatype Step = Step(config: Config, outcome: Outcome<Error>)

  /** The attribute of `f` exists (None counts: it can be deleted and read). */
  predicate IsSet(c: Config, f: Field)
  {
    match f
    case Year => c.year.Some?
    case Api => c.api.Some?
    case Database => c.database.Some?
    case Table => c.table.Some?
    case Concepts => c.concepts.Some?
    case Variables => !c.variables.Missing?
    case Geography => c.geography.Some?
    case GeographyValues => !c.geographyValues.Missing?
  }

  /** `c1` and `c2` hold the same value in field `f`. */
  predicate Agree(c1: Config, c2: Config, f: Field)
  {
    match f
    case Year => c1.year == c2.year
    case Api => c1.api == c2.api
    case Database => c1.database == c2.database
    case Table => c1.table == c2.table
    case Concepts => c1.concepts == c2.concepts
    case Variables => c1.variables == c2.variables
    case Geography => c1.geography == c2.geography
    case GeographyValues => c1.geographyValues == c2.geographyValues
  }

  /** `c` with the attribute of `f` removed. */
  function Unset(c: Config, f: Field): (r: Config)
    ensures !IsSet(r, f)
    ensures forall g :: g != f ==> Agree(r, c, g)
  {
    match f
    case Year => c.(year := None)
    case Api => c.(api := None)
    case Database => c.(database := None)
    case Table => c.(table := None)
    case Concepts => c.(concepts := None)
    case Variables => c.(variables := Missing)
    case Geography => c.(geography := None)
    case GeographyValues => c.(geographyValues := Missing)
  }

  /** `del self.__f`: fails (None) when the attribute does not exist. */
  function Delete(c: Config, f: Field): Option<Config>
  {
    if IsSet(c, f) then Some(Unset(c, f)) else None
  }

  /** A `try` block of `del` statements with `except: pass`: deletes the fields in order
      and stops at the first one that is already unset. */
  function DeleteChain(c: Config, fields: seq<Field>): (r: Config)
    ensures forall g :: g !in fields ==> Agree(r, c, g)
    ensures forall g :: IsSet(r, g) ==> IsSet(c, g) && Agree(r, c, g)
    decreases |fields|
  {
    if fields == [] then c
    else match Delete(c, fields[0])
      case None => c
      case Some(c') =>
        AgreeLaws();
        assert forall g :: g in fields[1..] ==> g in fields;
        DeleteChain(c', fields[1..])
  }

  /** Agreement in a field is transitive and carries whether the field is set. */
  lemma AgreeLaws()
    ensures forall c1, f :: Agree(c1, c1, f)
    ensures forall c1, c2, f :: Agree(c1, c2, f) ==> Agree(c2, c1, f)
    ensures forall c1, c2, c3, f :: Agree(c1, c2, f) && Agree(c2, c3, f) ==> Agree(c1, c3, f)
    ensures forall c1, c2, f :: Agree(c1, c2, f) ==> (IsSet(c1, f) <==> IsSet(c2, f))
  {
    forall c1, c2, f | Agree(c1, c2, f) ensures IsSet(c1, f) <==> IsSet(c2, f) {
      match f
      case _ =>
    }
  }

  /** The number of leading fields of `fields` that are set. */
  function SetPrefix(c: Config, fields: seq<Field>): (k: nat)
    ensures k <= |fields|
    ensures forall i :: 0 <= i < k ==> IsSet(c, fields[i])
    ensures k < |fields| ==> !IsSet(c, fields[k])
  {
    if fields == [] || !IsSet(c, fields[0]) then 0 else 1 + SetPrefix(c, fields[1..])
  }

  /** The first field of `fields` that is unset, if any. */
  function FirstUnset(c: Config, fields: seq<Field>): Option<Field>
  {
    var k := SetPrefix(c, fields);
    if k < |fields| then Some(fields[k]) else None
  }

  /** Calling the getters of `fields` in order: the first unset one raises. */
  function Require(c: Config, fields: seq<Field>): (r: Outcome<Error>)
    ensures r.Pass? <==> forall f {:trigger IsSet(c, f)} :: f in fields ==> IsSet(c, f)
  {
    match FirstUnset(c, fields)
    case None => Pass
    case Some(f) => Fail(NotConfigured(f))
  }

  // The fields each setter deletes, in the order of its `del` statements.
  const YearDependents: seq<Field> := [Api, Database, Table, Concepts, Variables, Geography]
  const ApiDependents: seq<Field> := [Database, Table, Concepts, Variables, Geography]
  const DatabaseDependents: seq<Field> := [Table, Concepts, Variables, Geography]
  const TableDependents: seq<Field> := [Concepts, Variables, Geography]

  // The getters that a pull or an error message calls first, in the order it calls them.
  const TableChain: seq<Field> := [Year, Api, Database, Table]
  const GeographyChain: seq<Field> := [Year, Api, Database, Table, Geography]
  const DataChain: seq<Field> := [Year, Api, Database, Table, Variables, Geography, GeographyValues]

  /** The selections the catalog index knows about: every set year is a year of the index,
      and so on down, wherever the coarser fields are set too. */
  predicate Known(c: Config, idx: Catalog.Index)
  {
    && (c.year.Some? ==> c.year.value in idx)
    && (c.year.Some? && c.api.Some? ==> c.api.value in idx[c.year.value])
    && (c.year.Some? && c.api.Some? && c.database.Some? ==>
          c.database.value in idx[c.year.value][c.api.value])
    && (c.year.Some? && c.api.Some? && c.database.Some? && c.table.Some? ==>
          c.table.value == Urls.Detail || c.table.value in idx[c.year.value][c.api.value][c.database.value])
  }

  /** A field of the catalog path is set only when the one before it is. */
  predicate Chained(c: Config)
  {
    && (c.api.Some? ==> c.year.Some?)
    && (c.database.Some? ==> c.api.Some?)
    && (c.table.Some? ==> c.database.Some?)
  }

  /** The invariant that every operation of the client keeps. */
  predicate Valid(c: Config, idx: Catalog.Index)
  {
    Known(c, idx) && Chained(c)
  }

  // Getters.

  function GetYear(c: Config): Result<string, Error>
  {
    if c.year.Some? then Success(c.year.value) else Failure(NotConfigured(Year))
  }

  function GetApi(c: Config): Result<string, Error>
  {
    if IsSet(c, Api) then Success(c.api.value) else Failure(Require(c, [Year, Api]).error)
  }

  function GetDatabase(c: Config): Result<string, Error>
  {
    if IsSet(c, Database) then Success(c.database.value) else Failure(Require(c, [Year, Api, Database]).error)
  }

  function GetTable(c: Config): Result<string, Error>
  {
    if IsSet(c, Table) then Success(c.table.value) else Failure(Require(c, TableChain).error)
  }

  function GetConcepts(c: Config): Result<seq<string>, Error>
  {
    if IsSet(c, Concepts) then Success(c.concepts.value)
    else Failure(Require(c, TableChain + [Concepts]).error)
  }

  /** The list, or None after `clear_variables`. */
  function GetVariables(c: Config): Result<Option<seq<string>>, Error>
  {
    match c.variables
    case Missing => Failure(NotConfigured(Variables))
    case Null => Success(None)
    case Present(vs) => Success(Some(vs))
  }

  function GetGeography(c: Config): Result<string, Error>
  {
    if IsSet(c, Geography) then Success(c.geography.value) else Failure(Require(c, GeographyChain).error)
  }

  function GetGeographyValues(c: Config): Result<Option<seq<string>>, Error>
  {
    match c.geographyValues
    case Missing => Failure(NotConfigured(GeographyValues))
    case Null => Success(None)
    case Present(vs) => Success(Some(vs))
  }

  // Catalog lookups.

  function PullYears(idx: Catalog.Index): set<string>
  {
    idx.Keys
  }

  function PullApis(c: Config, idx: Catalog.Index): Result<set<string>, Error>
    requires Known(c, idx)
  {
    if c.year.None? then Failure(NotConfigured(Year)) else Success(idx[c.year.value].Keys)
  }

  function PullDatabases(c: Config, idx: Catalog.Index): Result<set<string>, Error>
    requires Known(c, idx)
  {
    match Require(c, [Year, Api])
    case Fail(e) => Failure(e)
    case Pass =>
      assert IsSet(c, Year) && IsSet(c, Api);
      Success(idx[c.year.value][c.api.value].Keys)
  }

  function PullTables(c: Config, idx: Catalog.Index): Result<seq<string>, Error>
    requires Known(c, idx)
  {
    match Require(c, [Year, Api, Database])
    case Fail(e) => Failure(e)
    case Pass =>
      assert IsSet(c, Year) && IsSet(c, Api) && IsSet(c, Database);
      Success(idx[c.year.value][c.api.value][c.database.value])
  }

  /** `pull_concepts`: the concepts of the table's variables document. */
  function PullConcepts(c: Config, doc: Metadata.Document): Result<seq<string>, Error>
  {
    match Require(c, TableChain)
    case Fail(e) => Failure(e)
    case Pass => Success(Keys(Metadata.Grouped(doc)))
  }

  /** `pull_variables(as_list=True)`: the variables of the selected concepts, which the
      remote document yields as `fetched`. A getter that raises is caught and the frame is
      pulled again; its getters ask for the year, then the database, whose message asks for
      the api before it, and the table, so the first unset field of the path is named.
      Without concepts the call always fails: the filter reads the unbound local `concepts`. */
  function VariableUniverse(c: Config, fetched: seq<string>): Result<seq<string>, Error>
  {
    match Require(c, TableChain)
    case Fail(e) => Failure(e)
    case Pass => if c.concepts.None? then Failure(UnboundConcepts) else Success(fetched)
  }

  lemma DeleteChainKnown(c: Config, idx: Catalog.Index, fields: seq<Field>)
    requires Known(c, idx)
    ensures Known(DeleteChain(c, fields), idx)
  {
    var r := DeleteChain(c, fields);
    assert IsSet(r, Year) ==> Agree(r, c, Year);
    assert IsSet(r, Api) ==> Agree(r, c, Api);
    assert IsSet(r, Database) ==> Agree(r, c, Database);
    assert IsSet(r, Table) ==> Agree(r, c, Table);
  }

  // Setters.

  /** `set_year` */
  function SetYear(c: Config, idx: Catalog.Index, year: Scalar): Step
  {
    var c1 := DeleteChain(c, YearDependents);
    if Str(year) in PullYears(idx) then Step(c1.(year := Some(Str(year))), Pass)
    else Step(c1, Fail(InvalidSelection(Year)))
  }

  /** `set_api` */
  function SetApi(c: Config, idx: Catalog.Index, api: string): Step
    requires Known(c, idx)
  {
    var c1 := DeleteChain(c, ApiDependents);
    DeleteChainKnown(c, idx, ApiDependents);
    match PullApis(c1, idx)
    case Failure(e) => Step(c1, Fail(e))
    case Success(apis) =>
      if api in apis then Step(c1.(api := Some(api)), Pass) else Step(c1, Fail(InvalidSelection(Api)))
  }

  /** `set_database` */
  function SetDatabase(c: Config, idx: Catalog.Index, database: string): Step
    requires Known(c, idx)
  {
    var c1 := DeleteChain(c, DatabaseDependents);
    DeleteChainKnown(c, idx, DatabaseDependents);
    match PullDatabases(c1, idx)
    case Failure(e) => Step(c1, Fail(e))
    case Success(databases) =>
      if database in databases then Step(c1.(database := Some(database)), Pass)
      else Step(c1, Fail(InvalidSelection(Database)))
  }

  /** `set_table`: the `detail` sentinel is accepted without being looked up, but only once
      the tables could be pulled. */
  function SetTable(c: Config, idx: Catalog.Index, table: string): Step
    requires Known(c, idx)
  {
    var c1 := DeleteChain(c, TableDependents);
    DeleteChainKnown(c, idx, TableDependents);
    match PullTables(c1, idx)
    case Failure(e) => Step(c1, Fail(e))
    case Success(tables) =>
      if table in tables || table == Urls.Detail then Step(c1.(table := Some(table)), Pass)
      else Step(c1, Fail(InvalidSelection(Table)))
  }

  /** The loop of `set_concepts`: each argument in turn is checked against a fresh pull of
      the concepts; the first failure raises. */
  function CheckConcepts(c: Config, args: seq<string>, doc: Metadata.Document): Outcome<Error>
  {
    if args == [] then Pass
    else match PullConcepts(c, doc)
      case Failure(e) => Fail(e)
      case Success(concepts) =>
        if args[0] in concepts then CheckConcepts(c, args[1..], doc) else Fail(InvalidSelection(Concepts))
  }

  /** `set_concepts(*args)`. Its `args == []` guard compares a tuple with a list and never
      fires, so a call without arguments stores the empty list. */
  function SetConcepts(c: Config, args: seq<string>, doc: Metadata.Document): Step
  {
    var c1 := DeleteChain(c, [Variables]);
    match CheckConcepts(c1, args, doc)
    case Fail(e) => Step(c1, Fail(e))
    case Pass => Step(c1.(concepts := Some(args)), Pass)
  }

  /** `add_variable`. The `try` block appends an allowed (or `NAME`) variable to an
      existing list that lacks it; anything else it does raises, and the bare `except`
      then resets the list to `[]`, pulls the universe again, and keeps the variable
      only if it is in the universe. */
  function AddVariable(c: Config, variable: string, fetched: seq<string>): Step
  {
    match VariableUniverse(c, fetched)
    case Failure(e) => Step(c.(variables := Present([])), Fail(e))
    case Success(allowed) =>
      if (variable in allowed || variable == "NAME") && c.variables.Present? && variable !in c.variables.value
      then Step(c.(variables := Present(c.variables.value + [variable])), Pass)
      else if variable in allowed then Step(c.(variables := Present([variable])), Pass)
      else Step(c.(variables := Present([])), Fail(VariableNotAllowed(variable)))
  }

  /** `set_variables(*args)`: `add_variable` for each argument until one raises. */
  function SetVariables(c: Config, args: seq<string>, fetched: seq<string>): Step
    decreases |args|
  {
    if args == [] then Step(c, Pass)
    else
      var s := AddVariable(c, args[0], fetched);
      if s.outcome.Fail? then s else SetVariables(s.config, args[1..], fetched)
  }

  /** `clear_variables` */
  function ClearVariables(c: Config): Config
  {
    c.(variables := Null)
  }

  /** `set_geography`: the values are reset to None first; a geography of the table's
      geography list is stored with the wildcard value. */
  function SetGeography(c: Config, geography: string, names: seq<string>): Step
  {
    var c1 := c.(geographyValues := Null);
    match Require(c1, TableChain)
    case Fail(e) => Step(c1, Fail(e))
    case Pass =>
      if geography in names then Step(c1.(geography := Some(geography), geographyValues := Present(["*"])), Pass)
      else Step(c1, Fail(GeographyNotAllowed(geography)))
  }

  /** `add_geography_value`: `codes` is the code column of the geography's values. A
      value of the column replaces the wildcard or is appended; values that are missing
      or None start a new list. */
  function AddGeographyValue(c: Config, value: Scalar, codes: seq<string>): Step
  {
    match Require(c, GeographyChain)
    case Fail(e) => Step(c, Fail(e))
    case Pass =>
      assert IsSet(c, Table);
      if c.table.value == Urls.Detail then Step(c, Fail(DetailNotTabular))
      else if !(value.Text? && value.s in codes) then Step(c, Fail(GeographyValueNotAllowed(value)))
      else
        var v := Str(value);
        var values := match c.geographyValues
          case Present(vs) => if "*" in vs then [v] else vs + [v]
          case _ => [v];
        Step(c.(geographyValues := Present(values)), Pass)
  }

  // Requests.

  /** The URL of `pull_data`. */
  function DataRequest(c: Config): Result<string, Error>
  {
    match Require(c, DataChain)
    case Fail(e) => Failure(e)
    case Pass =>
      assert IsSet(c, Year) && IsSet(c, Api) && IsSet(c, Database) && IsSet(c, Table);
      assert IsSet(c, Variables) && IsSet(c, Geography) && IsSet(c, GeographyValues);
      if c.variables.Null? then Failure(NotJoinable(Variables))
      else if c.geographyValues.Null? then Failure(NotJoinable(GeographyValues))
      else Success(Urls.DataUrl(c.year.value, c.api.value, c.database.value, c.table.value,
                                c.variables.value, c.geography.value, c.geographyValues.value))
  }

  /** The URL of `pull_geography_values`. */
  function GeographyValuesRequest(c: Config): Result<string, Error>
  {
    match Require(c, GeographyChain)
    case Fail(e) => Failure(e)
    case Pass =>
      assert IsSet(c, Year) && IsSet(c, Api) && IsSet(c, Database) && IsSet(c, Table) && IsSet(c, Geography);
      Success(Urls.GeographyValuesUrl(c.year.value, c.api.value, c.database.value, c.table.value, c.geography.value))
  }

  /** The URL of a table's metadata document (`variables` or `geography`), as the pulls of
      concepts and geographies request it. */
  function MetadataRequest(c: Config, endpoint: string): Result<string, Error>
  {
    match Require(c, TableChain)
    case Fail(e) => Failure(e)
    case Pass =>
      assert IsSet(c, Year) && IsSet(c, Api) && IsSet(c, Database) && IsSet(c, Table);
      Success(Urls.Link(c.year.value, c.api.value, c.database.value, c.table.value, endpoint, Some("json")).value)
  }
}
