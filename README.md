# Census client: a verified model

`census.py` defines `Census`, a client for the U.S. Census Bureau's data API. On
construction it reads the catalog of datasets and builds a nested index: year, then api,
then database, then a list of tables. A user then narrows a selection one field at a time:
year, api, database, table, concepts, variables, geography and geography values. Every
setter validates its argument against the index or against a document fetched from the
API. The year, api, database and table setters also delete the finer selections first,
in a `try` block that stops at the first attribute that does not exist. Once everything
is selected, `pull_data` builds a request URL. The table's variables document is grouped
by concept, and it can be flattened into columns.

This project models that core in Dafny and proves what it promises.

| module | file | what it holds |
|---|---|---|
| `Catalog` | catalog.dfy | the index-building loop of `__init__` (`Build`), with reference definitions of what each level of the index holds |
| `Variables` | variables.dfy | `process_variables_and_concepts` (`GroupByConcept`) and the flattening loops of `pull_concepts_and_variables` (`Flatten`) |
| `Urls` | urls.dfy | `get_link`, the `pull_data` and `pull_geography_values` URL expressions, and a parser that reads a data URL back |
| `Configuration` | configuration.dfy | the selections as a value (`Config`), and each setter, getter, catalog pull and request as a function of it |
| `Cascade` | cascade.dfy | which fields the catalog-path setters delete, and which field a failing getter names |
| `Selections` | selections.dfy | concepts, variables and geography; validity; the request URLs |
| `Client` | client.dfy | the class `Census` with the same fields, whose methods update them in place and are proved equal to the `Configuration` functions |
| `Wrappers`, `Seqs`, `Strings`, `Dicts` | | `Option`/`Result`, first-seen deduplication, `str`/`join`/`split`, insertion-ordered Python dicts as sequences of pairs (the catalog index is the exception, see "Left out") |

Remote documents are parameters of the operations that read them. These are:
- the catalog's dataset descriptors;
- a table's variables document;
- the geography name list;
- the geography code column;
- the allowed-variable list.

Two behaviours of the code are easy to misread. The model follows the code in both:
- Adding an allowed variable that is already listed does not raise. The duplicate check
  at census.py:305-306 raises "Variable … already exists" inside the `try`, the bare
  `except` at census.py:310 swallows it and rebuilds the list, and the list ends up
  holding only that variable. This is `Selections.AddVariableTwice`. (`NAME` that is
  listed but not allowed is different: the rebuilt list stays empty and the call raises
  "not allowed".)
- A setter does not always clear every finer field. The `del` statements of a setter,
  such as the six at census.py:92-97, share one `try`, so the first attribute that is
  already missing stops the rest and later attributes survive. This is
  `Cascade.GeographySurvivesSetYear`.

## Model

| member | source | states |
|---|---|---|
| Catalog.Build | census.py:16-45 | Construction succeeds iff no dataset with a vintage lacks a path. On success the index holds exactly the years, apis, databases and first-seen table lists of the descriptors. On failure it reports the first bad descriptor's error, and the partial index already holds that descriptor's year |
| Catalog.AddDescriptor | census.py:19-45 | One loop iteration adds exactly one descriptor's year, api, database and table to the index. It raises iff the descriptor has a vintage but no path, after recording the year |
| Catalog.FirstMalformed | census.py:23-25 | There is no position iff no descriptor makes construction raise; otherwise the position holds such a descriptor and every earlier descriptor is well formed |
| Catalog.FirstMalformedExtends | census.py:18-25 | Once a prefix of the catalog has a bad descriptor, the whole catalog fails at the same one |
| Catalog.YearsElements | census.py:19-22 | A year is in the index iff some descriptor has that vintage |
| Catalog.ApisElements | census.py:27-29 | An api is listed under a year iff some descriptor of that year names it first |
| Catalog.DatabasesElements | census.py:32-36 | A database is listed iff some descriptor has that year, api and second path element |
| Catalog.TablesElements | census.py:39-44 | A table is seen iff some descriptor has that full path |
| Catalog.Recorded | census.py:18-44 | Every descriptor's year, api, database and table appear in the index |
| Catalog.Sourced | census.py:18-44 | Every entry of the index comes from some descriptor |
| Catalog.TablesFirstSeen | census.py:41-44 | A table list has no duplicates, holds exactly the tables seen, and keeps them in first-seen order |
| Catalog.NoVintageIgnored | census.py:19 | A descriptor without a vintage changes nothing |
| Catalog.DescribesUnique | census.py:16-45 | The descriptors determine the index completely |
| Catalog.SingleDescriptor | census.py:19-44 | A one-descriptor catalog gives the one-path index of length 1, 2 or 3 |
| Strings.StrInjectiveOnInts | census.py:102-103 | `str` of an integer year is injective, so distinct integer years never select the same key |
| Variables.AddToGroup | census.py:197-209 | One iteration of the grouping loop: the groups of the document one variable longer |
| Variables.GroupByConcept | census.py:192-211 | The loop computes the grouping of the whole document |
| Variables.GroupedShape | census.py:197-209 | Concepts appear in first-seen order without duplicates, exactly the concepts that occur. Each concept holds the entries of its variables |
| Variables.GroupedCount | census.py:197-209 | The groups hold one entry per variable that has a concept |
| Variables.MembersElements | census.py:197-209 | An entry is in a concept's group iff some variable of the document with that concept produced it |
| Variables.EntryShape | census.py:205-207 | An entry is the variable's attributes, with `variable` first and without `concept` |
| Variables.AddColumns | census.py:256-258 | Appending a variable's keys that are not yet columns gives the first-seen deduplication |
| Variables.CollectColumns | census.py:253-258 | The column loop computes `concept` followed by every key in first-seen order |
| Variables.EmptyFrame | census.py:259-261 | Every column starts empty |
| Variables.AddRow | census.py:265-271 | One variable adds its concept, its own values and `None` in every other column, so all columns stay the same length |
| Variables.AppendAttributes | census.py:265-268 | The concept and each attribute of the entry go to the end of their own columns, every other column is untouched, and `max_col_len` ends one past the old common length |
| Variables.PadColumns | census.py:269-271 | Exactly the columns the entry has no value for get a None, so every column gains the entry's cell |
| Variables.Flatten | census.py:243-271 | The two loops compute the columns and, column by column, the cells of every row |
| Variables.ColumnsShape | census.py:253-258 | `concept` comes first, columns are distinct, and they are exactly the keys in first-seen order |
| Variables.RowsCount | census.py:263-264 | One row per grouped variable |
| Variables.RowsAt | census.py:263-264 | Rows run concept by concept, in group order |
| Variables.GroupedClean | census.py:205-207 | No grouped entry carries a `concept` key |
| Variables.FrameOfDocument | census.py:243-271 | Each column of the flattened document has one cell per variable with a concept. The cell is the row's concept or its attribute, else `None` |
| Urls.ParseDataUrlRoundTrip | census.py:426-432 | The data URL reads back as the dataset path, the variables, the geography and its values |
| Urls.ParseQueryRoundTrip | census.py:426-432 | The query reads back as the `get` list and the `for` parameter |
| Urls.ParseForRoundTrip | census.py:426-432 | The `for` parameter reads back as the geography and its value list |
| Urls.DataUrlPath | census.py:426-432 | The path leaves out the table exactly when it is `detail` |
| Urls.GeographyValuesIsDataPull | census.py:369-372 | The geography-values URL is the data URL for `NAME` and `*` |
| Urls.LinkSegments | census.py:182-187 | `get_link` gives nothing for a falsy extension. Otherwise it gives the dataset path followed by `endpoint.extension` |
| Configuration.Unset | census.py:93-98 | Deleting an attribute unsets it and nothing else |
| Configuration.DeleteChain | census.py:92-101 | The `del` chain changes only listed fields, and only by unsetting them |
| Configuration.SetPrefix | census.py:92-101 | The number of leading listed fields that exist |
| Configuration.Require | census.py:175-179 | Calling getters in order passes iff every field exists |
| Configuration.DeleteChainKnown | census.py:92-101 | Deleting keeps every remaining selection a key of the index |
| Cascade.DeleteChainExact | census.py:92-101 | The chain deletes exactly its leading set fields and keeps every other field |
| Cascade.RequireNamesFirstUnset | census.py:107-179 | A failing getter chain names its first unset field |
| Cascade.RequireFirstUnset | census.py:107-179 | The first unset field of a chain is the one its getters raise for |
| Cascade.GetYearReports | census.py:91-113 | `get_year` raises iff no year is stored (as on a new client), and after `set_year` returns `str(year)` when the catalog lists it, else what it returned before |
| Cascade.GetApiReports | census.py:130-136 | `get_api` raises iff no api is stored; the error names the first unset field of year, api (the message calls `get_year` first) |
| Cascade.GetDatabaseReports | census.py:152-158 | `get_database` raises iff no database is stored, naming the first unset field of year, api, database |
| Cascade.GetTableReports | census.py:175-179 | `get_table` raises iff no table is stored, naming the first unset field of the path |
| Cascade.GetConceptsReports | census.py:237-241 | `get_concepts` raises iff no concepts are stored, naming the first unset field of the path and concepts |
| Cascade.GetGeographyReports | census.py:354-359 | `get_geography` raises iff no geography is stored, naming the first unset field of the path and geography |
| Cascade.GetVariablesReports | census.py:220-325 | `get_variables` raises on a new client and after `set_concepts` deletes the list, gives None after `clear_variables`, and after `add_variable` gives a list holding the variable on success and empty on failure |
| Cascade.GetGeographyValuesReports | census.py:330-393 | `get_geography_values` fails on a new client; after `set_geography` it gives `['*']` on success and None on failure; an accepted `add_geography_value` ends the list with `str(value)`, a rejected one changes nothing |
| Cascade.PullDatabasesSpec | census.py:78-81 | `pull_databases` asks for year then api, else gives the databases of that api |
| Cascade.PullTablesSpec | census.py:83-89 | `pull_tables` asks for year, api, database in order, else gives that database's tables |
| Cascade.SetYearSpec | census.py:91-104 | `set_year` deletes its leading set dependents, keeps everything else, and accepts iff `str(year)` is a year of the index |
| Cascade.SetApiSpec | census.py:115-128 | `set_api` deletes its dependents. It needs a year and accepts an api of that year, otherwise it keeps the old api |
| Cascade.SetDatabaseSpec | census.py:138-150 | `set_database` deletes its dependents. It needs a year and an api, and accepts a database of them |
| Cascade.SetTableSpec | census.py:160-173 | `set_table` deletes its dependents. It needs a database and accepts a listed table or `detail` |
| Cascade.GeographySurvivesSetYear | census.py:92-101 | Without concepts, the chain stops early: `set_year` keeps the variables and the geography |
| Cascade.SetYearClearsAllSet | census.py:92-101 | When every dependent exists, `set_year` clears them all |
| Cascade.PathSettersKeepGeographyValues | census.py:91-173 | No catalog setter touches the geography values |
| Selections.CheckConceptsSpec | census.py:230-234 | The concepts loop passes iff there are no arguments, or the table is set and every argument is a concept of the document |
| Selections.SetConceptsSpec | census.py:220-235 | `set_concepts` always deletes the variables. It stores the arguments iff each is a concept, otherwise it keeps the old concepts |
| Selections.SetConceptsEmpty | census.py:226-235 | No arguments store the empty list, even with nothing selected |
| Selections.VariableUniverseReports | census.py:276-297 | `pull_variables(as_list=True)` yields the list iff year, api, database, table and concepts are set; otherwise it names the first unset field of the path, as the getters of `pull_concepts_and_variables` and the api-first message of `get_database` do, or fails on the unbound `concepts` |
| Selections.AddVariableNeedsApi | census.py:302-315 | with only the year set, `add_variable` raises the api getter's error, not the database's |
| Selections.AddVariableSpec | census.py:302-315 | `add_variable` changes only the variable list. Without a universe it fails with `[]`. A variable that is neither allowed nor `NAME` fails with `[]` |
| Selections.AddVariableInvariant | census.py:302-315 | The list stays free of duplicates and holds only allowed names or `NAME`. After success the variable is in it |
| Selections.AddVariableAppends | census.py:304-307 | A new allowed variable is appended to the existing list |
| Selections.AddVariableTwice | census.py:304-315 | Adding an allowed variable twice leaves that variable alone in the list |
| Selections.AddName | census.py:304-315 | `NAME` is appended only to an existing list that lacks it |
| Selections.SetVariablesKeeps | census.py:317-319 | `set_variables` changes only the variable list |
| Selections.SetVariablesAppend | census.py:317-319 | Distinct new allowed arguments are appended in order |
| Selections.SetVariablesFresh | census.py:317-319 | Without a list, distinct allowed arguments become the list |
| Selections.SetGeographySpec | census.py:330-341 | `set_geography` always resets the values to None. It accepts a listed geography with `['*']`, otherwise it keeps the geography |
| Selections.AddGeographyValueSpec | census.py:378-390 | `add_geography_value` fails without change outside the code column or on a `detail` table. Otherwise the value ends the list, replacing a `*` or extending it |
| Selections.GeographyValuesAfterSetGeography | census.py:330-390 | After `set_geography`, the first value replaces `*` and the second is appended |
| Selections.SetYearValid | census.py:91-104 | `set_year` keeps the selections known to the index and chained |
| Selections.SetApiValid | census.py:115-128 | `set_api` keeps the configuration valid |
| Selections.SetDatabaseValid | census.py:138-150 | `set_database` keeps the configuration valid |
| Selections.SetTableValid | census.py:160-173 | `set_table` keeps the configuration valid |
| Selections.SetConceptsValid | census.py:220-235 | `set_concepts` keeps the configuration valid |
| Selections.AddVariableValid | census.py:302-315 | `add_variable` keeps the configuration valid |
| Selections.SetVariablesValid | census.py:317-319 | `set_variables` keeps the configuration valid |
| Selections.SetGeographyValid | census.py:330-341 | `set_geography` keeps the configuration valid |
| Selections.AddGeographyValueValid | census.py:378-390 | `add_geography_value` keeps the configuration valid |
| Selections.FreshValid | census.py:10-47 | A new client is valid, and its data pull fails at the year |
| Selections.DataRequestSpec | census.py:416-432 | `pull_data` builds a URL iff every field it reads exists and neither list is None. Otherwise it fails at the first getter or at the join |
| Selections.DataRequestRoundTrip | census.py:416-432 | A complete configuration's URL reads back as its own selections |
| Selections.GeographyValuesRequestSpec | census.py:361-372 | `pull_geography_values` needs the chain up to the geography and requests `NAME` for `*` |
| Selections.MetadataRequestSpec | census.py:343-348 | The metadata documents are requested as `.json` below the dataset path |
| Selections.DataRequestExample | census.py:416-427 | The example request for the `detail` table of the 2020 five-year ACS succeeds, and its URL reads back with no table segment |
| Client.Census.constructor | census.py:10-47 | A new client has no selection and is valid |
| Client.Census.Open | census.py:10-47 | Construction succeeds iff no descriptor is malformed, giving a fresh valid client whose index the descriptors describe; otherwise it raises the first malformed descriptor's error, with the partial index describing the descriptors up to it and holding its year |
| Client.Census.Delete | census.py:93 | `del` removes an existing attribute and reports whether it existed |
| Client.Census.DeleteChain | census.py:92-101 | The `try`/`del` block updates the object as `Configuration.DeleteChain` |
| Client.Census.SetYear | census.py:91-104 | The object becomes `Configuration.SetYear` of its old state, and stays valid |
| Client.Census.SetApi | census.py:115-128 | As `Configuration.SetApi`, staying valid |
| Client.Census.SetDatabase | census.py:138-150 | As `Configuration.SetDatabase`, staying valid |
| Client.Census.SetTable | census.py:160-173 | As `Configuration.SetTable`, staying valid |
| Client.Census.PullConcepts | census.py:213-218 | Groups the document and returns its concepts, once the table is set |
| Client.Census.SetConcepts | census.py:220-235 | The loop gives `Configuration.SetConcepts`, staying valid |
| Client.Census.AddVariable | census.py:302-315 | The `try`/`except` gives `Configuration.AddVariable`, staying valid |
| Client.Census.SetVariables | census.py:317-319 | The loop gives `Configuration.SetVariables`, staying valid |
| Client.Census.ClearVariables | census.py:299-300 | The variables become None |
| Client.Census.SetGeography | census.py:330-341 | As `Configuration.SetGeography`, staying valid |
| Client.Census.AddGeographyValue | census.py:378-390 | As `Configuration.AddGeographyValue`, staying valid |
| Client.Census.DataUrl | census.py:416-432 | The getters in source order, then the joins, give `Configuration.DataRequest` |

## Left out

- Network access, JSON decoding and `ast.literal_eval` are not modelled. The remote documents are parameters.
- The data and geography-value responses are not modelled, and neither is the raw text that a `detail` pull returns. The model builds the request URLs only.
- pandas frames, `pull_variables`'s `isin` filtering and the `iloc[:, 1]` column pick are not modelled. The allowed variables and the geography code column are given sequences.
- `label_data`, `info`, `msg.warn`, `print`, `get_api_data`, `get_api_options`, `get_token`, `set_token` and `get_token_str` are not modelled. They are output or plain accessors, and the token is kept as a constant.
- `pull_variables` without concepts reads an unbound local. The model treats this as an always-failing universe (`UnboundConcepts`), not as Python's exception.
- `set_geography` with a geography outside the list calls a method that does not exist. The model reports `GeographyNotAllowed`; the exact exception type is not modelled.
- The `requires` warning loop of `set_geography` only prints, so it is not modelled.
- The model assumes a remote document is the same each time one operation pulls it, for example in each iteration of `set_concepts`.
- Attribute values in the variables document are modelled as strings.
- The error messages' text is not modelled, only which field or value they are about.
- The catalog index keeps the years, the apis of a year and the databases of an api as the key sets of maps (`Catalog.Index`), so `Configuration.PullYears`, `Configuration.PullApis` and `Configuration.PullDatabases` return sets: the first-seen order of those keys, which `pull_years`, `pull_apis` and `pull_databases` return and their error messages show, is not modelled. Only the table lists keep their order (`Catalog.TablesFirstSeen`).
- Values stand in for the live lists the client hands out. `Configuration.PullTables`, `Configuration.GetVariables` and `Configuration.GetGeographyValues` return copies, while the source returns the index's own table list and the client's own `__variables` and `__geography_values` lists. The model therefore does not capture aliasing: a caller who mutates a returned list changes the client's index or selection, and the in-place append of `add_variable` changes a list the caller already holds.
- Variables.AddRow: stated only for an entry with at least one key. Every grouped entry has the `variable` key; an entry without keys would leave `max_col_len` unbound or stale.
