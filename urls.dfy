/** The request URLs the client builds: the link to a table's metadata documents
    (`get_link`), the data pull, and the pull of a geography's values. Each is a plain
    string expression; `ParseDataUrl` reads a data-pull URL back into its parts. */
module Urls {
  import opened Wrappers
  import opened Strings

  /** `Census.base_url` */
  const BaseUrl: string := "https://api.census.gov/data"

  /** The sentinel table that stands for the database endpoint itself. */
  const Detail: string := "detail"

  /** The path segments below the base URL: year, api and database, then the table unless
      it is the `detail` sentinel. */
  function DatasetPath(year: string, api: string, database: string, table: string): seq<string>
  {
    if table == Detail then [year, api, database] else [year, api, database, table]
  }

  /** `get_link(year, api, database, table, endpoint, extension)`: the URL of a document
      below the dataset path, or nothing at all when the extension is falsy (missing or
      empty). */
  function Link(year: string, api: string, database: string, table: string,
                endpoint: string, extension: Option<string>): Option<string>
  {
    if extension.Some? && extension.value != "" then
      Some(BaseUrl + "/" + Join("/", DatasetPath(year, api, database, table))
           + "/" + endpoint + "." + extension.value)
    else None
  }

  /** The URL of `pull_data`: the `get` parameter lists the variables, the `for` parameter
      names the geography and its values. No `key` parameter is added. */
  function DataUrl(year: string, api: string, database: string, table: string,
                   variables: seq<string>, geography: string, values: seq<string>): string
  {
    BaseUrl + "/" + Join("/", DatasetPath(year, api, database, table))
    + "?get=" + Join(",", variables) + "&for=" + geography + ":" + Join(",", values)
  }

  /** The URL of `pull_geography_values`: the names of every value of the geography. */
  function GeographyValuesUrl(year: string, api: string, database: string, table: string,
                              geography: string): string
  {
    BaseUrl + "/" + Join("/", DatasetPath(year, api, database, table))
    + "?get=NAME&for=" + geography + ":*"
  }

  /** The parts of a data-pull URL. */
  datatype Query = Query(path: seq<string>, variables: seq<string>, geography: string, values: seq<string>)

  /** Reads a data-pull URL back: the path up to the first `?`, then the query. */
  function ParseDataUrl(url: string): Option<Query>
  {
    var prefix := BaseUrl + "/";
    if |url| < |prefix| || url[..|prefix|] != prefix then None
    else match Partition(url[|prefix|..], '?')
      case None => None
      case Some((path, query)) =>
        match ParseQuery(query)
        case None => None
        case Some(q) => Some(q.(path := Split(path, '/')))
  }

  /** The query: the `get` list up to the first `&`, then the `for` parameter. */
  function ParseQuery(query: string): Option<Query>
  {
    if |query| < 4 || query[..4] != "get=" then None
    else match Partition(query[4..], '&')
      case None => None
      case Some((variables, rest)) =>
        match ParseFor(rest)
        case None => None
        case Some(q) => Some(q.(variables := Split(variables, ',')))
  }

  /** The `for` parameter: the geography up to the first `:` and the values after it. */
  function ParseFor(rest: string): Option<Query>
  {
    if |rest| < 4 || rest[..4] != "for=" then None
    else match Partition(rest[4..], ':')
      case None => None
      case Some((geography, values)) => Some(Query([], [], geography, Split(values, ',')))
  }

  /** The names the URLs are built from contain none of the characters that delimit them. */
  predicate PathSafe(year: string, api: string, database: string, table: string)
  {
    Avoids(year, {'/', '?'}) && Avoids(api, {'/', '?'}) && Avoids(database, {'/', '?'})
    && Avoids(table, {'/', '?'})
  }

  predicate ListSafe(items: seq<string>, delimiters: set<char>)
  {
    |items| >= 1 && forall i :: 0 <= i < |items| ==> Avoids(items[i], delimiters)
  }

  lemma PathAvoids(year: string, api: string, database: string, table: string, chars: set<char>)
    requires chars <= {'/', '?'} && PathSafe(year, api, database, table)
    ensures var p := DatasetPath(year, api, database, table);
      forall i :: 0 <= i < |p| ==> Avoids(p[i], chars)
  {
  }

  /** Whatever the variables, geography and values, the data-pull URL reads back as
      exactly those parts below the dataset path, and nothing after them: the URL carries
      the `get` and `for` parameters and no other. */
  lemma ParseDataUrlRoundTrip(year: string, api: string, database: string, table: string,
                              variables: seq<string>, geography: string, values: seq<string>)
    requires PathSafe(year, api, database, table)
    requires ListSafe(variables, {',', '&'})
    requires Avoids(geography, {':'})
    requires ListSafe(values, {','})
    ensures ParseDataUrl(DataUrl(year, api, database, table, variables, geography, values))
            == Some(Query(DatasetPath(year, api, database, table), variables, geography, values))
  {
    var prefix := BaseUrl + "/";
    var p := DatasetPath(year, api, database, table);
    var path := Join("/", p);
    var query := "get=" + Join(",", variables) + "&for=" + geography + ":" + Join(",", values);
    var url := DataUrl(year, api, database, table, variables, geography, values);
    assert url == prefix + (path + ['?'] + query);
    assert url[..|prefix|] == prefix && url[|prefix|..] == path + ['?'] + query;
    PathAvoids(year, api, database, table, {'/'});
    PathAvoids(year, api, database, table, {'?'});
    JoinAvoids("/", p, {'?'});
    PartitionAt(path, '?', query);
    SplitJoin(p, '/');
    ParseQueryRoundTrip(variables, geography, values);
  }

  lemma ParseQueryRoundTrip(variables: seq<string>, geography: string, values: seq<string>)
    requires ListSafe(variables, {',', '&'})
    requires Avoids(geography, {':'})
    requires ListSafe(values, {','})
    ensures ParseQuery("get=" + Join(",", variables) + "&for=" + geography + ":" + Join(",", values))
            == Some(Query([], variables, geography, values))
  {
    var vs := Join(",", variables);
    var forPart := "for=" + geography + ":" + Join(",", values);
    var query := "get=" + vs + "&" + forPart;
    assert "get=" + vs + "&for=" + geography + ":" + Join(",", values) == query;
    assert query[..4] == "get=" && query[4..] == vs + ['&'] + forPart;
    JoinAvoids(",", variables, {'&'});
    PartitionAt(vs, '&', forPart);
    forall i | 0 <= i < |variables| ensures Avoids(variables[i], {','}) {
      assert Avoids(variables[i], {',', '&'});
    }
    SplitJoin(variables, ',');
    ParseForRoundTrip(geography, values);
  }

  lemma ParseForRoundTrip(geography: string, values: seq<string>)
    requires Avoids(geography, {':'})
    requires ListSafe(values, {','})
    ensures ParseFor("for=" + geography + ":" + Join(",", values))
            == Some(Query([], [], geography, values))
  {
    var vals := Join(",", values);
    var forPart := "for=" + geography + ":" + vals;
    assert forPart[..4] == "for=" && forPart[4..] == geography + [':'] + vals;
    PartitionAt(geography, ':', vals);
    SplitJoin(values, ',');
  }

  /** The data-pull URL leaves out the table segment exactly when the table is the
      `detail` sentinel. */
  lemma DataUrlPath(year: string, api: string, database: string, table: string,
                    variables: seq<string>, geography: string, values: seq<string>)
    requires PathSafe(year, api, database, table)
    requires ListSafe(variables, {',', '&'})
    requires Avoids(geography, {':'})
    requires ListSafe(values, {','})
    ensures var q := ParseDataUrl(DataUrl(year, api, database, table, variables, geography, values));
      && q.Some?
      && (table == Detail ==> q.value.path == [year, api, database])
      && (table != Detail ==> q.value.path == [year, api, database, table])
  {
    ParseDataUrlRoundTrip(year, api, database, table, variables, geography, values);
  }

  /** The geography-values URL is the data-pull URL for the single variable `NAME` and the
      wildcard value `*`. */
  lemma GeographyValuesIsDataPull(year: string, api: string, database: string, table: string,
                                  geography: string)
    ensures GeographyValuesUrl(year, api, database, table, geography)
            == DataUrl(year, api, database, table, ["NAME"], geography, ["*"])
  {
  }

  /** `get_link` gives nothing for a falsy extension; otherwise the URL's segments below the
      base are the dataset path followed by the file name `endpoint.extension`, so the
      `detail` table leaves out its segment here too. */
  lemma LinkSegments(year: string, api: string, database: string, table: string,
                     endpoint: string, extension: Option<string>)
    requires PathSafe(year, api, database, table)
    requires Avoids(endpoint, {'/'}) && (extension.Some? ==> Avoids(extension.value, {'/'}))
    ensures var link := Link(year, api, database, table, endpoint, extension);
      && (link.None? <==> extension.None? || extension.value == "")
      && (link.Some? ==>
            var prefix := BaseUrl + "/";
            && |link.value| >= |prefix| && link.value[..|prefix|] == prefix
            && Split(link.value[|prefix|..], '/')
               == DatasetPath(year, api, database, table) + [endpoint + "." + extension.value])
  {
    var link := Link(year, api, database, table, endpoint, extension);
    if link.Some? {
      var prefix := BaseUrl + "/";
      var p := DatasetPath(year, api, database, table);
      var file := endpoint + "." + extension.value;
      JoinSnoc("/", p, file);
      assert link.value == prefix + Join("/", p + [file]);
      assert link.value[|prefix|..] == Join("/", p + [file]);
      PathAvoids(year, api, database, table, {'/'});
      assert Avoids(file, {'/'});
      SplitJoin(p + [file], '/');
    }
  }
}
