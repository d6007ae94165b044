/**
 * The configuration-dependent parts of the exported factory: the API host chosen from the
 * location, and the request object the search function sends.
 */
module SearchFactory {
  import opened Wrappers

  const GlobalLocation := "global"
  const GlobalEndpoint := "discoveryengine.googleapis.com"

  /** `location = 'global'` in the destructuring: the default applies only when it is undefined. */
  function Location(configured: Option<string>): string
  {
    if configured.Some? then configured.value else GlobalLocation
  }

  /** The `apiEndpoint` expression: the global host, or the location-prefixed regional host. */
  function ApiEndpoint(configured: Option<string>): (host: string)
    ensures host == GlobalEndpoint <==> Location(configured) == GlobalLocation
    ensures Location(configured) != GlobalLocation ==> host == Location(configured) + "-" + GlobalEndpoint
  {
    var location := Location(configured);
    if location == GlobalLocation then GlobalEndpoint else location + "-" + GlobalEndpoint
  }

  /** Different locations never share a host. */
  lemma ApiEndpointInjective(a: Option<string>, b: Option<string>)
    ensures ApiEndpoint(a) == ApiEndpoint(b) <==> Location(a) == Location(b)
  {
    var la, lb := Location(a), Location(b);
    if ApiEndpoint(a) == ApiEndpoint(b) && la != GlobalLocation && lb != GlobalLocation {
      var suffix := "-" + GlobalEndpoint;
      assert la + "-" + GlobalEndpoint == la + suffix && lb + "-" + GlobalEndpoint == lb + suffix;
      assert |la| == |lb|;
      assert la == (la + suffix)[..|la|];
      assert lb == (lb + suffix)[..|lb|];
    }
  }

  /** The string `+` makes of a value that is a string or undefined. */
  function ConcatText(v: Option<string>): string
  {
    if v.Some? then v.value else "undefined"
  }

  /** `if (context) { query += '\n' + context; }` */
  function SentQuery(query: Option<string>, context: Option<string>): (q: Option<string>)
    ensures !Truthy(context) ==> q == query
    ensures Truthy(context) ==> q == Some(ConcatText(query) + "\n" + context.value)
  {
    if Truthy(context) then Some(ConcatText(query) + "\n" + context.value) else query
  }

  /** The text of s before its first newline. */
  function FirstLine(s: string): (line: string)
    ensures |line| <= |s| && line == s[..|line|]
    ensures '\n' !in line
  {
    if s == [] || s[0] == '\n' then [] else [s[0]] + FirstLine(s[1..])
  }

  /** The text of s after its first newline, or "" when it has none. */
  function AfterFirstLine(s: string): string
  {
    if s == [] then [] else if s[0] == '\n' then s[1..] else AfterFirstLine(s[1..])
  }

  /** Joining a line without a newline to a rest with "\n" can be split back at the first newline. */
  lemma {:induction false} SplitJoinedLines(line: string, rest: string)
    requires '\n' !in line
    ensures FirstLine(line + "\n" + rest) == line
    ensures AfterFirstLine(line + "\n" + rest) == rest
  {
    if line != [] {
      var s := line + "\n" + rest;
      assert s[0] == line[0] && s[1..] == line[1..] + "\n" + rest;
      SplitJoinedLines(line[1..], rest);
    } else {
      assert line + "\n" + rest == "\n" + rest;
    }
  }

  /**
   * The sent query keeps both parts apart: for a query without a newline and a truthy
   * context, the first line of the text sent is the query and the rest is the context.
   */
  lemma QueryAndContextRecoverable(query: string, context: string)
    requires '\n' !in query && Truthy(Some(context))
    ensures SentQuery(Some(query), Some(context)).Some?
    ensures FirstLine(SentQuery(Some(query), Some(context)).value) == query
    ensures AfterFirstLine(SentQuery(Some(query), Some(context)).value) == context
  {
    SplitJoinedLines(query, context);
  }

  /** A JSON-like JavaScript value, as a configured search option may hold. */
  datatype JsValue =
    | Undefined
    | Null
    | Bool(b: bool)
    | Number(n: int)
    | Text(s: string)
    | List(items: seq<JsValue>)
    | Record(props: map<string, JsValue>)

  /** A string parameter that may be undefined, as an object property. */
  function OptionalText(v: Option<string>): JsValue
  {
    if v.Some? then Text(v.value) else Undefined
  }

  /**
   * `Object.assign(target, source)`: every own property of the source overwrites the target's;
   * an undefined or null source adds nothing.
   */
  function Assign(target: map<string, JsValue>, source: Option<map<string, JsValue>>): (r: map<string, JsValue>)
    ensures source.None? ==> r == target
    ensures source.Some? ==> r.Keys == target.Keys + source.value.Keys
    ensures source.Some? ==> forall k :: k in source.value ==> r[k] == source.value[k]
    ensures forall k :: k in target && (source.None? || k !in source.value) ==> r[k] == target[k]
  {
    if source.Some? then target + source.value else target
  }

  /** The request `searchFunction` builds from its arguments and the factory's configuration. */
  function SearchRequest(query: Option<string>, context: Option<string>, filters: Option<string>,
                         servingConfig: string, searchConfig: Option<map<string, JsValue>>): (req: map<string, JsValue>)
    ensures forall k :: k in req <==>
      k in {"query", "filters", "servingConfig"} || (searchConfig.Some? && k in searchConfig.value)
    ensures searchConfig.Some? ==> forall k :: k in searchConfig.value ==> req[k] == searchConfig.value[k]
    ensures (searchConfig.None? || "query" !in searchConfig.value) ==>
      req["query"] == OptionalText(SentQuery(query, context))
    ensures (searchConfig.None? || "filters" !in searchConfig.value) ==>
      req["filters"] == OptionalText(filters)
    ensures (searchConfig.None? || "servingConfig" !in searchConfig.value) ==>
      req["servingConfig"] == Text(servingConfig)
  {
    var defaults := map[
      "query" := OptionalText(SentQuery(query, context)),
      "filters" := OptionalText(filters),
      "servingConfig" := Text(servingConfig)];
    Assign(defaults, searchConfig)
  }
}
