/**
 * The Micropub query dispatcher (section 3.7 of the W3C Micropub
 * Recommendation): `q=config`, `q=source` and `q=syndicate-to` are answered
 * with a status code and a body; any other `q` is an `invalid_request` error.
 */
module Query {
  import opened Wrappers
  import opened Json

  /** The parsed query string: `q`, and for `q=source` the `url` and `properties` parameters. */
  datatype QueryRequest = QueryRequest(q: Value, url: Value, properties: Value)

  datatype Response =
    | Answer(code: nat, body: Value)  // `{code, body}`
    | ErrorResponse(error: string)    // `response.error(error)`
    | Rejected(reason: string)        // the resolver's rejection, passed through unchanged

  /**
   * The external resolver from a URL (and an optional property filter) to
   * its mf2 document; it may reject.
   */
  type UrlToMf2 = (Value, Value) -> Result<Value, string>

  const OK: nat := 200

  /** `pubConfig['media-endpoint'] || appUrl + '/media'` */
  function MediaEndpoint(pubConfig: seq<Member>, appUrl: string): (v: Value)
    ensures Truthy(Get(pubConfig, "media-endpoint")) ==> v == Get(pubConfig, "media-endpoint")
    ensures !Truthy(Get(pubConfig, "media-endpoint")) ==> v == Str(appUrl + "/media")
    ensures Truthy(v)
  {
    var configured := Get(pubConfig, "media-endpoint");
    if Truthy(configured) then configured else Str(appUrl + "/media")
  }

  /** `pubConfig['syndicate-to'] || []` */
  function SyndicateTo(pubConfig: seq<Member>): (v: Value)
    ensures Truthy(Get(pubConfig, "syndicate-to")) ==> v == Get(pubConfig, "syndicate-to")
    ensures !Truthy(Get(pubConfig, "syndicate-to")) ==> v == Arr([])
    ensures Truthy(v)
  {
    var configured := Get(pubConfig, "syndicate-to");
    if Truthy(configured) then configured else Arr([])
  }

  /** The query types the dispatcher answers. */
  predicate Known(q: Value) {
    q == Str("config") || q == Str("source") || q == Str("syndicate-to")
  }

  /** The exported dispatcher `(query, pubConfig, appUrl)`. */
  function AnswerQuery(query: QueryRequest, pubConfig: seq<Member>, appUrl: string, urlToMf2: UrlToMf2): (r: Response)
    ensures r.Answer? ==> r.code == OK
    ensures r.ErrorResponse? <==> !Known(query.q)
    ensures r.ErrorResponse? ==> r.error == "invalid_request"
    ensures r.Rejected? ==> query.q == Str("source") && urlToMf2(query.url, query.properties) == Err(r.reason)
  {
    if query.q == Str("config") then
      Answer(OK, Obj([Member("media-endpoint", MediaEndpoint(pubConfig, appUrl)),
                      Member("syndicate-to", SyndicateTo(pubConfig))]))
    else if query.q == Str("source") then
      match urlToMf2(query.url, query.properties)
      case Ok(mf2) => Answer(OK, mf2)
      case Err(reason) => Rejected(reason)
    else if query.q == Str("syndicate-to") then
      Answer(OK, Obj([Member("syndicate-to", SyndicateTo(pubConfig))]))
    else
      ErrorResponse("invalid_request")
  }

  /**
   * `q=config` answers 200 with exactly the two members `media-endpoint`
   * and `syndicate-to`, each the configured value or its default.
   */
  lemma ConfigAnswer(query: QueryRequest, pubConfig: seq<Member>, appUrl: string, urlToMf2: UrlToMf2)
    requires query.q == Str("config")
    ensures var r := AnswerQuery(query, pubConfig, appUrl, urlToMf2);
      && r.Answer? && r.code == OK && r.body.Obj?
      && Keys(r.body.members) == ["media-endpoint", "syndicate-to"]
      && Get(r.body.members, "media-endpoint") ==
           (if Truthy(Get(pubConfig, "media-endpoint")) then Get(pubConfig, "media-endpoint") else Str(appUrl + "/media"))
      && Get(r.body.members, "syndicate-to") ==
           (if Truthy(Get(pubConfig, "syndicate-to")) then Get(pubConfig, "syndicate-to") else Arr([]))
  {
    var ms := AnswerQuery(query, pubConfig, appUrl, urlToMf2).body.members;
    assert ms[0].key == "media-endpoint" && ms[1].key == "syndicate-to";
    assert Keys(ms[..1]) == ["media-endpoint"];
  }

  /** `q=syndicate-to` answers 200 with only the `syndicate-to` member. */
  lemma SyndicateToAnswer(query: QueryRequest, pubConfig: seq<Member>, appUrl: string, urlToMf2: UrlToMf2)
    requires query.q == Str("syndicate-to")
    ensures var r := AnswerQuery(query, pubConfig, appUrl, urlToMf2);
      && r.Answer? && r.code == OK && r.body.Obj?
      && Keys(r.body.members) == ["syndicate-to"]
      && Get(r.body.members, "syndicate-to") ==
           (if Truthy(Get(pubConfig, "syndicate-to")) then Get(pubConfig, "syndicate-to") else Arr([]))
  {
    var ms := AnswerQuery(query, pubConfig, appUrl, urlToMf2).body.members;
    assert ms[0].key == "syndicate-to";
  }

  /** `q=source` answers 200 with whatever the resolver gives for `url` and `properties`, or passes its rejection on. */
  lemma SourceAnswer(query: QueryRequest, pubConfig: seq<Member>, appUrl: string, urlToMf2: UrlToMf2)
    requires query.q == Str("source")
    ensures var r := AnswerQuery(query, pubConfig, appUrl, urlToMf2);
      match urlToMf2(query.url, query.properties)
      case Ok(mf2) => r == Answer(OK, mf2)
      case Err(reason) => r == Rejected(reason)
  {
  }

  /** Every `q` outside the three known ones is `invalid_request`, and never a 200 answer. */
  lemma UnknownQueryIsInvalidRequest(query: QueryRequest, pubConfig: seq<Member>, appUrl: string, urlToMf2: UrlToMf2)
    ensures var r := AnswerQuery(query, pubConfig, appUrl, urlToMf2);
      (r == ErrorResponse("invalid_request")) <==> !Known(query.q)
  {
  }

  /**
   * The `config` and `syndicate-to` answers depend only on `q`, the
   * configuration and the application URL, never on `url`, `properties` or
   * the resolver.
   */
  lemma ConfigIgnoresSourceParameters(query: QueryRequest, other: QueryRequest, pubConfig: seq<Member>,
                                      appUrl: string, resolve: UrlToMf2, resolve': UrlToMf2)
    requires query.q == other.q && query.q != Str("source")
    ensures AnswerQuery(query, pubConfig, appUrl, resolve) == AnswerQuery(other, pubConfig, appUrl, resolve')
  {
  }
}
