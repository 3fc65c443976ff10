/** The Guardian search-API adapter (sources/guardian.py). The HTTP call is the
    parameter `http`: it either fails (any requests exception, including a bad
    status) or yields the decoded JSON body. */
module Guardian {
  import opened Wrappers
  import opened Rows

  const API_URL := "https://content.guardianapis.com/search"
  const TIMEOUT_SECONDS := 10
  const API_KEY := "api-key"
  const SOURCE_NAME := "The Guardian"

  /** A query-parameter value: the defaults mix strings and one integer. */
  datatype ParamValue = Text(text: string) | Number(number: int)

  type Params = map<string, ParamValue>

  const DEFAULT_PARAMS: Params := map[
    "format" := Text("json"),
    "order-by" := Text("newest"),
    "query-fields" := Text("headline,body"),
    "show-fields" := Text("headline,byline,publication,lastModified,wordcount"),
    "shouldHideAdverts" := Text("true"),
    "page-size" := Number(5),
    "section" := Text("world")
  ]

  datatype Request = Request(url: string, params: Params, timeoutSeconds: int)

  /** The decoded body: every level may lack its key. */
  datatype Fields = Fields(headline: Option<string>, lastModified: Option<string>)
  datatype ApiResult = ApiResult(fields: Option<Fields>, sectionName: Option<string>,
                                 webUrl: Option<string>)
  datatype ResponseBody = ResponseBody(results: Option<seq<ApiResult>>)
  datatype Body = Body(response: Option<ResponseBody>)

  datatype HttpOutcome = RequestFailed | Received(body: Body)

  /** `(params or DEFAULT_PARAMS).copy()` plus the key: absent or empty caller
      params fall back to the defaults; every other entry is copied unchanged. */
  function RequestParams(apiKey: string, params: Option<Params>): (p: Params)
    ensures var base := if params.None? || params.value == map[] then DEFAULT_PARAMS
                        else params.value;
            && p.Keys == base.Keys + {API_KEY}
            && p[API_KEY] == Text(apiKey)
            && forall k :: k in base && k != API_KEY ==> p[k] == base[k]
  {
    var base := if params.Some? && params.value != map[] then params.value else DEFAULT_PARAMS;
    base[API_KEY := Text(apiKey)]
  }

  /** `data.get("response", {}).get("results", [])` */
  function RawResults(body: Body): seq<ApiResult> {
    match body.response
    case None => []
    case Some(r) => r.results.GetOr([])
  }

  function ResultToArticle(r: ApiResult): Row {
    var fields := r.fields.GetOr(Fields(None, None));
    ArticleRow(SOURCE_NAME, fields.headline.GetOr(""), r.sectionName.GetOr(""),
               fields.lastModified.GetOr(""), r.webUrl.GetOr(""))
  }

  /** `fetch`: an empty key raises ValueError before any request; a failed request
      or a body without results yields no articles; otherwise one row per result,
      in order, attributed to "The Guardian". */
  function Fetch(apiKey: string, params: Option<Params>, http: Request -> HttpOutcome)
    : (r: Result<seq<Row>, Error>)
    ensures apiKey == "" <==> r.Failure?
    ensures r.Failure? ==> r.error.ValueError?
    ensures apiKey != "" ==>
              var outcome := http(Request(API_URL, RequestParams(apiKey, params), TIMEOUT_SECONDS));
              && (outcome.RequestFailed? ==> r.value == [])
              && (outcome.Received? && outcome.body.response.None? ==> r.value == [])
              && (outcome.Received? && RawResults(outcome.body) == [] ==> r.value == [])
              && (outcome.Received? ==>
                    var results := RawResults(outcome.body);
                    && |r.value| == |results|
                    && forall i :: 0 <= i < |results| ==>
                         var res := results[i];
                         var fields := res.fields.GetOr(Fields(None, None));
                         && r.value[i].Keys == ARTICLE_KEYS
                         && r.value[i][SOURCE] == "The Guardian"
                         && r.value[i][HEADLINE] == fields.headline.GetOr("")
                         && r.value[i][LAST_MODIFIED] == fields.lastModified.GetOr("")
                         && r.value[i][SECTION_NAME] == res.sectionName.GetOr("")
                         && r.value[i][WEB_URL] == res.webUrl.GetOr(""))
  {
    if apiKey == "" then Failure(ValueError("GUARDIAN_API_KEY not found in environment variables."))
    else
      match http(Request(API_URL, RequestParams(apiKey, params), TIMEOUT_SECONDS))
      case RequestFailed => Success([])
      case Received(body) =>
        var results := RawResults(body);
        Success(seq(|results|, i requires 0 <= i < |results| => ResultToArticle(results[i])))
  }
}
