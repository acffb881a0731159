/** The request side of `StatsPlusClient` (src/client.ts): the base URL built
    from the league slug, the fixed request headers, the query built from the
    defined parameters, the error raised for a non-ok status, and the CSV
    endpoints that filter their rows on the client. The network itself is
    not modelled: the response to a request is a parameter. */
module Client {
  import opened Wrappers
  import opened Text
  import opened Seqs
  import opened Csv
  import opened Filters

  // ---------------------------------------------------------------------
  // Construction
  // ---------------------------------------------------------------------

  /** `slug.replace(/^\/|\/$/g, "")`: one `/` at the front and one `/` at the
      back are removed; a lone `/` is removed once. */
  function TrimSlashes(slug: string): (r: string)
    ensures |slug| - 2 <= |r| <= |slug|
    ensures r <= slug || "/" + r <= slug
    ensures LeadSlash(slug) + r + TrailSlash(slug) == slug
  {
    var a := if |slug| > 0 && slug[0] == '/' then 1 else 0;
    var b := if |slug| > a && slug[|slug| - 1] == '/' then |slug| - 1 else |slug|;
    slug[a..b]
  }

  /** The `/` that `TrimSlashes` removes from the front of `slug`, if any. */
  function LeadSlash(slug: string): string {
    if |slug| > 0 && slug[0] == '/' then "/" else ""
  }

  /** The `/` that `TrimSlashes` removes from the back of `slug`, if any: a
      lone `/` is removed once, from the front. */
  function TrailSlash(slug: string): string {
    if |slug| > 1 && slug[|slug| - 1] == '/' then "/" else ""
  }

  /** One slash is removed at each end, whatever lies between: `//a//`
      trims to `/a/`. */
  lemma TrimSlashesOnce(x: string)
    ensures TrimSlashes("/" + x + "/") == x
  {
    assert ("/" + x + "/")[1..|x| + 1] == x;
  }

  /** Slash-trimming undoes the slashes a slug may be written with: any
      slug that neither starts nor ends with `/`, with or without a leading
      and a trailing `/`, trims to itself. */
  lemma TrimSlashesRoundTrip(x: string, lead: bool, trail: bool)
    requires |x| == 0 || (x[0] != '/' && x[|x| - 1] != '/')
    ensures TrimSlashes((if lead then "/" else "") + x + (if trail then "/" else "")) == x
  {
    var s := (if lead then "/" else "") + x + (if trail then "/" else "");
    if lead {
      assert s[1..1 + |x|] == x;
    } else {
      assert s[..|x|] == x;
    }
  }

  /** What the constructor keeps: the base URL and the request headers. */
  datatype Config = Config(leagueUrl: string, cookie: Option<string>)

  const Host: string := "https://statsplus.net/"

  /** `https://statsplus.net/${slug}/api`. */
  function BaseUrl(config: Config): (url: string)
    ensures |Host| + 4 <= |url| && Host <= url && url[|url| - 4..] == "/api"
    ensures LeadSlash(config.leagueUrl) + url[|Host|..|url| - 4] + TrailSlash(config.leagueUrl)
            == config.leagueUrl
  {
    Host + TrimSlashes(config.leagueUrl) + "/api"
  }

  /** A league slug written with a leading or trailing `/` gives the same
      base URL as the bare slug. */
  lemma BaseUrlIgnoresSlashes(x: string, lead: bool, trail: bool, cookie: Option<string>)
    requires |x| == 0 || (x[0] != '/' && x[|x| - 1] != '/')
    ensures BaseUrl(Config((if lead then "/" else "") + x + (if trail then "/" else ""), cookie))
            == BaseUrl(Config(x, cookie))
  {
    TrimSlashesRoundTrip(x, lead, trail);
    TrimSlashesRoundTrip(x, false, false);
  }

  /** The constructor's header record: two fixed JSON headers, and a
      `Cookie` header only when the configured cookie is a non-empty string
      (`if (config.cookie)`). */
  function Headers(config: Config): (h: map<string, string>)
    ensures "Accept" in h && h["Accept"] == "application/json"
    ensures "Content-Type" in h && h["Content-Type"] == "application/json"
    ensures "Cookie" in h <==> config.cookie.Some? && config.cookie.value != ""
    ensures "Cookie" in h ==> h["Cookie"] == config.cookie.value
    ensures h.Keys <= {"Accept", "Content-Type", "Cookie"}
  {
    var fixed := map["Accept" := "application/json", "Content-Type" := "application/json"];
    if config.cookie.Some? && config.cookie.value != "" then fixed["Cookie" := config.cookie.value] else fixed
  }

  // ---------------------------------------------------------------------
  // Requests
  // ---------------------------------------------------------------------

  /** A query parameter as the endpoint wrappers pass it: a name and a value
      that may be `undefined`. The values are already `String(value)`. */
  type Param = (string, Option<string>)

  /** The query `fetch` sets on the URL: the defined parameters, in order. */
  function Query(params: seq<Param>): (q: seq<(string, string)>)
    ensures |q| <= |params|
  {
    if |params| == 0 then []
    else
      var rest := Query(params[1..]);
      match params[0].1
      case None => rest
      case Some(v) => [(params[0].0, v)] + rest
  }

  /** The query holds exactly the defined parameters with their values, in
      their order: an undefined parameter leaves no trace. */
  lemma {:induction false} QuerySpec(params: seq<Param>)
    ensures forall k, v :: (k, v) in Query(params) <==> (k, Some(v)) in params
    ensures |Query(params)| == |params| - |UndefinedParams(params)|
    ensures IsSubseq(Names(Query(params)), NamesOf(params))
  {
    if |params| > 0 {
      QuerySpec(params[1..]);
      assert params == [params[0]] + params[1..];
      assert NamesOf(params)[1..] == NamesOf(params[1..]);
      if params[0].1.Some? {
        assert Names(Query(params))[1..] == Names(Query(params[1..]));
      }
    }
  }

  /** The parameters whose value is undefined. */
  function UndefinedParams(params: seq<Param>): (u: seq<Param>)
    ensures |u| <= |params|
  {
    if |params| == 0 then []
    else (if params[0].1.None? then [params[0]] else []) + UndefinedParams(params[1..])
  }

  function Names(q: seq<(string, string)>): seq<string> {
    seq(|q|, k requires 0 <= k < |q| => q[k].0)
  }

  function NamesOf(params: seq<Param>): seq<string> {
    seq(|params|, k requires 0 <= k < |params| => params[k].0)
  }

  /** A GET request as the client sends it. URL encoding of the query is
      not modelled. */
  datatype Request = Request(url: string, query: seq<(string, string)>, headers: map<string, string>)

  /** The request `fetch(path, params)` sends. */
  function MakeRequest(config: Config, path: string, params: seq<Param>): (req: Request)
    ensures req.url == BaseUrl(config) + path
    ensures forall k, v :: (k, v) in req.query <==> (k, Some(v)) in params
    ensures req.headers == Headers(config)
  {
    QuerySpec(params);
    Request(BaseUrl(config) + path, Query(params), Headers(config))
  }

  /** The `search` part of the URL once `fetch` has set the parameters:
      empty without parameters, otherwise `?` and the `name=value` pairs
      joined by `&`. */
  function QueryString(q: seq<(string, string)>): (s: string)
    ensures s == "" <==> |q| == 0
    ensures |q| > 0 ==> s[0] == '?'
  {
    if |q| == 0 then "" else "?" + Pairs(q)
  }

  function Pairs(q: seq<(string, string)>): string
    requires |q| > 0
  {
    q[0].0 + "=" + q[0].1 + (if |q| == 1 then "" else "&" + Pairs(q[1..]))
  }

  /** The URL a request names, as `${url}` prints it. */
  function Href(req: Request): string {
    req.url + QueryString(req.query)
  }

  /** The part of a `Response` the client reads. */
  datatype Response = Response(ok: bool, status: int, statusText: string, body: string)

  /** The errors the client raises, each with the details of its message. */
  datatype ApiError =
    | HttpError(status: int, statusText: string, url: string)
    | MalformedJobResponse(text: string)
    | PollError(status: int, statusText: string)
    | TimedOut

  /** The status check of `fetch`: a non-ok response raises an error
      naming the status, its text and the URL with its query; an ok one
      yields its body. */
  function CheckResponse(req: Request, resp: Response): (r: Result<string, ApiError>)
    ensures r.Success? <==> resp.ok
    ensures r.Success? ==> r.value == resp.body
    ensures r.Failure? ==> r.error.HttpError? && r.error.status == resp.status
                           && r.error.statusText == resp.statusText
    ensures r.Failure? ==> req.url <= r.error.url
                           && r.error.url[|req.url|..] == QueryString(req.query)
  {
    if resp.ok then Success(resp.body) else Failure(HttpError(resp.status, resp.statusText, Href(req)))
  }

  /** `getCsv(path, params)`, given the server's response to the request. */
  function GetCsv(config: Config, path: string, params: seq<Param>, resp: Response): (r: Result<seq<Row>, ApiError>)
    ensures r.Success? <==> resp.ok
    ensures r.Success? ==> r.value == ParseCsv(resp.body)
    ensures r.Failure? ==>
              r.error == HttpError(resp.status, resp.statusText, BaseUrl(config) + path + QueryString(Query(params)))
  {
    var body :- CheckResponse(MakeRequest(config, path, params), resp);
    Success(ParseCsv(body))
  }

  // ---------------------------------------------------------------------
  // Endpoints that filter on the client
  // ---------------------------------------------------------------------

  /** `getPlayers`: the decoded `/players/` rows, narrowed to an
      organisation when `org_id` is given. `teamId` is the query value
      `String(team_id)`; only the server reads it. */
  function GetPlayers(config: Config, teamId: Option<string>, orgId: Option<real>, resp: Response)
    : (r: Result<seq<Row>, ApiError>)
    ensures r.Success? <==> resp.ok
    ensures r.Success? ==> IsSubseq(r.value, ParseCsv(resp.body))
    ensures r.Success? ==> forall k :: 0 <= k < |r.value| ==> orgId.None? || InOrg(r.value[k], orgId.value)
    ensures r.Success? ==>
              forall row :: row in r.value <==> row in ParseCsv(resp.body) && (orgId.None? || InOrg(row, orgId.value))
    ensures r.Success? ==>
              forall row :: multiset(r.value)[row]
                            == if orgId.None? || InOrg(row, orgId.value) then multiset(ParseCsv(resp.body))[row] else 0
  {
    var players :- GetCsv(config, "/players/", [("team_id", teamId)], resp);
    if orgId.Some? then PlayersByOrgSpec(players, orgId.value); Success(PlayersByOrg(players, orgId))
    else SubseqRefl(players); Success(players)
  }

  /** `findPlayer`: every `/players/` row is fetched and the name search is
      applied on the client. */
  function FindPlayers(config: Config, name: string, resp: Response): (r: Result<seq<Row>, ApiError>)
    ensures r.Success? <==> resp.ok
    ensures r.Success? ==> IsSubseq(r.value, ParseCsv(resp.body))
    ensures r.Success? ==> forall row :: row in r.value <==> row in ParseCsv(resp.body) && NameMatches(row, Lower(name))
    ensures r.Success? ==>
              forall row :: multiset(r.value)[row]
                            == if NameMatches(row, Lower(name)) then multiset(ParseCsv(resp.body))[row] else 0
  {
    var players :- GetCsv(config, "/players/", [], resp);
    FindPlayerSpec(players, name);
    Success(FindPlayer(players, name))
  }

  /** `getContracts`: every `/contract/` row is fetched and the team and
      player criteria are applied on the client. */
  function GetContracts(config: Config, teamId: Option<real>, playerId: Option<real>, resp: Response)
    : (r: Result<seq<Row>, ApiError>)
    ensures r.Success? <==> resp.ok
    ensures r.Success? ==> IsSubseq(r.value, ParseCsv(resp.body))
    ensures r.Success? ==> forall k :: 0 <= k < |r.value| ==>
              Matches(r.value[k], "contract_team_id", teamId) && Matches(r.value[k], "player_id", playerId)
    ensures r.Success? ==>
              r.value == Filter(ParseCsv(resp.body), c => Matches(c, "contract_team_id", teamId) && Matches(c, "player_id", playerId))
  {
    var contracts :- GetCsv(config, "/contract/", [], resp);
    ContractsOnePass(contracts, teamId, playerId);
    Success(ContractsFilter(contracts, teamId, playerId))
  }

  /** A failing `getPlayers({team_id})` names the URL with its query. */
  lemma PlayersErrorUrl(config: Config, team: string, orgId: Option<real>, resp: Response)
    requires !resp.ok
    ensures GetPlayers(config, Some(team), orgId, resp)
            == Failure(HttpError(resp.status, resp.statusText, BaseUrl(config) + "/players/?team_id=" + team))
  {
    var q := [("team_id", team)];
    assert Query([("team_id", Some(team))]) == q;
    assert QueryString(q) == "?team_id=" + team;
    var base, path, key := BaseUrl(config), "/players/", "?team_id=";
    assert path + key == "/players/?team_id=";
    AppendAssociative(base + path, key, team);
    AppendAssociative(base, path, key);
    assert GetCsv(config, "/players/", [("team_id", Some(team))], resp).Failure?;
  }
}
