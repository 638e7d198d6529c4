/** A route: a path, the methods it answers, an optional CORS switch and
    an ordered list of conditions. A request is answered by the first
    condition that holds; CORS adds four fixed headers and a preflight
    handler for OPTIONS. */
module Routes {
  import opened Base
  import opened Text
  import opened Floats
  import opened Http
  import opened Requests
  import opened Methods
  import opened Bodies
  import opened Responses
  import opened Conditions

  datatype Route = Route(
    path: string,
    methods: seq<Method>,
    enableCors: Option<bool>,
    conditions: seq<Condition>)

  /** `enable_cors.unwrap_or(false)`. */
  function CorsEnabled(r: Route): (on: bool)
    ensures on <==> r.enableCors == Some(true)
  {
    match r.enableCors
    case Some(b) => b
    case None => false
  }

  const NotFoundStatus: int := 404
  const NotFoundBody: string := "Unable to select response for input"

  const AllowOrigin: string := "access-control-allow-origin"
  const AllowMethods: string := "access-control-allow-methods"
  const AllowHeaders: string := "access-control-allow-headers"
  const AllowCredentials: string := "access-control-allow-credentials"

  /** `select_condition`: the first condition, in declaration order, that
      holds for the request. */
  function SelectCondition(r: Route, req: Request, parse: FloatParser): (sel: Option<Condition>)
    ensures sel.Some? ==> sel.value in r.conditions && ConditionMatches(sel.value, req, parse)
    ensures sel.None? <==> forall i :: 0 <= i < |r.conditions| ==> !ConditionMatches(r.conditions[i], req, parse)
  {
    Find(r.conditions, (c: Condition) => ConditionMatches(c, req, parse))
  }

  /** The selected condition is the one at the first index whose condition
      holds: every earlier one fails. Nothing is selected exactly when no
      condition holds. */
  lemma SelectFirstMatch(r: Route, req: Request, parse: FloatParser)
    ensures SelectCondition(r, req, parse).None? <==>
            forall i :: 0 <= i < |r.conditions| ==> !ConditionMatches(r.conditions[i], req, parse)
    ensures SelectCondition(r, req, parse).Some? ==>
            exists i :: 0 <= i < |r.conditions|
              && r.conditions[i] == SelectCondition(r, req, parse).value
              && ConditionMatches(r.conditions[i], req, parse)
              && forall j :: 0 <= j < i ==> !ConditionMatches(r.conditions[j], req, parse)
  {
  }

  /** Order matters: of two conditions that both hold, the earlier one is
      selected, so swapping them changes the answer. */
  lemma EarlierOverlappingWins(c1: Condition, c2: Condition, req: Request, parse: FloatParser,
                               path: string, ms: seq<Method>, cors: Option<bool>)
    requires ConditionMatches(c1, req, parse) && ConditionMatches(c2, req, parse)
    ensures SelectCondition(Route(path, ms, cors, [c1, c2]), req, parse) == Some(c1)
    ensures SelectCondition(Route(path, ms, cors, [c2, c1]), req, parse) == Some(c2)
  {
  }

  /** `cors_headers`: four appends onto an empty header map. */
  function CorsHeaders(ms: seq<Method>): (hs: seq<Header>)
    ensures |hs| == 4
    ensures forall i, j :: 0 <= i < j < |hs| ==> hs[i].name != hs[j].name
  {
    CorsNamesDistinct();
    [Header(AllowOrigin, "*"),
     Header(AllowMethods, Join(Names(ms), ',')),
     Header(AllowHeaders, "Authorization"),
     Header(AllowCredentials, "true")]
  }

  /** The four CORS header names are distinct. */
  lemma CorsNamesDistinct()
    ensures AllowOrigin != AllowMethods && AllowOrigin != AllowHeaders && AllowOrigin != AllowCredentials
    ensures AllowMethods != AllowHeaders && AllowMethods != AllowCredentials
    ensures AllowHeaders != AllowCredentials
  {
    assert AllowMethods[21] != AllowHeaders[21];
  }

  /** Each of the four CORS names carries exactly one value, and no other
      name carries any. */
  lemma CorsHeaderValues(ms: seq<Method>)
    ensures ValuesOf(CorsHeaders(ms), AllowOrigin) == ["*"]
    ensures ValuesOf(CorsHeaders(ms), AllowMethods) == [Join(Names(ms), ',')]
    ensures ValuesOf(CorsHeaders(ms), AllowHeaders) == ["Authorization"]
    ensures ValuesOf(CorsHeaders(ms), AllowCredentials) == ["true"]
    ensures forall name :: name !in {AllowOrigin, AllowMethods, AllowHeaders, AllowCredentials}
                           ==> ValuesOf(CorsHeaders(ms), name) == []
  {
    var hs := CorsHeaders(ms);
    CorsNamesDistinct();
    ValuesOfUnique(hs, 0);
    ValuesOfUnique(hs, 1);
    ValuesOfUnique(hs, 2);
    ValuesOfUnique(hs, 3);
  }

  /** Allow-Methods lists the configured methods in order: splitting it at
      the commas gives back their printed names. */
  lemma CorsMethodsRoundTrip(ms: seq<Method>)
    requires ms != []
    ensures Split(Join(Names(ms), ','), ',') == Names(ms)
  {
    var names := Names(ms);
    forall i | 0 <= i < |names| ensures ',' !in names[i] {
      NameHasNoComma(ms[i]);
    }
    SplitJoin(names, ',');
  }

  /** Every CORS value parses as a header value, so building them never
      panics. */
  lemma CorsValuesValid(ms: seq<Method>)
    ensures forall i :: 0 <= i < |CorsHeaders(ms)| ==> ValidHeaderValue(CorsHeaders(ms)[i].value)
  {
    var names := Names(ms);
    var joined := Join(names, ',');
    forall i | 0 <= i < |joined|
      ensures joined[i] == '\t' || (' ' <= joined[i] && joined[i] as int != 0x7f)
    {
      assert joined[i] in joined;
      JoinChars(names, ',', joined[i]);
    }
  }

  /** What a route binds each HTTP method to. */
  datatype Handler = Respond | Preflight

  /** `handler_for_methods`: every configured method is bound to the
      matching handler; with CORS on, OPTIONS is bound to the preflight
      handler. Binding a method twice panics, so the configured methods are
      distinct and do not include OPTIONS when CORS is on. */
  method HandlerForMethods(r: Route) returns (table: map<Method, Handler>)
    requires forall i, j :: 0 <= i < j < |r.methods| ==> r.methods[i] != r.methods[j]
    requires CorsEnabled(r) ==> Options !in r.methods
    ensures forall m :: m in table <==> m in r.methods || (CorsEnabled(r) && m == Options)
    ensures forall m :: m in r.methods ==> table[m] == Respond
    ensures CorsEnabled(r) ==> table[Options] == Preflight
  {
    table := map[];
    var i := 0;
    while i < |r.methods|
      invariant 0 <= i <= |r.methods|
      invariant forall m :: m in table <==> m in r.methods[..i]
      invariant forall m :: m in table ==> table[m] == Respond
    {
      assert r.methods[i] !in r.methods[..i];
      table := table[r.methods[i] := Respond];
      assert r.methods[..i + 1] == r.methods[..i] + [r.methods[i]];
      i := i + 1;
    }
    assert r.methods[..i] == r.methods;
    if CorsEnabled(r) {
      table := table[Options := Preflight];
    }
  }

  /** `cors_handler`: 200, an empty body, and exactly the CORS headers. */
  method CorsHandler(r: Route) returns (resp: HttpResponse)
    ensures fresh(resp)
    ensures resp.status == 200 && resp.body == "" && resp.headers == CorsHeaders(r.methods)
  {
    resp := new HttpResponse(200, "", []);
    resp.AppendAll(CorsHeaders(r.methods));
  }

  /** What the handler needs so that no `unwrap` panics: the selected
      response has a valid status and, when its body resolves, valid
      headers. */
  predicate Renderable(r: Response, fs: FileSystem)
  {
    ValidStatus(r.status) && (Resolve(BodyOrEmpty(r), fs).Ok? ==> ValidHeaders(r.headers))
  }

  /** `handler`: builds the request, selects a condition and renders its
      response, appending the CORS headers when CORS is on; with no
      condition selected the answer is a 404 without CORS headers. */
  method Handle(r: Route, headers: HeaderMap, raw: seq<(string, string)>, query: map<string, string>,
                body: string, parse: FloatParser, fs: FileSystem) returns (resp: HttpResponse)
    requires var sel := SelectCondition(r, Request(headers, ParamsOf(raw), query, body), parse);
             sel.Some? ==> Renderable(sel.value.response, fs)
    ensures fresh(resp)
    ensures var sel := SelectCondition(r, Request(headers, ParamsOf(raw), query, body), parse);
            match sel
            case None =>
              resp.status == NotFoundStatus && resp.body == NotFoundBody && resp.headers == TextHeaders
            case Some(c) =>
              if CorsEnabled(r) then
                |resp.headers| >= 4
                && resp.headers[|resp.headers| - 4..] == CorsHeaders(r.methods)
                && Rendered(c.response, fs, resp.status, resp.headers[..|resp.headers| - 4], resp.body)
              else
                Rendered(c.response, fs, resp.status, resp.headers, resp.body)
  {
    var pathParams := CollectPathParams(raw);
    var request := Request(headers, pathParams, query, body);
    var sel := SelectCondition(r, request, parse);
    match sel
    case None =>
      resp := new HttpResponse(NotFoundStatus, NotFoundBody, TextHeaders);
    case Some(c) =>
      resp := Render(c.response, fs);
      if CorsEnabled(r) {
        ghost var own := resp.headers;
        resp.AppendAll(CorsHeaders(r.methods));
        assert resp.headers[..|resp.headers| - 4] == own;
      }
  }

  /** With CORS on, a matched response keeps all of its own header values
      and gains the four CORS values after them. */
  lemma CorsAppendsAfterOwn(own: seq<Header>, ms: seq<Method>, name: string)
    ensures ValuesOf(own + CorsHeaders(ms), name) == ValuesOf(own, name) + ValuesOf(CorsHeaders(ms), name)
  {
    ValuesOfConcat(own, CorsHeaders(ms), name);
  }
}
