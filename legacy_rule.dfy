/** The older rule: one path, one method and an ordered list of responses.
    A request is answered by the first response that matches it, or with
    a 404. How an older response matches and renders itself is not part of
    this model, so both are parameters. */
module LegacyRules {
  import opened Base
  import opened Http
  import opened Requests
  import Floats
  import Methods
  import Conditions
  import Routes

  /** The six methods an older rule can be bound to. */
  datatype Method = GET | POST | PUT | PATCH | DELETE | HEAD

  datatype Rule<R> = Rule(path: string, httpMethod: Method, responses: seq<R>)

  /** The routing method each older method is served under. */
  function Bound(m: Method): (b: Methods.Method)
    ensures b != Methods.Options
  {
    match m
    case GET => Methods.Get
    case POST => Methods.Post
    case PUT => Methods.Put
    case PATCH => Methods.Patch
    case DELETE => Methods.Delete
    case HEAD => Methods.Head
  }

  /** Distinct older methods are served under distinct methods, so two
      rules on one path with different methods never collide. */
  lemma BoundInjective(m: Method, n: Method)
    requires Bound(m) == Bound(n)
    ensures m == n
  {
  }

  /** `handler_for_method`: the rule's one method, and nothing else, is
      bound to the handler. */
  function HandlerForMethod<R>(r: Rule<R>): (table: map<Methods.Method, Routes.Handler>)
    ensures table.Keys == {Bound(r.httpMethod)}
    ensures table[Bound(r.httpMethod)] == Routes.Respond
    ensures Methods.Options !in table
  {
    map[Bound(r.httpMethod) := Routes.Respond]
  }

  /** `select_response`: the first response, in list order, that matches
      the request. */
  function SelectResponse<R>(r: Rule<R>, req: Request, matches: (R, Request) -> bool): (sel: Option<R>)
    ensures sel.Some? ==> sel.value in r.responses && matches(sel.value, req)
    ensures sel.None? <==> forall i :: 0 <= i < |r.responses| ==> !matches(r.responses[i], req)
  {
    Find(r.responses, (x: R) => matches(x, req))
  }

  /** The selected response is at the first matching index; nothing is
      selected exactly when no response matches. */
  lemma SelectFirstMatch<R>(r: Rule<R>, req: Request, matches: (R, Request) -> bool)
    ensures SelectResponse(r, req, matches).None? <==>
            forall i :: 0 <= i < |r.responses| ==> !matches(r.responses[i], req)
    ensures SelectResponse(r, req, matches).Some? ==>
            exists i :: 0 <= i < |r.responses|
              && r.responses[i] == SelectResponse(r, req, matches).value
              && matches(r.responses[i], req)
              && forall j :: 0 <= j < i ==> !matches(r.responses[j], req)
  {
    var p := (x: R) => matches(x, req);
    assert forall i :: 0 <= i < |r.responses| ==> p(r.responses[i]) == matches(r.responses[i], req);
  }

  /** The older `handler`: collects the path parameters, selects a
      response and answers with its rendering (status, body and header
      list), or with a 404 when none matches. */
  method Handle<R>(r: Rule<R>, headers: HeaderMap, raw: seq<(string, string)>, query: map<string, string>,
                   body: string, matches: (R, Request) -> bool, render: R -> (int, string, seq<Header>))
    returns (resp: HttpResponse)
    ensures fresh(resp)
    ensures var sel := SelectResponse(r, Request(headers, ParamsOf(raw), query, body), matches);
            match sel
            case None =>
              resp.status == Routes.NotFoundStatus && resp.body == Routes.NotFoundBody && resp.headers == TextHeaders
            case Some(x) =>
              (resp.status, resp.body, resp.headers) == render(x)
  {
    var pathParams := CollectPathParams(raw);
    var request := Request(headers, pathParams, query, body);
    match SelectResponse(r, request, matches)
    case None =>
      resp := new HttpResponse(Routes.NotFoundStatus, Routes.NotFoundBody, TextHeaders);
    case Some(x) =>
      var (status, text, hs) := render(x);
      resp := new HttpResponse(status, text, hs);
  }

  /** An older rule whose responses are routing conditions selects exactly
      what the route with the same path, the rule's one method, no CORS
      switch and the same condition list selects. */
  lemma SelectAgreesWithRouting(r: Rule<Conditions.Condition>, req: Request, parse: Floats.FloatParser)
    ensures SelectResponse(r, req, (c: Conditions.Condition, q: Request) => Conditions.ConditionMatches(c, q, parse))
            == Routes.SelectCondition(Routes.Route(r.path, [Bound(r.httpMethod)], None, r.responses), req, parse)
  {
    var matches := (c: Conditions.Condition, q: Request) => Conditions.ConditionMatches(c, q, parse);
    FindRespectsVerdicts(r.responses, (x: Conditions.Condition) => matches(x, req),
                         (c: Conditions.Condition) => Conditions.ConditionMatches(c, req, parse));
  }

  /** A rule none of whose responses matches answers 404, whatever the
      responses would render. */
  lemma NothingMatchesIs404<R>(r: Rule<R>, req: Request, matches: (R, Request) -> bool)
    requires forall i :: 0 <= i < |r.responses| ==> !matches(r.responses[i], req)
    ensures SelectResponse(r, req, matches) == None
  {
    SelectFirstMatch(r, req, matches);
  }
}
