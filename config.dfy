/** The whole configuration: global options and the ordered routes. Before
    the routes are compiled, each route without its own CORS setting takes
    the global one. */
module Configs {
  import opened Base
  import opened Text
  import opened Floats
  import opened Http
  import opened Requests
  import opened Methods
  import opened Bodies
  import opened Responses
  import opened Matching
  import opened Conditions
  import opened Routes

  datatype Options = Options(
    address: Option<string>,
    port: Option<nat>,
    enableCors: Option<bool>,
    minResponseDelayMs: Option<nat>,
    maxResponseDelayMs: Option<nat>)

  datatype Config = Config(options: Options, routes: seq<Route>)

  /** One route after inheriting: its own setting if it has one, else the
      global setting (which may itself be unset). */
  function Inherit(r: Route, global: Option<bool>): (r': Route)
    ensures r'.path == r.path && r'.methods == r.methods && r'.conditions == r.conditions
    ensures r.enableCors.Some? ==> r'.enableCors == r.enableCors
    ensures r.enableCors.None? ==> r'.enableCors == global
  {
    if r.enableCors.None? then r.(enableCors := global) else r
  }

  /** `inherit_enable_cors`. */
  function InheritEnableCors(c: Config): (c': Config)
    ensures c'.options == c.options
    ensures |c'.routes| == |c.routes|
    ensures forall i :: 0 <= i < |c.routes| ==> c'.routes[i] == Inherit(c.routes[i], c.options.enableCors)
  {
    Config(c.options, seq(|c.routes|, i requires 0 <= i < |c.routes| => Inherit(c.routes[i], c.options.enableCors)))
  }

  /** Route count, order, paths, methods and conditions are kept; only an
      unset CORS flag changes, to the global one. */
  lemma InheritKeepsRoutes(c: Config, i: nat)
    requires i < |c.routes|
    ensures var r := c.routes[i];
            var r' := InheritEnableCors(c).routes[i];
            r'.path == r.path && r'.methods == r.methods && r'.conditions == r.conditions
            && r'.enableCors == (if r.enableCors.Some? then r.enableCors else c.options.enableCors)
  {
  }

  /** Inheriting twice is inheriting once. */
  lemma InheritIdempotent(c: Config)
    ensures InheritEnableCors(InheritEnableCors(c)) == InheritEnableCors(c)
  {
    var once := InheritEnableCors(c);
    var twice := InheritEnableCors(once);
    forall i | 0 <= i < |c.routes| ensures twice.routes[i] == once.routes[i] {
    }
  }

  /** When neither the route nor the options set CORS, the route stays
      unset and is treated as CORS off. */
  lemma UnsetStaysOff(c: Config, i: nat)
    requires i < |c.routes|
    requires c.routes[i].enableCors.None? && c.options.enableCors.None?
    ensures InheritEnableCors(c).routes[i].enableCors.None?
    ensures !CorsEnabled(InheritEnableCors(c).routes[i])
  {
  }

  /** The route of the router test: PUT and POST on `/test`, CORS on, one
      condition that accepts an `Authorization` header containing "Basic"
      and answers 200 with a Content-Type header and a fixed text. */
  function TestRoute(): Route
  {
    Route("/test", [Post, Put], Some(true),
      [Condition(
        Some(HeaderValueContainsMatcher(HeaderValueContainsMatch("Authorization", ["Basic"]))),
        None,
        Response(200, map["Content-Type" := "test/plain"], Some(String("this is a string"))))])
  }

  /** The request of the router test: `Authorization: Basic foofoo`. */
  function TestRequest(): Request
  {
    Request(map["authorization" := "Basic foofoo"], ParamsOf([]), map[], "")
  }

  /** The configured header name finds the request header without regard
      to case, and its value contains "Basic". */
  lemma TestHeaderFound()
    ensures Http.Get(TestRequest().headers, "Authorization") == Some("Basic foofoo")
    ensures Contains(HeaderText("Basic foofoo"), "Basic")
  {
    var name := "Authorization";
    var lower := Lower(name);
    forall i | 0 <= i < |name| ensures lower[i] == "authorization"[i] {
    }
    assert lower == "authorization";
    assert ValidHeaderName(name);
    assert VisibleAscii("Basic foofoo");
    assert OccursAt("Basic", "Basic foofoo", 0);
  }

  /** The test request selects the route's one condition. */
  lemma TestConditionSelected(parse: FloatParser)
    ensures SelectCondition(TestRoute(), TestRequest(), parse) == Some(TestRoute().conditions[0])
  {
    TestHeaderFound();
    var c := TestRoute().conditions[0];
    assert Matches(c.matcher.value, TestRequest(), parse);
    assert ConditionMatches(c, TestRequest(), parse);
  }

  /** The selected response renders as 200 with the fixed text and the
      configured Content-Type (the only configured header). */
  lemma TestResponseRendered(fs: FileSystem, status: int, hs: seq<Header>, body: string)
    requires Rendered(TestRoute().conditions[0].response, fs, status, hs, body)
    ensures status == 200 && body == "this is a string"
    ensures ValuesOf(hs, "content-type") == ["test/plain"]
  {
    var r := TestRoute().conditions[0].response;
    assert Lower("Content-Type") == "content-type";
    DistinctNamesExact(r, fs, status, hs, body, "Content-Type");
  }

  /** Inheriting the (unset) global CORS option leaves the test route as
      configured. */
  lemma TestRouteInherited()
    ensures var c := Config(Options.Options(Some("localhost"), Some(3003), None, None, None), [TestRoute()]);
            InheritEnableCors(c).routes == [TestRoute()]
  {
  }

  /** The test route binds POST and PUT once each and leaves OPTIONS to
      the preflight handler. */
  lemma TestRouteBindable()
    ensures var ms := TestRoute().methods;
            (forall i, j :: 0 <= i < j < |ms| ==> ms[i] != ms[j])
            && CorsEnabled(TestRoute()) && Method.Options !in ms
  {
  }

  /** The test response has a valid status and valid headers. */
  lemma TestResponseRenderable(fs: FileSystem)
    ensures Renderable(TestRoute().conditions[0].response, fs)
  {
    assert ValidHeaderName("Content-Type");
    assert ValidHeaderValue("test/plain");
  }

  /** The router test: the inherited route binds PUT to the handler, and
      `PUT /test` with `Authorization: Basic foofoo` answers 200 with body
      "this is a string" and the configured Content-Type, followed by the
      CORS headers. */
  method RouterTest(parse: FloatParser, fs: FileSystem) returns (resp: HttpResponse)
    ensures resp.status == 200 && resp.body == "this is a string"
    ensures |resp.headers| >= 4
    ensures ValuesOf(resp.headers, "content-type") == ["test/plain"]
    ensures resp.headers[|resp.headers| - 4..] == CorsHeaders([Post, Put])
  {
    var config := Config(Options.Options(Some("localhost"), Some(3003), None, None, None), [TestRoute()]);
    TestRouteInherited();
    var route := InheritEnableCors(config).routes[0];
    TestRouteBindable();
    var table := HandlerForMethods(route);
    assert table[Put] == Respond;
    TestConditionSelected(parse);
    TestResponseRenderable(fs);
    resp := Handle(route, TestRequest().headers, [], map[], "", parse, fs);
    ghost var own := resp.headers[..|resp.headers| - 4];
    TestResponseRendered(fs, resp.status, own, resp.body);
    assert resp.headers == own + CorsHeaders([Post, Put]);
    CorsAppendsAfterOwn(own, [Post, Put], "content-type");
    CorsHeaderValues([Post, Put]);
  }
}
