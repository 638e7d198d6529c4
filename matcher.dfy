/** The atomic matchers of the routing configuration: a path parameter
    whose coerced value is one of a list, or a header whose value contains
    one of a list of strings. */
module Matching {
  import opened Base
  import opened Text
  import opened Floats
  import Http
  import MatchCoercion
  import opened Requests

  datatype PathParamMatch = PathParamMatch(name: string, matches: seq<MatchCoercion.Match>)

  datatype HeaderValueContainsMatch = HeaderValueContainsMatch(name: string, matches: seq<string>)

  datatype Matcher =
    | PathParamMatcher(pathParam: PathParamMatch)
    | HeaderValueContainsMatcher(headerValue: HeaderValueContainsMatch)

  /** `Vec::contains` over `Match`es, comparing with their `PartialEq`. */
  function ListContains(ms: seq<MatchCoercion.Match>, m: MatchCoercion.Match): (r: bool)
    ensures r <==> exists i :: 0 <= i < |ms| && MatchCoercion.Eq(ms[i], m)
    ensures m != MatchCoercion.Numeric(NaN) ==> (r <==> m in ms)
  {
    forall x ensures MatchCoercion.Eq(x, m) <==> x == m && m != MatchCoercion.Numeric(NaN) {
    }
    Any(ms, (x: MatchCoercion.Match) => MatchCoercion.Eq(x, m))
  }

  /** The path parameter `name` is present and its `Match` coercion equals
      one of the configured values. */
  function PathParamMatches(m: PathParamMatch, req: Request, parse: FloatParser): (r: bool)
    ensures r ==> m.name in req.pathParams && m.matches != []
    ensures r <==> m.name in req.pathParams
                   && exists i :: 0 <= i < |m.matches|
                        && MatchCoercion.Eq(m.matches[i], MatchCoercion.FromString(req.pathParams[m.name], parse))
  {
    m.name in req.pathParams
    && ListContains(m.matches, MatchCoercion.FromString(req.pathParams[m.name], parse))
  }

  /** The header's value as text: a value that is not visible ASCII reads
      as the empty string. */
  function HeaderText(value: string): (t: string)
    ensures t == value || t == ""
    ensures Http.VisibleAscii(value) ==> t == value
    ensures !Http.VisibleAscii(value) ==> t == ""
  {
    if Http.VisibleAscii(value) then value else ""
  }

  /** The header `name` is present and one of the configured strings is a
      substring of its value. */
  function HeaderValueContainsMatches(m: HeaderValueContainsMatch, req: Request): (r: bool)
    ensures r ==> Http.Get(req.headers, m.name).Some? && m.matches != []
    ensures r <==> Http.Get(req.headers, m.name).Some?
                   && exists i :: 0 <= i < |m.matches|
                        && Contains(HeaderText(Http.Get(req.headers, m.name).value), m.matches[i])
  {
    match Http.Get(req.headers, m.name)
    case None => false
    case Some(value) => Any(m.matches, (s: string) => Contains(HeaderText(value), s))
  }

  /** `Matcher::matches` dispatches to the variant's own predicate. */
  function Matches(m: Matcher, req: Request, parse: FloatParser): (r: bool)
    ensures m.PathParamMatcher? ==> r == PathParamMatches(m.pathParam, req, parse)
    ensures m.HeaderValueContainsMatcher? ==> r == HeaderValueContainsMatches(m.headerValue, req)
    ensures m.HeaderValueContainsMatcher? ==> (r <==> HeaderValueContainsMatches(m.headerValue, req.(pathParams := map[])))
  {
    match m
    case PathParamMatcher(p) => PathParamMatches(p, req, parse)
    case HeaderValueContainsMatcher(h) => HeaderValueContainsMatches(h, req)
  }

  /** An absent parameter never matches. */
  lemma PathParamAbsent(m: PathParamMatch, req: Request, parse: FloatParser)
    requires m.name !in req.pathParams
    ensures !Matches(PathParamMatcher(m), req, parse)
  {
  }

  /** A present parameter matches iff its coerced value is among the
      configured ones (for a coerced value that is not NaN, plain
      membership). */
  lemma PathParamMembership(m: PathParamMatch, req: Request, parse: FloatParser)
    requires m.name in req.pathParams
    ensures var v := MatchCoercion.FromString(req.pathParams[m.name], parse);
            (Matches(PathParamMatcher(m), req, parse) <==>
               exists i :: 0 <= i < |m.matches| && MatchCoercion.Eq(m.matches[i], v))
            && (v != MatchCoercion.Numeric(NaN) ==>
                 (Matches(PathParamMatcher(m), req, parse) <==> v in m.matches))
  {
    var v := MatchCoercion.FromString(req.pathParams[m.name], parse);
    if v != MatchCoercion.Numeric(NaN) {
      forall i | 0 <= i < |m.matches| ensures MatchCoercion.Eq(m.matches[i], v) <==> m.matches[i] == v {
      }
    }
  }

  /** Neither the order nor repetitions of the configured values matter. */
  lemma PathParamOrderIrrelevant(m: PathParamMatch, m': PathParamMatch, req: Request, parse: FloatParser)
    requires m'.name == m.name && multiset(m'.matches) == multiset(m.matches)
    ensures Matches(PathParamMatcher(m'), req, parse) == Matches(PathParamMatcher(m), req, parse)
  {
    if m.name in req.pathParams {
      var v := MatchCoercion.FromString(req.pathParams[m.name], parse);
      AllAnyRespectElements(m.matches, m'.matches, (x: MatchCoercion.Match) => MatchCoercion.Eq(x, v));
    }
  }

  /** An empty list of values never matches. */
  lemma PathParamEmptyNeverMatches(name: string, req: Request, parse: FloatParser)
    ensures !Matches(PathParamMatcher(PathParamMatch(name, [])), req, parse)
  {
  }

  /** An absent header never matches. */
  lemma HeaderAbsent(m: HeaderValueContainsMatch, req: Request, parse: FloatParser)
    requires Http.Get(req.headers, m.name).None?
    ensures !Matches(HeaderValueContainsMatcher(m), req, parse)
  {
  }

  /** A present header matches iff one of the configured strings occurs in
      its (visible-ASCII) value; with no configured strings it never does. */
  lemma HeaderContainment(m: HeaderValueContainsMatch, req: Request, parse: FloatParser)
    requires Http.Get(req.headers, m.name).Some?
    ensures var t := HeaderText(Http.Get(req.headers, m.name).value);
            Matches(HeaderValueContainsMatcher(m), req, parse) <==>
              exists i, k :: 0 <= i < |m.matches| && OccursAt(m.matches[i], t, k)
    ensures m.matches == [] ==> !Matches(HeaderValueContainsMatcher(m), req, parse)
  {
    var t := HeaderText(Http.Get(req.headers, m.name).value);
    if Matches(HeaderValueContainsMatcher(m), req, parse) {
      var i :| 0 <= i < |m.matches| && Contains(t, m.matches[i]);
      var k :| OccursAt(m.matches[i], t, k);
    }
  }

  /** A header value that is not visible ASCII is read as "", so only an
      empty configured string matches it. */
  lemma NonAsciiHeaderReadsEmpty(m: HeaderValueContainsMatch, req: Request, parse: FloatParser)
    requires Http.Get(req.headers, m.name).Some?
    requires !Http.VisibleAscii(Http.Get(req.headers, m.name).value)
    ensures Matches(HeaderValueContainsMatcher(m), req, parse) <==> "" in m.matches
  {
    var t := HeaderText(Http.Get(req.headers, m.name).value);
    assert t == "";
    forall s ensures Contains(t, s) <==> s == "" {
      NothingButEmptyInEmpty(s);
    }
  }

  /** The matcher's header name is looked up without regard to case. */
  lemma HeaderNameCaseInsensitive(m: HeaderValueContainsMatch, name': string, req: Request, parse: FloatParser)
    requires Lower(name') == Lower(m.name)
    ensures Matches(HeaderValueContainsMatcher(HeaderValueContainsMatch(name', m.matches)), req, parse)
         == Matches(HeaderValueContainsMatcher(m), req, parse)
  {
    Http.GetIgnoresCase(req.headers, name', m.name);
  }

  /** `param1=valueX` matches `[String("valueX")]`. */
  lemma ParamValueX(parse: FloatParser)
    requires parse("valueX") == None
    ensures Matches(PathParamMatcher(PathParamMatch("param1", [MatchCoercion.String("valueX")])),
                    Request(map[], map["param1" := "valueX"], map[], ""), parse)
  {
  }
}
