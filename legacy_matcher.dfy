/** The older matcher, which knows only path parameters. Its one variant
    behaves exactly like the path-parameter branch of the routing
    matcher: the parameter must be present and its `Match` coercion must
    be among the configured values. */
module LegacyMatching {
  import opened Base
  import opened Floats
  import opened Requests
  import MatchCoercion
  import Matching

  datatype Matcher = PathParamMatcher(pathParam: Matching.PathParamMatch)

  /** The older `Matcher::matches`. */
  function Matches(m: Matcher, req: Request, parse: FloatParser): (r: bool)
    ensures r ==> m.pathParam.name in req.pathParams && m.pathParam.matches != []
    ensures r <==> m.pathParam.name in req.pathParams
                   && exists i :: 0 <= i < |m.pathParam.matches|
                        && MatchCoercion.Eq(m.pathParam.matches[i],
                                            MatchCoercion.FromString(req.pathParams[m.pathParam.name], parse))
  {
    match m
    case PathParamMatcher(p) =>
      p.name in req.pathParams
      && Matching.ListContains(p.matches, MatchCoercion.FromString(req.pathParams[p.name], parse))
  }

  /** The older matcher agrees with the routing matcher's path-parameter
      variant on every request. */
  lemma AgreesWithRouting(m: Matcher, req: Request, parse: FloatParser)
    ensures Matches(m, req, parse) == Matching.Matches(Matching.PathParamMatcher(m.pathParam), req, parse)
  {
  }

  /** An absent parameter never matches. */
  lemma Absent(m: Matcher, req: Request, parse: FloatParser)
    requires m.pathParam.name !in req.pathParams
    ensures !Matches(m, req, parse)
  {
  }

  /** A present parameter matches iff its coerced value equals one of the
      configured values (for a value that is not NaN, plain membership). */
  lemma Membership(m: Matcher, req: Request, parse: FloatParser)
    requires m.pathParam.name in req.pathParams
    ensures var v := MatchCoercion.FromString(req.pathParams[m.pathParam.name], parse);
            (Matches(m, req, parse) <==>
               exists i :: 0 <= i < |m.pathParam.matches| && MatchCoercion.Eq(m.pathParam.matches[i], v))
            && (v != MatchCoercion.Numeric(NaN) ==> (Matches(m, req, parse) <==> v in m.pathParam.matches))
  {
    AgreesWithRouting(m, req, parse);
    Matching.PathParamMembership(m.pathParam, req, parse);
  }

  /** An empty list of values never matches. */
  lemma EmptyNeverMatches(name: string, req: Request, parse: FloatParser)
    ensures !Matches(PathParamMatcher(Matching.PathParamMatch(name, [])), req, parse)
  {
  }

  /** `param1=valueX` matches `[String("valueX")]`. */
  lemma ParamValueX(parse: FloatParser)
    requires parse("valueX") == None
    ensures Matches(PathParamMatcher(Matching.PathParamMatch("param1", [MatchCoercion.String("valueX")])),
                    Request(map[], map["param1" := "valueX"], map[], ""), parse)
  {
  }
}
