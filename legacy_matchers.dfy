/** The older matcher tree over the older, path-parameter-only matchers,
    with `empty` as the tree that never matches. */
module LegacyMatchers {
  import opened Base
  import opened Floats
  import opened Requests
  import LegacyMatching
  import Matching
  import MatcherTree

  datatype Matchers = And(all: seq<LegacyMatching.Matcher>) | Or(any: seq<LegacyMatching.Matcher>)

  /** `Matchers::empty`: the empty `Or`. */
  function Empty(): (t: Matchers)
    ensures t.Or? && t.any == []
  {
    Or([])
  }

  function Holds(req: Request, parse: FloatParser): LegacyMatching.Matcher -> bool
  {
    (m: LegacyMatching.Matcher) => LegacyMatching.Matches(m, req, parse)
  }

  /** The older `Matchers::matches`. */
  function TreeMatches(t: Matchers, req: Request, parse: FloatParser): (r: bool)
    ensures t.And? ==> (r <==> forall i :: 0 <= i < |t.all| ==> LegacyMatching.Matches(t.all[i], req, parse))
    ensures t.Or? ==> (r <==> exists i :: 0 <= i < |t.any| && LegacyMatching.Matches(t.any[i], req, parse))
  {
    match t
    case And(ms) => All(ms, Holds(req, parse))
    case Or(ms) => Any(ms, Holds(req, parse))
  }

  /** `empty` matches no request. */
  lemma EmptyMatchesNothing(req: Request, parse: FloatParser)
    ensures !TreeMatches(Empty(), req, parse)
  {
  }

  /** `And` holds iff every matcher holds (the empty `And` holds); `Or`
      holds iff some matcher holds (the empty `Or` does not). */
  lemma TreeSemantics(t: Matchers, req: Request, parse: FloatParser)
    ensures t.And? ==> (TreeMatches(t, req, parse) <==>
                        forall i :: 0 <= i < |t.all| ==> LegacyMatching.Matches(t.all[i], req, parse))
    ensures t.Or? ==> (TreeMatches(t, req, parse) <==>
                       exists i :: 0 <= i < |t.any| && LegacyMatching.Matches(t.any[i], req, parse))
    ensures TreeMatches(And([]), req, parse)
  {
  }

  /** The matchers an evaluation consults: `And` stops at the first that
      fails, `Or` at the first that holds, and that prefix alone decides. */
  function Consulted(t: Matchers, req: Request, parse: FloatParser): (c: seq<LegacyMatching.Matcher>)
    ensures var ms := if t.And? then t.all else t.any;
            |c| <= |ms| && c == ms[..|c|]
    ensures t.And? ==> (forall j :: 0 <= j < |c| - 1 ==> LegacyMatching.Matches(c[j], req, parse))
                       && (|c| < |t.all| ==> |c| > 0 && !LegacyMatching.Matches(c[|c| - 1], req, parse))
                       && (TreeMatches(And(c), req, parse) == TreeMatches(t, req, parse))
    ensures t.Or? ==> (forall j :: 0 <= j < |c| - 1 ==> !LegacyMatching.Matches(c[j], req, parse))
                      && (|c| < |t.any| ==> |c| > 0 && LegacyMatching.Matches(c[|c| - 1], req, parse))
                      && (TreeMatches(Or(c), req, parse) == TreeMatches(t, req, parse))
  {
    var p := Holds(req, parse);
    match t
    case And(ms) =>
      var c := ConsultedByAll(ms, p);
      assert forall j :: 0 <= j < |c| ==> p(c[j]) == LegacyMatching.Matches(c[j], req, parse);
      assert TreeMatches(And(c), req, parse) == All(c, p);
      c
    case Or(ms) =>
      var c := ConsultedByAny(ms, p);
      assert forall j :: 0 <= j < |c| ==> p(c[j]) == LegacyMatching.Matches(c[j], req, parse);
      assert TreeMatches(Or(c), req, parse) == Any(c, p);
      c
  }


  /** The same tree in the routing vocabulary. */
  function Upgrade(t: Matchers): (u: MatcherTree.Matchers)
    ensures u.And? == t.And?
    ensures t.And? ==> |u.all| == |t.all| && forall i :: 0 <= i < |t.all| ==> u.all[i] == Matching.PathParamMatcher(t.all[i].pathParam)
    ensures t.Or? ==> |u.any| == |t.any| && forall i :: 0 <= i < |t.any| ==> u.any[i] == Matching.PathParamMatcher(t.any[i].pathParam)
  {
    match t
    case And(ms) => MatcherTree.And(seq(|ms|, i requires 0 <= i < |ms| => Matching.PathParamMatcher(ms[i].pathParam)))
    case Or(ms) => MatcherTree.Or(seq(|ms|, i requires 0 <= i < |ms| => Matching.PathParamMatcher(ms[i].pathParam)))
  }

  /** The older tree decides every request as its routing counterpart
      does. */
  lemma AgreesWithRouting(t: Matchers, req: Request, parse: FloatParser)
    ensures TreeMatches(t, req, parse) == MatcherTree.TreeMatches(Upgrade(t), req, parse)
  {
    var u := Upgrade(t);
    TreeSemantics(t, req, parse);
    MatcherTree.TreeSemantics(u, req, parse);
    var ms := if t.And? then t.all else t.any;
    forall i | 0 <= i < |ms|
      ensures LegacyMatching.Matches(ms[i], req, parse)
           == Matching.Matches(Matching.PathParamMatcher(ms[i].pathParam), req, parse)
    {
      LegacyMatching.AgreesWithRouting(ms[i], req, parse);
    }
  }
}
