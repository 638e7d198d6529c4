/** Boolean composition of matchers: `And` of a list holds when every
    matcher holds, `Or` when some matcher does, each evaluated left to right
    and stopping as soon as the answer is known. */
module MatcherTree {
  import opened Base
  import opened Floats
  import opened Requests
  import opened Matching

  datatype Matchers = And(all: seq<Matcher>) | Or(any: seq<Matcher>)

  function Holds(req: Request, parse: FloatParser): Matcher -> bool
  {
    (m: Matcher) => Matches(m, req, parse)
  }

  /** `Matchers::matches`. */
  function TreeMatches(t: Matchers, req: Request, parse: FloatParser): (r: bool)
    ensures t.And? ==> (r <==> forall i :: 0 <= i < |t.all| ==> Matches(t.all[i], req, parse))
    ensures t.Or? ==> (r <==> exists i :: 0 <= i < |t.any| && Matches(t.any[i], req, parse))
  {
    match t
    case And(ms) => All(ms, Holds(req, parse))
    case Or(ms) => Any(ms, Holds(req, parse))
  }

  /** `And` holds iff every listed matcher holds (so the empty `And`
      holds); `Or` holds iff some listed matcher holds (so the empty `Or`
      does not). */
  lemma TreeSemantics(t: Matchers, req: Request, parse: FloatParser)
    ensures t.And? ==> (TreeMatches(t, req, parse) <==>
                        forall i :: 0 <= i < |t.all| ==> Matches(t.all[i], req, parse))
    ensures t.Or? ==> (TreeMatches(t, req, parse) <==>
                       exists i :: 0 <= i < |t.any| && Matches(t.any[i], req, parse))
    ensures TreeMatches(And([]), req, parse) && !TreeMatches(Or([]), req, parse)
  {
  }

  /** The matchers an evaluation actually consults. For `And`, all but the
      last consulted one hold and evaluation stops at the first that fails;
      for `Or`, all but the last fail and it stops at the first that holds.
      The consulted prefix alone decides the result. */
  function Consulted(t: Matchers, req: Request, parse: FloatParser): (c: seq<Matcher>)
    ensures var ms := if t.And? then t.all else t.any;
            |c| <= |ms| && c == ms[..|c|]
    ensures t.And? ==> (forall j :: 0 <= j < |c| - 1 ==> Matches(c[j], req, parse))
                       && (|c| < |t.all| ==> |c| > 0 && !Matches(c[|c| - 1], req, parse))
                       && (TreeMatches(And(c), req, parse) == TreeMatches(t, req, parse))
    ensures t.Or? ==> (forall j :: 0 <= j < |c| - 1 ==> !Matches(c[j], req, parse))
                      && (|c| < |t.any| ==> |c| > 0 && Matches(c[|c| - 1], req, parse))
                      && (TreeMatches(Or(c), req, parse) == TreeMatches(t, req, parse))
  {
    var p := Holds(req, parse);
    match t
    case And(ms) =>
      var c := ConsultedByAll(ms, p);
      assert forall j :: 0 <= j < |c| ==> p(c[j]) == Matches(c[j], req, parse);
      assert TreeMatches(And(c), req, parse) == All(c, p);
      c
    case Or(ms) =>
      var c := ConsultedByAny(ms, p);
      assert forall j :: 0 <= j < |c| ==> p(c[j]) == Matches(c[j], req, parse);
      assert TreeMatches(Or(c), req, parse) == Any(c, p);
      c
  }


  /** Reordering (or re-counting) the listed matchers changes nothing. */
  lemma PermutationInvariant(t: Matchers, t': Matchers, req: Request, parse: FloatParser)
    requires t.And? == t'.And?
    requires t.And? ==> multiset(t.all) == multiset(t'.all)
    requires t.Or? ==> multiset(t.any) == multiset(t'.any)
    ensures TreeMatches(t, req, parse) == TreeMatches(t', req, parse)
  {
    match t
    case And(ms) => AllAnyRespectElements(ms, t'.all, Holds(req, parse));
    case Or(ms) => AllAnyRespectElements(ms, t'.any, Holds(req, parse));
  }

  /** Appending a matcher can only turn an `And` from true to false and an
      `Or` from false to true. */
  lemma AppendMonotone(ms: seq<Matcher>, m: Matcher, req: Request, parse: FloatParser)
    ensures TreeMatches(And(ms + [m]), req, parse) ==> TreeMatches(And(ms), req, parse)
    ensures TreeMatches(Or(ms), req, parse) ==> TreeMatches(Or(ms + [m]), req, parse)
  {
    Base.AppendMonotone(ms, m, Holds(req, parse));
  }
}
