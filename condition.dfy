/** A condition pairs an optional single matcher and an optional matcher
    tree with the response to give when it holds. */
module Conditions {
  import opened Base
  import opened Floats
  import opened Requests
  import opened Matching
  import opened MatcherTree
  import MatchCoercion
  import ValueCoercion
  import Responses
  import opened Integers

  datatype Condition = Condition(
    matcher: Option<Matcher>,
    matchers: Option<Matchers>,
    response: Responses.Response)

  /** `Condition::matches`: the single matcher wins when it is set; else
      the tree decides; with neither, every request matches. */
  function ConditionMatches(c: Condition, req: Request, parse: FloatParser): (r: bool)
    ensures c.matcher.Some? ==> r == Matches(c.matcher.value, req, parse)
    ensures c.matcher.None? && c.matchers.Some? ==> r == TreeMatches(c.matchers.value, req, parse)
    ensures c.matcher.None? && c.matchers.None? ==> r
  {
    match c.matcher
    case Some(m) => Matches(m, req, parse)
    case None =>
      match c.matchers
      case Some(t) => TreeMatches(t, req, parse)
      case None => true
  }

  /** The precedence rule, case by case; the response never takes part. */
  lemma Precedence(c: Condition, req: Request, parse: FloatParser)
    ensures c.matcher.Some? ==> (ConditionMatches(c, req, parse) <==> Matches(c.matcher.value, req, parse))
    ensures c.matcher.None? && c.matchers.Some? ==>
              (ConditionMatches(c, req, parse) <==> TreeMatches(c.matchers.value, req, parse))
    ensures c.matcher.None? && c.matchers.None? ==> ConditionMatches(c, req, parse)
    ensures forall r :: ConditionMatches(c.(response := r), req, parse) == ConditionMatches(c, req, parse)
  {
  }

  /** With a single matcher set, the tree is ignored in both directions:
      the condition can hold while the tree fails, and fail while the
      tree holds. */
  lemma TreeIgnoredUnderSingleMatcher(c: Condition, t: Matchers, req: Request, parse: FloatParser)
    requires c.matcher.Some?
    ensures ConditionMatches(c.(matchers := Some(t)), req, parse) == ConditionMatches(c.(matchers := None), req, parse)
  {
  }

  /** The scenario of the first condition test: single matcher
      `foo in [Numeric(123.)]`, tree `Or[foo in [Numeric(234.)]]`. The request
      `foo=234` is refused (the tree would accept it) and `foo=123` is
      accepted. This relies on `Match` coercion, which turns "123" into
      `Numeric(123.)`. */
  lemma SingleMatcherEvaluatedFirst(parse: FloatParser, r: Responses.Response)
    requires parse("123") == Some(Finite(123.0)) && parse("234") == Some(Finite(234.0))
    ensures var c := Condition(
              Some(PathParamMatcher(PathParamMatch("foo", [MatchCoercion.Numeric(Finite(123.0))]))),
              Some(Or([PathParamMatcher(PathParamMatch("foo", [MatchCoercion.Numeric(Finite(234.0))]))])),
              r);
            !ConditionMatches(c, Request(map[], map["foo" := "234"], map[], ""), parse)
            && TreeMatches(c.matchers.value, Request(map[], map["foo" := "234"], map[], ""), parse)
            && ConditionMatches(c, Request(map[], map["foo" := "123"], map[], ""), parse)
  {
    var c := Condition(
              Some(PathParamMatcher(PathParamMatch("foo", [MatchCoercion.Numeric(Finite(123.0))]))),
              Some(Or([PathParamMatcher(PathParamMatch("foo", [MatchCoercion.Numeric(Finite(234.0))]))])),
              r);
    var req234 := Request(map[], map["foo" := "234"], map[], "");
    assert !MatchCoercion.Eq(MatchCoercion.Numeric(Finite(123.0)), MatchCoercion.Numeric(Finite(234.0)));
    assert Matches(c.matchers.value.any[0], req234, parse);
  }

  /** Under `Value` coercion the same test would fail: "123" becomes
      `Integer(123)`, which equals no `Numeric`, so a single matcher over
      `[Numeric(123.)]` could never accept `foo=123`. */
  lemma ValueCoercionBreaksNumericTest(parse: FloatParser)
    ensures !ValueCoercion.Eq(ValueCoercion.FromString("123", parse), ValueCoercion.Numeric(Finite(123.0)))
  {
    assert DigitsValue("123") == 123 by {
      assert "123"[..2] == "12" && "12"[..1] == "1" && "1"[..0] == "";
    }
    ValueCoercion.SignedDigitsAreIntegers("", "123", parse);
    assert "" + "123" == "123";
  }

  /** A condition with no matcher and no tree accepts every request. */
  lemma UnconditionalMatchesAll(r: Responses.Response, req: Request, parse: FloatParser)
    ensures ConditionMatches(Condition(None, None, r), req, parse)
  {
  }
}
