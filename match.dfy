/** `Match`: the older coercion used by the path-parameter matchers. It
    tries only an `f64` parse and otherwise keeps the text, so there is no
    integer variant. */
module MatchCoercion {
  import opened Base
  import opened Floats

  datatype Match = String(text: string) | Numeric(x: F64)

  /** The derived `PartialEq`: same variant and equal payloads. */
  function Eq(a: Match, b: Match): (r: bool)
    ensures r ==> a == b
    ensures a != Numeric(NaN) ==> (r <==> a == b)
    ensures a == Numeric(NaN) ==> !r
  {
    match (a, b)
    case (String(s), String(t)) => s == t
    case (Numeric(x), Numeric(y)) => Floats.Eq(x, y)
    case _ => false
  }

  /** `impl From<String> for Match`: total, with exactly two outcomes. */
  function FromString(s: string, parse: FloatParser): (m: Match)
    ensures m.Numeric? <==> parse(s).Some?
    ensures m.Numeric? ==> Some(m.x) == parse(s)
    ensures m.String? ==> m.text == s
  {
    match parse(s)
    case Some(x) => Numeric(x)
    case None => String(s)
  }

  /** A `Numeric` never equals a `String`, in either order. */
  lemma NumericNeverEqualsString(x: F64, t: string)
    ensures !Eq(Numeric(x), String(t)) && !Eq(String(t), Numeric(x))
  {
  }

  /** Integer-looking text becomes `Numeric` too: "10" is `Numeric(10.)`. */
  lemma Ten(parse: FloatParser)
    requires parse("10") == Some(Finite(10.0))
    ensures FromString("10", parse) == Numeric(Finite(10.0))
  {
  }

  /** Text the float parser rejects stays itself: "hello". */
  lemma Hello(parse: FloatParser)
    requires parse("hello") == None
    ensures FromString("hello", parse) == String("hello")
  {
  }
}
