/** `Value`: a path or query string coerced for equality matching, trying
    an `i64` parse, then an `f64` parse, and otherwise keeping the text. */
module ValueCoercion {
  import opened Base
  import opened Floats
  import opened Integers

  datatype Value = String(text: string) | Integer(n: int) | Numeric(x: F64)

  /** The derived `PartialEq`: same variant and equal payloads. */
  function Eq(a: Value, b: Value): (r: bool)
    ensures r ==> a == b
    ensures a != Numeric(NaN) ==> (r <==> a == b)
    ensures a == Numeric(NaN) ==> !r
  {
    match (a, b)
    case (String(s), String(t)) => s == t
    case (Integer(m), Integer(n)) => m == n
    case (Numeric(x), Numeric(y)) => Floats.Eq(x, y)
    case _ => false
  }

  /** `impl From<String> for Value`. Total: every string gives exactly one
      variant, and there is no error. */
  function FromString(s: string, parse: FloatParser): (v: Value)
    ensures v.Integer? <==> ParseI64(s).Some?
    ensures v.Integer? ==> Some(v.n) == ParseI64(s) && I64Min <= v.n <= I64Max
    ensures v.Numeric? <==> ParseI64(s).None? && parse(s).Some?
    ensures v.Numeric? ==> Some(v.x) == parse(s)
    ensures v.String? <==> ParseI64(s).None? && parse(s).None?
    ensures v.String? ==> v.text == s
  {
    match ParseI64(s)
    case Some(n) => Integer(n)
    case None =>
      match parse(s)
      case Some(x) => Numeric(x)
      case None => String(s)
  }

  /** An optional sign followed by decimal digits whose value fits in an
      `i64` is an `Integer` of that value, whatever the float parser says. */
  lemma {:induction false} SignedDigitsAreIntegers(sign: string, digits: string, parse: FloatParser)
    requires sign == "" || sign == "+" || sign == "-"
    requires |digits| >= 1 && AllDigits(digits)
    requires I64Min <= Signed(sign == "-", DigitsValue(digits)) <= I64Max
    ensures FromString(sign + digits, parse) == Integer(Signed(sign == "-", DigitsValue(digits)))
  {
    var s := sign + digits;
    if sign == "" {
      assert s == digits;
      assert s[0] != '+' && s[0] != '-' by { assert IsDigit(digits[0]); }
    } else {
      assert s[0] == sign[0] && s[1..] == digits;
    }
  }

  /** The integer parse is tried first: text that parses as `i64` never
      becomes `Numeric`, even though it would also parse as a float. */
  lemma IntegersNeverNumeric(s: string, parse: FloatParser)
    requires ParseI64(s).Some?
    ensures !FromString(s, parse).Numeric?
  {
  }

  /** "42" is `Integer(42)`. */
  lemma FortyTwo(parse: FloatParser)
    ensures FromString("42", parse) == Integer(42)
  {
    assert AllDigits("42");
    assert DigitsValue("42") == 42 by {
      assert "42"[..1] == "4";
      assert "4"[..0] == "";
    }
  }

  /** "10.5" fails the integer parse, so it is `Numeric` of whatever the
      float parser reads. */
  lemma TenPointFive(parse: FloatParser)
    requires parse("10.5") == Some(Finite(10.5))
    ensures FromString("10.5", parse) == Numeric(Finite(10.5))
  {
    assert !IsDigit("10.5"[2]);
  }

  /** Text that is neither an integer nor a float stays itself. */
  lemma Hello(parse: FloatParser)
    requires parse("hello") == None
    ensures FromString("hello", parse) == String("hello")
  {
    assert !IsDigit("hello"[0]);
  }

  /** Equality is variant-sensitive: an `Integer` equals no `Numeric` and
      no `String`, whatever the numbers involved. */
  lemma IntegerEqualsOnlyIntegers(a: Value, b: Value)
    requires a.Integer?
    ensures Eq(a, b) <==> b == a
  {
  }

  /** In particular an integer-looking path value never equals a
      configured `Numeric`, whatever the float parser says. */
  lemma IntegerTextNeverEqualsNumeric(s: string, parse: FloatParser, x: F64)
    requires ParseI64(s).Some?
    ensures !Eq(FromString(s, parse), Numeric(x))
  {
  }
}
