/** The `f64` values that appear as `Numeric` payloads. Only equality is
    observed by the routing code, so a value is kept as the real number it
    denotes, or one of the three non-finite values. Parsing a string as
    `f64` is left to an oracle, `FloatParser`. */
module Floats {
  import opened Base

  datatype F64 = Finite(r: real) | PosInf | NegInf | NaN

  /** IEEE 754 equality, as `f64: PartialEq` has it: NaN equals nothing,
      not even itself; everything else is equal to exactly itself. */
  function Eq(x: F64, y: F64): (r: bool)
    ensures x != NaN ==> (r <==> x == y)
    ensures x == NaN || y == NaN ==> !r
  {
    x != NaN && x == y
  }

  /** `str::parse::<f64>`: `Some(x)` when the text is a float literal. */
  type FloatParser = string -> Option<F64>
}
