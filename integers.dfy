/** `str::parse::<i64>`: an optional `+` or `-`, then one or more ASCII
    decimal digits, whose value must fit in a signed 64-bit integer. */
module Integers {
  import opened Base

  const I64Min: int := -0x8000_0000_0000_0000
  const I64Max: int := 0x7fff_ffff_ffff_ffff

  predicate IsDigit(c: char)
  {
    '0' <= c <= '9'
  }

  predicate AllDigits(s: string)
  {
    forall i :: 0 <= i < |s| ==> IsDigit(s[i])
  }

  /** The number a string of decimal digits denotes, most significant first. */
  function DigitsValue(ds: string): (n: nat)
    requires AllDigits(ds)
    decreases |ds|
  {
    if ds == [] then 0
    else DigitsValue(ds[..|ds| - 1]) * 10 + (ds[|ds| - 1] as int - '0' as int)
  }

  function Signed(negative: bool, magnitude: nat): int
  {
    if negative then 0 - magnitude else magnitude
  }

  function ParseI64(s: string): (r: Option<int>)
    ensures r.Some? ==> I64Min <= r.value <= I64Max
  {
    if s == [] then None
    else if (s[0] == '+' || s[0] == '-') && |s| == 1 then None
    else
      var negative := s[0] == '-';
      var digits := if s[0] == '+' || s[0] == '-' then s[1..] else s;
      if !AllDigits(digits) then None
      else
        var n := Signed(negative, DigitsValue(digits));
        if I64Min <= n <= I64Max then Some(n) else None
  }

  /** The shortest decimal spelling of a natural number. */
  function Decimal(n: nat): (s: string)
    ensures |s| >= 1 && AllDigits(s)
    ensures DigitsValue(s) == n
    decreases n
  {
    var last := [('0' as int + n % 10) as char];
    if n < 10 then last
    else
      var s := Decimal(n / 10) + last;
      assert s[..|s| - 1] == Decimal(n / 10);
      s
  }

  /** Printing then parsing gives back every `i64`: the parser accepts
      all of the integer syntax it is meant to. */
  lemma ParseDecimal(n: int)
    requires I64Min <= n <= I64Max
    ensures n >= 0 ==> ParseI64(Decimal(n)) == Some(n)
    ensures n < 0 ==> ParseI64("-" + Decimal(-n)) == Some(n)
  {
    if n >= 0 {
      var s := Decimal(n);
      assert s[0] != '+' && s[0] != '-' by { assert IsDigit(s[0]); }
    } else {
      var s := "-" + Decimal(-n);
      assert s[1..] == Decimal(-n);
    }
  }

  /** A parsed integer is spelt by its digits: whatever the parser accepts
      is an optional sign followed by the digits of the value's magnitude
      (up to leading zeros). */
  lemma ParsedIsSignedDigits(s: string)
    requires ParseI64(s).Some?
    ensures var d := if s[0] == '+' || s[0] == '-' then s[1..] else s;
            |d| >= 1 && AllDigits(d) &&
            DigitsValue(d) == (if s[0] == '-' then -ParseI64(s).value else ParseI64(s).value)
  {
  }
}
