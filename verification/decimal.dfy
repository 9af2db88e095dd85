/**
 * `Integer.toString(int)` and `Integer.parseInt(String)` from java.lang,
 * restricted to the ASCII digits. `parseInt` throws NumberFormatException
 * on anything that is not an optional sign followed by at least one digit,
 * and on values outside the 32-bit range; here that is `None`.
 */
module Decimal {
  import opened Wrappers

  const IntMin: int := -0x8000_0000
  const IntMax: int := 0x7fff_ffff

  predicate IsInt32(v: int) {
    IntMin <= v <= IntMax
  }

  predicate IsDigit(c: char) {
    '0' <= c <= '9'
  }

  predicate AllDigits(s: string) {
    forall k :: 0 <= k < |s| ==> IsDigit(s[k])
  }

  function DigitChar(d: nat): (c: char)
    requires d < 10
    ensures IsDigit(c)
  {
    ('0' as int + d) as char
  }

  /** The value of a string of decimal digits, most significant first. */
  function DigitsValue(s: string): nat
    requires AllDigits(s)
  {
    if |s| == 0 then 0
    else DigitsValue(s[..|s| - 1]) * 10 + (s[|s| - 1] as int - '0' as int)
  }

  /** Decimal digits of `n` with no leading zero (zero itself is "0"). */
  function NatToDigits(n: nat): (s: string)
    ensures |s| >= 1 && AllDigits(s)
    ensures DigitsValue(s) == n
    decreases n
  {
    if n < 10 then [DigitChar(n)]
    else
      var s := NatToDigits(n / 10) + [DigitChar(n % 10)];
      assert s[..|s| - 1] == NatToDigits(n / 10);
      s
  }

  /** `Integer.toString`: a minus sign for negative values, then the digits of the magnitude. */
  function IntToString(v: int): (s: string)
    ensures |s| >= 1
    ensures ':' !in s
  {
    if v < 0 then "-" + NatToDigits(-v) else NatToDigits(v)
  }

  /** `Integer.parseInt` in radix 10. */
  function ParseInt(s: string): (r: Option<int>)
    ensures r.Some? ==> IsInt32(r.value)
    ensures r.Some? ==> |s| >= 1
  {
    if |s| == 0 then None
    else
      var signed := s[0] == '-' || s[0] == '+';
      var digits := if signed then s[1..] else s;
      if |digits| == 0 || !AllDigits(digits) then None
      else
        var magnitude: int := DigitsValue(digits);
        var v: int := if s[0] == '-' then -magnitude else magnitude;
        if IsInt32(v) then Some(v) else None
  }

  /** `parseInt` reads back every 32-bit value `toString` writes. */
  lemma ParseIntToString(v: int)
    requires IsInt32(v)
    ensures ParseInt(IntToString(v)) == Some(v)
  {
    var s := IntToString(v);
    if v < 0 {
      assert s[1..] == NatToDigits(-v);
    } else {
      assert s[0] != '-' && s[0] != '+';
    }
  }
}
