/**
 * Decimal text for integers, as Go's `fmt` `%d` writes it and as
 * `strconv.ParseInt(s, 10, 32)` reads it, and Go's truncating `/` and `%`.
 */
module Decimal {
  import opened Wrappers

  const MinInt32: int := -0x8000_0000
  const MaxInt32: int := 0x7FFF_FFFF

  predicate IsDigit(c: char)
  {
    '0' <= c <= '9'
  }

  predicate AllDigits(s: string)
  {
    forall k :: 0 <= k < |s| ==> IsDigit(s[k])
  }

  function DigitChar(d: nat): (c: char)
    requires d < 10
    ensures IsDigit(c) && c as int - '0' as int == d
  {
    ('0' as int + d) as char
  }

  /** `%d` of a non-negative integer: no sign, no leading zeros. */
  function NatToDecimal(n: nat): (s: string)
    ensures |s| >= 1 && AllDigits(s)
    ensures s[0] == '0' ==> n == 0
  {
    if n < 10 then [DigitChar(n)]
    else NatToDecimal(n / 10) + [DigitChar(n % 10)]
  }

  /** The value of a string of decimal digits. */
  function DigitsValue(s: string): nat
    requires AllDigits(s)
  {
    if s == [] then 0
    else DigitsValue(s[..|s| - 1]) * 10 + (s[|s| - 1] as int - '0' as int)
  }

  /** Reading back the digits that `%d` writes gives the number. */
  lemma {:induction false} DecimalRoundTrip(n: nat)
    ensures DigitsValue(NatToDecimal(n)) == n
  {
    if n >= 10 {
      var s := NatToDecimal(n);
      assert s[..|s| - 1] == NatToDecimal(n / 10);
      DecimalRoundTrip(n / 10);
    }
  }

  /** Different numbers have different decimal texts. */
  lemma NatToDecimalInjective(a: nat, b: nat)
    requires NatToDecimal(a) == NatToDecimal(b)
    ensures a == b
  {
    DecimalRoundTrip(a);
    DecimalRoundTrip(b);
  }

  /** `%d` of any integer. */
  function IntToDecimal(i: int): string
  {
    if i < 0 then "-" + NatToDecimal(-i) else NatToDecimal(i)
  }

  /**
   * `strconv.ParseInt(s, 10, 32)`: an optional `+` or `-`, then one or more
   * decimal digits, whose value must lie in the signed 32-bit range; anything
   * else is an error (`None`).
   */
  function ParseInt32(s: string): (r: Option<int>)
    ensures r.Some? ==> MinInt32 <= r.value <= MaxInt32
  {
    if s == [] then None
    else
      var neg := s[0] == '-';
      var body := if s[0] == '+' || s[0] == '-' then s[1..] else s;
      if body == [] || !AllDigits(body) then None
      else
        var u: int := DigitsValue(body);
        var v := if neg then -u else u;
        if MinInt32 <= v <= MaxInt32 then Some(v) else None
  }

  /** Every 32-bit integer survives being written with `%d` and read back. */
  lemma Int32RoundTrip(i: int)
    requires MinInt32 <= i <= MaxInt32
    ensures ParseInt32(IntToDecimal(i)) == Some(i)
  {
    if i < 0 {
      var d := NatToDecimal(-i);
      var s := "-" + d;
      assert s[0] == '-' && s[1..] == d;
      DecimalRoundTrip(-i);
      assert ParseInt32(s) == Some(i);
    } else {
      var d := NatToDecimal(i);
      assert IsDigit(d[0]);
      DecimalRoundTrip(i);
      assert ParseInt32(d) == Some(i);
    }
  }

  /** Go's `a / b` for `b > 0`. */
  function GoQuot(a: int, b: int): int
    requires b > 0
  {
    if a >= 0 then a / b else -((-a) / b)
  }

  /**
   * The quotient is truncated toward zero: the largest multiple of `b` not
   * above `a` when `a >= 0`, and the smallest not below `a` when `a < 0`.
   */
  lemma GoQuotTruncates(a: int, b: int)
    requires b > 0
    ensures var q := GoQuot(a, b);
            (a >= 0 ==> 0 <= q && q * b <= a < q * b + b) &&
            (a < 0 ==> q <= 0 && q * b - b < a <= q * b)
  {
    if a < 0 {
      var p := (-a) / b;
      assert p * b + (-a) % b == -a;
      if p < 0 {
        NegativeMultiple(p, b);
      }
      assert GoQuot(a, b) == -p && (-p) * b == -(p * b);
    } else {
      var q := a / b;
      assert q * b + a % b == a;
      if q < 0 {
        NegativeMultiple(q, b);
      }
    }
  }

  /** A negative number of positive steps is at most one step below zero. */
  lemma {:induction false} NegativeMultiple(q: int, b: int)
    requires q < 0 && b > 0
    ensures q * b <= -b
    decreases -q
  {
    if q < -1 {
      NegativeMultiple(q + 1, b);
      assert q * b == (q + 1) * b - b;
    }
  }

  /** Go's `a % b` for `b > 0`: it takes the sign of `a`. */
  function GoRem(a: int, b: int): (r: int)
    requires b > 0
    ensures a == GoQuot(a, b) * b + r
    ensures a >= 0 ==> 0 <= r < b
    ensures a < 0 ==> -b < r <= 0
  {
    a - GoQuot(a, b) * b
  }
}
