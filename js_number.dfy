/** The parts of JavaScript's number semantics the frontend relies on: the
    remainder operator `%`, which truncates toward zero, and the decimal text
    that a template literal or a string concatenation produces for an integer. */
module JsNumber {
  import opened Wrappers

  /** `a % d` as JavaScript computes it for a positive divisor: the result has
      the sign of the dividend, unlike Dafny's Euclidean `%`. */
  function Rem(a: int, d: nat): (r: int)
    requires d > 0
    ensures a >= 0 ==> 0 <= r < d && r == a % d
    ensures a < 0 ==> 0 - d < r <= 0 && -r == (-a) % d
  {
    if a >= 0 then a % d else -((-a) % d)
  }

  /** A positive multiplier does not make a natural number smaller. */
  lemma {:induction false} MulAtLeast(d: nat, q: int)
    requires q >= 1
    ensures d * q >= d
    decreases q
  {
    if q > 1 {
      MulAtLeast(d, q - 1);
      assert d * q == d * (q - 1) + d;
    }
  }

  /** A non-positive multiplier gives a non-positive product. */
  lemma {:induction false} MulNonPositive(d: nat, q: int)
    requires q <= 0
    ensures d * q <= 0
    decreases -q
  {
    if q < 0 {
      MulNonPositive(d, q + 1);
      assert d * q == d * (q + 1) - d;
    }
  }

  /** The remainder of a smaller non-negative number is the number itself. */
  lemma RemOfSmaller(a: nat, d: nat)
    requires a < d
    ensures Rem(a, d) == a && a % d == a
  {
    var q := a / d;
    assert a == d * q + a % d;
    if q >= 1 {
      MulAtLeast(d, q);
      assert false;
    }
    if q <= -1 {
      MulNonPositive(d, q + 1);
      assert false;
    }
  }

  /** Any divisor leaves no remainder of itself. */
  lemma RemOfSelf(d: nat)
    requires d > 0
    ensures Rem(d, d) == 0 && d % d == 0
  {
    var q := d / d;
    assert d == d * q + d % d;
    if q >= 1 {
      MulAtLeast(d, q);
    } else {
      MulNonPositive(d, q);
      assert false;
    }
  }

  predicate IsDigit(c: char) {
    '0' <= c <= '9'
  }

  predicate AllDigits(s: string) {
    forall i :: 0 <= i < |s| ==> IsDigit(s[i])
  }

  function DigitChar(d: nat): (c: char)
    requires d < 10
    ensures IsDigit(c)
  {
    (48 + d) as char
  }

  function DigitValue(c: char): (d: nat)
    requires IsDigit(c)
    ensures d < 10
  {
    c as int - 48
  }

  /** The decimal text of a natural number, most significant digit first,
      without leading zeros. */
  function NatToString(n: nat): (s: string)
    ensures |s| > 0 && AllDigits(s)
    ensures |s| > 1 ==> s[0] != '0'
    decreases n
  {
    if n < 10 then [DigitChar(n)] else NatToString(n / 10) + [DigitChar(n % 10)]
  }

  /** The text JavaScript produces for an integer: a minus sign before the magnitude. */
  function IntToString(i: int): (s: string)
    ensures |s| > 0
    ensures s[0] == '-' <==> i < 0
  {
    if i < 0 then "-" + NatToString(-i) else NatToString(i)
  }

  /** The value of a string of decimal digits (the empty string reads as 0). */
  function DigitsValue(s: string): nat
    requires AllDigits(s)
  {
    if s == [] then 0 else 10 * DigitsValue(s[..|s| - 1]) + DigitValue(s[|s| - 1])
  }

  /** Reads back a decimal natural number; anything that is not a non-empty
      digit string is rejected. */
  function ParseNat(s: string): Option<nat> {
    if |s| > 0 && AllDigits(s) then Some(DigitsValue(s)) else None
  }

  lemma {:induction false} DigitsValueOfNatToString(n: nat)
    ensures DigitsValue(NatToString(n)) == n
    decreases n
  {
    if n >= 10 {
      var prefix := NatToString(n / 10);
      var s := prefix + [DigitChar(n % 10)];
      assert s[..|s| - 1] == prefix;
      DigitsValueOfNatToString(n / 10);
    }
  }

  /** Rendering a natural number and reading it back gives the number. */
  lemma ParseNatOfNatToString(n: nat)
    ensures ParseNat(NatToString(n)) == Some(n)
  {
    DigitsValueOfNatToString(n);
  }

}
