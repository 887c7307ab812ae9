/**
 Shared building blocks: optional values, results for the error paths of the
 request handlers, the integer percentage every view computes, and the decimal
 rendering of identifiers used in certificate numbers.
 */
module Common {

  datatype Option<T> = None | Some(value: T)

  datatype Result<T, E> = Ok(value: T) | Err(error: E)

  /** Python's `a or b` on an optional timestamp: keep `a` when set. */
  function OrElse<T>(a: Option<T>, b: T): (r: T)
    ensures a.Some? ==> r == a.value
    ensures a.None? ==> r == b
  {
    if a.Some? then a.value else b
  }

  /**
   The percentage `int((part / whole) * 100)` computed over exact rationals:
   the largest integer p with p * whole <= 100 * part.
   */
  function Percent(part: nat, whole: nat): (p: nat)
    requires whole > 0
    ensures p * whole <= 100 * part < (p + 1) * whole
  {
    (100 * part) / whole
  }

  /** Multiplying by a positive factor keeps strict order, so it can be cancelled. */
  lemma MulCancel(x: nat, y: nat, w: nat)
    requires 0 < w && x * w < y * w
    ensures x < y
  {
    if y <= x {
      MulMono(y, x, w);
    }
  }

  lemma MulMono(x: nat, y: nat, w: nat)
    requires x <= y
    ensures x * w <= y * w
  {
  }

  lemma PercentBounds(part: nat, whole: nat)
    requires 0 < whole
    requires part <= whole
    ensures Percent(part, whole) <= 100
    ensures Percent(part, whole) == 100 <==> part == whole
    ensures Percent(part, whole) == 0 <==> 100 * part < whole
  {
    var p := Percent(part, whole);
    MulMono(part, whole, 100);
    assert p * whole < 101 * whole;
    MulCancel(p, 101, whole);
    if part == whole {
      assert 100 * whole < (p + 1) * whole;
      MulCancel(100, p + 1, whole);
    }
    if p == 100 {
      assert 100 * whole <= 100 * part;
    }
    if 100 * part < whole {
      assert p * whole < 1 * whole;
      MulCancel(p, 1, whole);
    }
  }

  /** A count that grows never gives a smaller percentage of the same whole. */
  lemma PercentMonotone(a: nat, b: nat, whole: nat)
    requires 0 < whole && a <= b
    ensures Percent(a, whole) <= Percent(b, whole)
  {
    var pa, pb := Percent(a, whole), Percent(b, whole);
    assert pa * whole < (pb + 1) * whole;
    MulCancel(pa, pb + 1, whole);
  }

  predicate IsDigit(c: char) {
    '0' <= c <= '9'
  }

  predicate AllDigits(s: string) {
    forall i :: 0 <= i < |s| ==> IsDigit(s[i])
  }

  function DigitChar(d: nat): (c: char)
    requires d < 10
    ensures IsDigit(c) && c as int - '0' as int == d
  {
    ('0' as int + d) as char
  }

  /** Python's `str(n)` for a non-negative integer: decimal, no leading zeros. */
  function NatToString(n: nat): (s: string)
    ensures |s| > 0 && AllDigits(s)
  {
    if n < 10 then [DigitChar(n)] else NatToString(n / 10) + [DigitChar(n % 10)]
  }

  /** Reads a string of decimal digits back as a number. */
  function DigitsValue(s: string): nat
    requires AllDigits(s)
  {
    if |s| == 0 then 0
    else 10 * DigitsValue(s[..|s| - 1]) + (s[|s| - 1] as int - '0' as int)
  }

  lemma {:induction false} NatToStringRoundTrip(n: nat)
    ensures DigitsValue(NatToString(n)) == n
  {
    if n >= 10 {
      var s := NatToString(n);
      assert s[..|s| - 1] == NatToString(n / 10);
      NatToStringRoundTrip(n / 10);
    }
  }

  /** Distinct numbers are rendered as distinct strings. */
  lemma NatToStringInjective(m: nat, n: nat)
    requires NatToString(m) == NatToString(n)
    ensures m == n
  {
    NatToStringRoundTrip(m);
    NatToStringRoundTrip(n);
  }
}
