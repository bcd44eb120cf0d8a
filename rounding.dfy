/**
  Python's built-in `round(x)` for a rational argument x = num / den:
  the nearest integer, and on an exact tie (x halfway between two integers)
  the even one ("banker's rounding").
 */
module Rounding {

  /** r lies within one half of num / den, i.e. |r - num/den| <= 1/2. */
  predicate IsNearest(num: int, den: int, r: int)
    requires den > 0
  {
    -den <= 2 * (den * r - num) <= den
  }

  /**
    r is what round-half-to-even gives for num / den: a nearest integer, and
    an even one whenever it lies exactly one half away.
   */
  predicate IsRoundHalfEven(num: int, den: int, r: int)
    requires den > 0
  {
    IsNearest(num, den, r) && (2 * (den * r - num) == den || 2 * (den * r - num) == -den ==> r % 2 == 0)
  }

  function RoundHalfEven(num: int, den: int): (r: int)
    requires den > 0
    ensures IsRoundHalfEven(num, den, r)
  {
    var q, m := num / den, num % den;
    assert den * q - num == -m;
    assert den * (q + 1) - num == den - m by { Distribute(den, q, 1); }
    if 2 * m < den then q
    else if 2 * m > den then q + 1
    else if q % 2 == 0 then q
    else q + 1
  }

  /** den * (a + b) == den * a + den * b */
  lemma Distribute(den: int, a: int, b: int)
    ensures den * (a + b) == den * a + den * b
  {
  }

  /** The product of two non-negative integers is non-negative. */
  lemma {:induction false} ProductNonNegative(a: nat, b: nat)
    ensures a * b >= 0
  {
    if b > 0 {
      ProductNonNegative(a, b - 1);
      Distribute(a, b - 1, 1);
    }
  }

  /**
    If den * k lies within [-den, den] for a positive den, k is -1, 0 or 1,
    and den * k is accordingly -den, 0 or den.
   */
  lemma ScaledBound(den: int, k: int)
    requires den > 0 && -den <= den * k <= den
    ensures k == -1 || k == 0 || k == 1
    ensures den * k == if k == 1 then den else if k == -1 then -den else 0
  {
    if k >= 2 {
      ProductNonNegative(den, k - 2);
      Distribute(den, k - 2, 2);
    } else if k <= -2 {
      ProductNonNegative(den, -k - 2);
      Distribute(den, k, -k - 2);
    }
  }

  /** Round-half-to-even is fully determined by its specification. */
  lemma RoundHalfEvenUnique(num: int, den: int, r: int)
    requires den > 0 && IsRoundHalfEven(num, den, r)
    ensures r == RoundHalfEven(num, den)
  {
    var e := RoundHalfEven(num, den);
    Distribute(den, e, r - e);
    ScaledBound(den, r - e);
  }

  /**
    Tolerance for a floating-point argument x, given through y = den * x:
    if x is within 1/(2*den) of the exact num / den, an integer within one
    half of x is a nearest integer of num / den.  (den * r - num is an
    integer, so a distance under den/2 + 1/2 is at most den/2.)
   */
  lemma NearestDespiteError(num: int, den: int, y: real, r: int)
    requires den > 0
    requires -1.0 < 2.0 * (y - num as real) < 1.0
    requires -(den as real) <= 2.0 * ((den * r) as real - y) <= den as real
    ensures IsNearest(num, den, r)
  {
    var gap := den * r - num;
    assert gap as real == ((den * r) as real - y) + (y - num as real);
    assert -den - 1 < 2 * gap < den + 1;
  }
}
