/**
 * Facts about Euclidean division on natural numbers that the solver does
 * not find on its own because they involve products of variables.
 */
module Arith {

  /** Quotient and remainder are the only pair that recombines to `x`. */
  lemma UniqueDivision(x: int, r: int, q: int, c: int)
    requires r > 0 && x == q * r + c && 0 <= c < r
    ensures q == x / r && c == x % r
  {
    var q', c' := x / r, x % r;
    assert (q - q') * r == c' - c;
    if q > q' {
      assert (q - q') * r >= r by { MulGrows(q - q', r); }
    } else if q < q' {
      assert (q' - q) * r >= r by { MulGrows(q' - q, r); }
    }
  }

  lemma MulGrows(a: int, r: int)
    requires a >= 1 && r > 0
    ensures a * r >= r
  {
    assert a * r == (a - 1) * r + r;
  }

  /** Multiplying by a positive number can be undone. */
  lemma CancelMul(a: int, b: int, f: int)
    requires f > 0 && a * f == b * f
    ensures a == b
  {
    UniqueDivision(a * f, f, a, 0);
    UniqueDivision(b * f, f, b, 0);
  }

  /** A multiple of `f` leaves no remainder. */
  lemma MulMod(c: int, f: int)
    requires f > 0
    ensures (c * f) % f == 0
  {
    UniqueDivision(c * f, f, c, 0);
  }

  /** Dividing by `a` and then by `b` is dividing by `a * b`. */
  lemma DivDiv(x: nat, a: nat, b: nat)
    requires a > 0 && b > 0
    ensures x / a / b == x / (a * b)
  {
    var q1, r1 := x / a, x % a;
    var q2, r2 := q1 / b, q1 % b;
    assert x == q1 * a + r1;
    assert q1 == q2 * b + r2;
    Regroup(x, a, b, q1, r1, q2, r2);
    RemainderBound(a, b, r1, r2);
    UniqueDivision(x, a * b, q2, r2 * a + r1);
  }

  lemma Regroup(x: int, a: int, b: int, q1: int, r1: int, q2: int, r2: int)
    requires x == q1 * a + r1 && q1 == q2 * b + r2
    ensures x == q2 * (a * b) + (r2 * a + r1)
  {
    calc {
      x;
      q1 * a + r1;
      (q2 * b + r2) * a + r1;
      { assert (q2 * b + r2) * a == q2 * b * a + r2 * a; }
      q2 * b * a + r2 * a + r1;
      { assert q2 * b * a == q2 * (a * b); }
      q2 * (a * b) + (r2 * a + r1);
    }
  }

  lemma RemainderBound(a: int, b: int, r1: int, r2: int)
    requires a > 0 && 0 <= r1 < a && 0 <= r2 < b
    ensures 0 <= r2 * a + r1 < a * b
  {
    assert r2 * a <= (b - 1) * a by { MulLeq(r2, b - 1, a); }
    assert (b - 1) * a == a * b - a;
  }

  lemma MulLeq(x: int, y: int, a: int)
    requires 0 <= x <= y && a > 0
    ensures 0 <= x * a <= y * a
  {
    assert y * a - x * a == (y - x) * a;
  }

  /** Dropping the remainder leaves a whole number of `f`. */
  lemma RoundDown(x: nat, f: nat)
    requires f > 0
    ensures x - x % f == (x / f) * f
  {
  }

  /**
   * One step of recombining mixed-radix digits: a remainder digit of
   * weight `f` plus the quotient of weight `f * r` make `x` of weight `f`.
   */
  lemma DigitStep(w: int, x: int, r: int, f: int, q: int, g: int, c: int)
    requires r > 0 && c == x % r && q == x / r && g == f * r && w == c * f + q * g
    ensures w == x * f
  {
    assert q * g == (q * r) * f;
    assert x == q * r + c;
    assert w == (c + q * r) * f;
  }

  /** When `f` divides `g`, the quotient is positive and restores `g`. */
  lemma ExactQuotient(f: nat, g: nat)
    requires f > 0 && g > 0 && g % f == 0
    ensures g / f >= 1 && g == f * (g / f)
  {
  }

  /** `m` whole units of size `g = f * r` added to `c` units of size `f`, counted in units `f`. */
  lemma Carry(c: int, f: int, m: int, g: int, r: int)
    requires g == f * r
    ensures c * f + m * g == (c + m * r) * f
  {
  }
}
