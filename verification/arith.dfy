/** Unbounded-integer facts the fixed-point model rests on: powers of two and
    Euclidean division by a positive divisor (which is Python's floor
    division and floor modulo for such divisors). */
module Arith {

  /** 2^k, the value of Python's `1 << k` and `2**k` for k >= 0. */
  function Pow2(k: nat): (r: nat)
    ensures r >= 1
  {
    if k == 0 then 1 else 2 * Pow2(k - 1)
  }

  /** Python's `a << k`: k doublings. */
  function ShiftLeft(a: int, k: nat): int
    decreases k
  {
    if k == 0 then a else 2 * ShiftLeft(a, k - 1)
  }

  lemma {:induction false} ShiftLeftIsMul(a: int, k: nat)
    ensures ShiftLeft(a, k) == a * Pow2(k)
    decreases k
  {
    if k > 0 {
      ShiftLeftIsMul(a, k - 1);
      assert a * Pow2(k) == 2 * (a * Pow2(k - 1));
    }
  }

  /** Python's `v >> k` on integers: k halvings, each rounding down. */
  function ShiftRight(v: int, k: nat): int
    decreases k
  {
    if k == 0 then v else ShiftRight(v / 2, k - 1)
  }

  /** Shifting right by k is floor division by 2^k. */
  lemma {:induction false} ShiftRightIsDiv(v: int, k: nat)
    ensures ShiftRight(v, k) == v / Pow2(k)
    decreases k
  {
    if k == 0 {
      DivModUnique(v, 1, v, 0);
    } else {
      ShiftRightIsDiv(v / 2, k - 1);
      DivDiv(v, 2, Pow2(k - 1));
    }
  }

  /** Dividing by a and then by b is dividing by a * b. */
  lemma DivDiv(v: int, a: int, b: int)
    requires a > 0 && b > 0
    ensures (v / a) / b == v / (a * b)
  {
    var q1, r1 := v / a, v % a;
    var q2, r2 := q1 / b, q1 % b;
    assert v == q1 * a + r1;
    assert q1 == q2 * b + r2;
    DivDivParts(a, b, q2, r2, r1);
    DivModUnique(v, a * b, q2, r2 * a + r1);
  }

  lemma DivDivParts(a: int, b: int, q2: int, r2: int, r1: int)
    requires a > 0 && 0 <= r2 < b && 0 <= r1 < a
    ensures (q2 * b + r2) * a + r1 == q2 * (a * b) + (r2 * a + r1)
    ensures 0 <= r2 * a + r1 < a * b
  {
    MulNonNeg(r2, a);
    MulNonNeg(b - 1 - r2, a);
    assert (b - 1 - r2) * a == b * a - a - r2 * a;
  }

  /** The remainder by 2p splits into the remainder by p and the next bit. */
  lemma ModDoubleSplit(u: int, p: int)
    requires p >= 1
    ensures u % (2 * p) == u % p + p * ((u / p) % 2)
  {
    var q := u / p;
    assert u == q * p + u % p;
    assert q == 2 * (q / 2) + q % 2;
    assert u == (q / 2) * (2 * p) + (u % p + p * (q % 2));
    DivModUnique(u, 2 * p, q / 2, u % p + p * (q % 2));
  }

  /** Quotient and remainder are determined by the division equation. */
  lemma DivModUnique(a: int, d: int, q: int, r: int)
    requires d > 0 && 0 <= r < d && a == q * d + r
    ensures a / d == q && a % d == r
  {
    var q0, r0 := a / d, a % d;
    assert a == q0 * d + r0;
    assert (q - q0) * d == r0 - r;
    if q > q0 {
      MulAtLeast(q - q0, d);
      assert false;
    } else if q < q0 {
      MulAtLeast(q0 - q, d);
      assert false;
    }
  }

  lemma MulAtLeast(k: int, d: int)
    requires k >= 1 && d > 0
    ensures k * d >= d
  {
    assert k * d == (k - 1) * d + d;
  }

  lemma MulNonNeg(a: int, b: int)
    requires a >= 0 && b >= 0
    ensures a * b >= 0
  {
  }

  /** Adding a multiple of the modulus does not change the remainder. */
  lemma ModAddMultiple(a: int, k: int, d: int)
    requires d > 0
    ensures (a + k * d) % d == a % d
    ensures (a + k * d) / d == a / d + k
  {
    assert a + k * d == (a / d + k) * d + a % d;
    DivModUnique(a + k * d, d, a / d + k, a % d);
  }

  /** Reducing one summand first does not change the reduced sum. */
  lemma ModAddLeft(a: int, b: int, d: int)
    requires d > 0
    ensures (a % d + b) % d == (a + b) % d
  {
    assert a % d + b == (a + b) + (-(a / d)) * d;
    ModAddMultiple(a + b, -(a / d), d);
  }

  lemma ModSubLeft(a: int, b: int, d: int)
    requires d > 0
    ensures (a % d - b) % d == (a - b) % d
  {
    ModAddLeft(a, -b, d);
  }

  lemma ModIdempotent(a: int, d: int)
    requires d > 0
    ensures (a % d) % d == a % d
  {
    DivModUnique(a % d, d, 0, a % d);
  }

  lemma ModOfInRange(a: int, d: int)
    requires d > 0 && 0 <= a < d
    ensures a % d == a && a / d == 0
  {
    DivModUnique(a, d, 0, a);
  }

  /** Reducing the right operand first does not change the reduced result. */
  lemma ModAddRight(a: int, b: int, d: int)
    requires d > 0
    ensures (a + b % d) % d == (a + b) % d
  {
    ModAddLeft(b, a, d);
    assert b % d + a == a + b % d && b + a == a + b;
  }

  lemma ModSubRight(a: int, b: int, d: int)
    requires d > 0
    ensures (a - b % d) % d == (a - b) % d
  {
    ModAddMultiple(a - b, b / d, d);
    assert a - b % d == (a - b) + (b / d) * d;
  }

  /** Subtraction modulo d undoes addition modulo d ... */
  lemma SubCancel(a: int, b: int, d: int)
    requires d > 0
    ensures ((a + b) % d - b) % d == a % d
  {
    ModSubLeft(a + b, b, d);
    assert a + b - b == a;
  }

  /** ... and conversely. */
  lemma AddCancel(a: int, b: int, d: int)
    requires d > 0
    ensures ((a - b) % d + b) % d == a % d
  {
    ModAddLeft(a - b, b, d);
    assert a - b + b == a;
  }

  lemma Pow2Add(a: nat, b: nat)
    ensures Pow2(a + b) == Pow2(a) * Pow2(b)
    decreases a
  {
    if a > 0 {
      Pow2Add(a - 1, b);
      assert Pow2(a + b) == 2 * Pow2(a - 1 + b);
    }
  }

  lemma Pow2Monotone(a: nat, b: nat)
    requires a <= b
    ensures Pow2(a) <= Pow2(b)
    decreases b
  {
    if a < b {
      Pow2Monotone(a, b - 1);
    }
  }

  /** A quotient by a positive divisor never exceeds a non-negative dividend. */
  lemma DivAtMost(u: int, d: int)
    requires u >= 0 && d >= 1
    ensures 0 <= u / d <= u
  {
    var q := u / d;
    assert u == q * d + u % d;
    if q < 0 {
      MulAtLeast(-q, d);
      assert false;
    } else if q > 0 {
      assert q * d == q + q * (d - 1);
      MulNonNeg(q, d - 1);
    }
  }

  /** If u < b * d then u / d < b. */
  lemma DivBelow(u: int, d: int, b: int)
    requires u >= 0 && d >= 1 && u < b * d
    ensures u / d < b
  {
    var q := u / d;
    assert u == q * d + u % d;
    if q >= b {
      MulNonNeg(q - b, d);
      assert false;
    }
  }

  /** Dividing by 2^a after subtracting 2^(a+b) lowers the quotient by 2^b. */
  lemma DivSubPow2(u: int, a: nat, b: nat)
    ensures (u - Pow2(a + b)) / Pow2(a) == u / Pow2(a) - Pow2(b)
  {
    Pow2Add(b, a);
    assert Pow2(a + b) == Pow2(b) * Pow2(a);
    var k: int := -(Pow2(b) as int);
    ModAddMultiple(u, k, Pow2(a));
    assert u + k * Pow2(a) == u - Pow2(a + b);
  }

  /** Reducing changes a number by a multiple of the modulus. */
  lemma ModDifference(a: int, d: int)
    requires d > 0
    ensures (a % d - a) % d == 0
  {
    assert a == (a / d) * d + a % d;
    assert a % d - a == (-(a / d)) * d;
    MultipleMod(-(a / d), d);
  }

  lemma MultipleMod(k: int, d: int)
    requires d > 0
    ensures (k * d) % d == 0
  {
    DivModUnique(k * d, d, k, 0);
  }

  /** Numbers whose difference is a multiple of d have the same remainder. */
  lemma ModCongruent(a: int, v: int, d: int)
    requires d > 0 && (a - v) % d == 0
    ensures a % d == v % d
  {
    var q := (a - v) / d;
    assert a - v == q * d + (a - v) % d;
    ModAddMultiple(v, q, d);
  }

  /** Larger divisors give smaller quotients of a non-negative number. */
  lemma DivAntitone(u: int, d1: int, d2: int)
    requires u >= 0 && 1 <= d1 <= d2
    ensures u / d2 <= u / d1
  {
    var q1, q2 := u / d1, u / d2;
    DivAtMost(u, d2);
    assert u == q2 * d2 + u % d2;
    MulNonNeg(q2, d2 - d1);
    assert q2 * d1 <= u;
    if q2 > q1 {
      assert u == q1 * d1 + u % d1;
      MulAtLeast(q2 - q1, d1);
      assert false;
    }
  }
}
