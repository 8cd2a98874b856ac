/** The reversible fixed-point layer shared by every later revision of the
    scaler and the CORDIC: registers are n-bit two's-complement integers kept
    in [0, 2^n), an arithmetic right shift that copies the sign bit leftwards,
    the shifted add `x <- x +/- (y >> s)` that leaves y alone, and the
    Fibonacci numbers that index the scaler's correction ladder. */
module FixedPoint {
  import opened Arith

  /** Bit k of v in Python's infinite two's complement, `(v & (1 << k)) >> k`,
      which is also defined for negative v. */
  function Bit(v: int, k: nat): (b: int)
    ensures b == 0 || b == 1
  {
    ShiftRight(v, k) % 2
  }

  lemma BitIsDiv(v: int, k: nat)
    ensures Bit(v, k) == (v / Pow2(k)) % 2
  {
    ShiftRightIsDiv(v, k);
  }

  /** True when v is negative as an n-bit two's-complement number. */
  predicate IsNeg(v: int, n: nat)
    requires n >= 1
  {
    Bit(v, n - 1) != 0
  }

  /** The signed reading of a register value u in [0, 2^n). */
  function Signed(u: int, n: nat): int
    requires n >= 1
  {
    if u >= Pow2(n - 1) then u - Pow2(n) else u
  }

  /** Every register value lies in [0, 2^n). */
  predicate InRange(u: int, n: nat) {
    0 <= u < Pow2(n)
  }

  /** The sign bit of a value in [0, 2^n) is set exactly on the upper half. */
  lemma TopBit(u: int, n: nat)
    requires n >= 1 && InRange(u, n)
    ensures Bit(u, n - 1) == (if u >= Pow2(n - 1) then 1 else 0)
  {
    var p := Pow2(n - 1);
    assert Pow2(n) == 2 * p;
    BitIsDiv(u, n - 1);
    if u < p {
      ModOfInRange(u, p);
    } else {
      DivModUnique(u, p, 1, u - p);
    }
  }

  /** `isneg` reads bit n-1 of an unreduced Python integer; that bit is set
      exactly when the value reduced modulo 2^n lies in the upper half. */
  lemma IsNegIffUpperHalf(v: int, n: nat)
    requires n >= 1
    ensures IsNeg(v, n) <==> v % Pow2(n) >= Pow2(n - 1)
  {
    var p := Pow2(n - 1);
    assert Pow2(n) == 2 * p;
    BitIsDiv(v, n - 1);
    ModDoubleSplit(v, p);
  }

  /** The sign fill added by `bitshift`, `((1 << shift) - leftBit) << (n - shift)`
      reduced modulo 2^n: zero for a clear sign bit, else the top `shift`
      bits of the register. */
  function SignFill(shift: nat, n: nat, leftBit: int): int
    requires shift <= n
  {
    ShiftLeft(Pow2(shift) - leftBit, n - shift) % Pow2(n)
  }

  lemma ShiftFillValue(shift: nat, n: nat, leftBit: int)
    requires shift <= n && (leftBit == 0 || leftBit == 1)
    ensures SignFill(shift, n, leftBit)
            == (if leftBit == 0 then 0 else Pow2(n) - Pow2(n - shift))
  {
    ShiftLeftIsMul(Pow2(shift) - leftBit, n - shift);
    assert shift + (n - shift) == n;
    Pow2Add(shift, n - shift);
    FillProduct(Pow2(shift), Pow2(n - shift), Pow2(n), leftBit);
  }

  /** With N = a * b, (a - l) * b reduced modulo N is 0 for l = 0 and
      N - b for l = 1. */
  lemma FillProduct(a: int, b: int, N: int, l: int)
    requires a >= 1 && b >= 1 && N == a * b && (l == 0 || l == 1)
    ensures ((a - l) * b) % N == (if l == 0 then 0 else N - b)
  {
    Distribute(a, b, l);
    MulAtLeast(a, b);
    if l == 0 {
      DivModUnique(N, N, 1, 0);
    } else {
      ModOfInRange(N - b, N);
    }
  }

  lemma Distribute(a: int, b: int, l: int)
    requires l == 0 || l == 1
    ensures (a - l) * b == a * b - (if l == 0 then 0 else b)
  {
  }

  /** The logical shift of a register value fits in n - shift bits. */
  lemma ShiftedBelow(u: int, shift: nat, n: nat)
    requires shift <= n && InRange(u, n)
    ensures 0 <= u / Pow2(shift) < Pow2(n - shift)
    ensures ShiftRight(u, shift) == u / Pow2(shift)
  {
    ShiftRightIsDiv(u, shift);
    Pow2Add(n - shift, shift);
    DivAtMost(u, Pow2(shift));
    DivBelow(u, Pow2(shift), Pow2(n - shift));
  }

  /** Shift plus fill is again a register value. */
  lemma ShiftFill(u: int, shift: nat, n: nat, leftBit: int)
    requires shift <= n && InRange(u, n)
    requires leftBit == 0 || leftBit == 1
    ensures InRange(ShiftRight(u, shift) + SignFill(shift, n, leftBit), n)
  {
    ShiftFillValue(shift, n, leftBit);
    ShiftedBelow(u, shift, n);
    Pow2Monotone(n - shift, n);
  }

  /** Right shift of x by `shift` bits in an n-bit two's-complement register,
      copying the sign bit leftwards; a shift wider than the register
      saturates to 0 or to all ones (-1). */
  function BitShift(x: int, shift: nat, n: nat): (r: int)
    requires n >= 1
    ensures InRange(r, n)
  {
    var u := x % Pow2(n);
    var leftBit := Bit(u, n - 1);
    if shift > n then
      if leftBit == 0 then 0 else Pow2(n) - 1
    else
      ShiftFill(u, shift, n, leftBit);
      ShiftRight(u, shift) + SignFill(shift, n, leftBit)
  }

  /** The shift only reads x modulo 2^n. */
  lemma BitShiftReducesFirst(x: int, shift: nat, n: nat)
    requires n >= 1
    ensures BitShift(x % Pow2(n), shift, n) == BitShift(x, shift, n)
  {
    ModIdempotent(x, Pow2(n));
  }

  /** Beyond the register width the shift saturates on the sign bit. */
  lemma BitShiftSaturates(x: int, shift: nat, n: nat)
    requires n >= 1 && shift > n
    ensures BitShift(x, shift, n)
            == (if x % Pow2(n) >= Pow2(n - 1) then Pow2(n) - 1 else 0)
  {
    TopBit(x % Pow2(n), n);
  }

  /** Within the register width the result is the logical shift of the
      reduced value plus, for a set sign bit, 2^n - 2^(n-shift). */
  lemma BitShiftWithinWidth(x: int, shift: nat, n: nat)
    requires n >= 1 && shift <= n
    ensures BitShift(x, shift, n)
            == x % Pow2(n) / Pow2(shift)
               + (if x % Pow2(n) >= Pow2(n - 1) then Pow2(n) - Pow2(n - shift) else 0)
  {
    var u := x % Pow2(n);
    TopBit(u, n);
    ShiftFillValue(shift, n, Bit(u, n - 1));
    ShiftRightIsDiv(u, shift);
  }

  /** A shift by zero is the identity on register values. */
  lemma BitShiftByZero(x: int, n: nat)
    requires n >= 1
    ensures BitShift(x, 0, n) == x % Pow2(n)
  {
    var u := x % Pow2(n);
    ShiftFillValue(0, n, Bit(u, n - 1));
  }

  /** Read as signed n-bit numbers, the shift is floor division by
      2^shift: the sign bit is copied leftwards. */
  lemma BitShiftIsArithmeticShift(x: int, shift: nat, n: nat)
    requires n >= 1
    ensures Signed(BitShift(x, shift, n), n) == Signed(x % Pow2(n), n) / Pow2(shift)
  {
    if shift > n {
      BitShiftSaturates(x, shift, n);
      SignedShiftSaturated(x % Pow2(n), shift, n);
    } else {
      BitShiftWithinWidth(x, shift, n);
      SignedShiftWithin(x % Pow2(n), shift, n);
    }
  }

  lemma SignedShiftSaturated(u: int, shift: nat, n: nat)
    requires n >= 1 && InRange(u, n) && shift > n
    ensures Signed(if u >= Pow2(n - 1) then Pow2(n) - 1 else 0, n) == Signed(u, n) / Pow2(shift)
  {
    var p := Pow2(n - 1);
    assert Pow2(n) == 2 * p;
    Pow2Monotone(n, shift);
    if u >= p {
      DivModUnique(u - Pow2(n), Pow2(shift), -1, u - Pow2(n) + Pow2(shift));
    } else {
      ModOfInRange(u, Pow2(shift));
    }
  }

  lemma SignedShiftWithin(u: int, shift: nat, n: nat)
    requires n >= 1 && InRange(u, n) && shift <= n
    ensures Signed(u / Pow2(shift) + (if u >= Pow2(n - 1) then Pow2(n) - Pow2(n - shift) else 0), n)
            == Signed(u, n) / Pow2(shift)
  {
    if u >= Pow2(n - 1) {
      SignedShiftUpper(u, shift, n);
    } else {
      ShiftedBelow(u, shift, n);
      DivAtMost(u, Pow2(shift));
    }
  }

  /** On the upper half the fill 2^n - 2^(n-shift) turns the logical shift
      into the shift of the negative reading u - 2^n. */
  lemma SignedShiftUpper(u: int, shift: nat, n: nat)
    requires n >= 1 && InRange(u, n) && shift <= n && u >= Pow2(n - 1)
    ensures Signed(u / Pow2(shift) + Pow2(n) - Pow2(n - shift), n) == (u - Pow2(n)) / Pow2(shift)
  {
    var q, b := u / Pow2(shift), Pow2(n - shift);
    assert (u - Pow2(n)) / Pow2(shift) == q - b by {
      assert shift + (n - shift) == n;
      DivSubPow2(u, shift, n - shift);
    }
    ShiftedBelow(u, shift, n);
    if shift >= 1 {
      Pow2Monotone(n - shift, n - 1);
    }
    UpperHalf(q + Pow2(n) - b, n);
  }

  /** A value in the upper half reads as itself less 2^n. */
  lemma UpperHalf(r: int, n: nat)
    requires n >= 1 && Pow2(n - 1) <= r < Pow2(n)
    ensures Signed(r, n) == r - Pow2(n)
  {
  }

  /** The docstring's example: 1010 >> 1 == 1101 on four bits. */
  lemma BitShiftCopiesSignBit()
    ensures BitShift(10, 1, 4) == 13
    ensures BitShift(5, 1, 4) == 2
  {
    assert Pow2(1) == 2 && Pow2(3) == 8 && Pow2(4) == 16;
    BitShiftWithinWidth(10, 1, 4);
    BitShiftWithinWidth(5, 1, 4);
    ModOfInRange(10, 16);
    ModOfInRange(5, 16);
  }

  /** The standalone demo: -113 is 10001111 on eight bits, shifting by four
      gives 11111000, which is -8. */
  lemma BitShiftDemo()
    ensures Pow2(8) - BitShift(-113, 4, 8) == 8
  {
    assert Pow2(4) == 16 && Pow2(7) == 128 && Pow2(8) == 256;
    BitShiftWithinWidth(-113, 4, 8);
    DivModUnique(-113, 256, -1, 143);
    DivModUnique(143, 16, 8, 15);
  }

  /** Shifted add: x <- (x +/- (y >> shift)) mod 2^n, y reduced but
      otherwise left unchanged. Returns the pair (new x, new y). */
  function Add(x: int, y: int, shift: nat, n: nat, negativeY: bool): (r: (int, int))
    requires n >= 1
    ensures InRange(r.0, n) && InRange(r.1, n)
    ensures r.1 == y % Pow2(n)
  {
    var N := Pow2(n);
    var x0 := x % N;
    var y0 := y % N;
    var x1 := if negativeY then x0 - BitShift(y0, shift, n) else x0 + BitShift(y0, shift, n);
    ModIdempotent(y, N);
    (x1 % N, y0 % N)
  }

  /** The shifted add is invertible: adding with the opposite sign restores
      x modulo 2^n (and y is untouched by both). */
  lemma {:induction false} AddInverse(x: int, y: int, shift: nat, n: nat, negativeY: bool)
    requires n >= 1
    ensures Add(Add(x, y, shift, n, negativeY).0, y, shift, n, !negativeY)
            == (x % Pow2(n), y % Pow2(n))
  {
    var N := Pow2(n);
    var b := BitShift(y % N, shift, n);
    var x1 := Add(x, y, shift, n, negativeY).0;
    var x2 := Add(x1, y, shift, n, !negativeY).0;
    AddFirst(x, y, shift, n, negativeY);
    AddFirst(x1, y, shift, n, !negativeY);
    ModOfInRange(x1, N);
    if negativeY {
      assert x1 == (x % N - b) % N;
      ModSubLeft(x, b, N);
      assert x2 == ((x - b) % N + b) % N;
      AddCancel(x, b, N);
    } else {
      assert x1 == (x % N + b) % N;
      ModAddLeft(x, b, N);
      assert x2 == ((x + b) % N - b) % N;
      SubCancel(x, b, N);
    }
  }

  /** The first output of `Add` in terms of the shifted, reduced y. */
  lemma AddFirst(x: int, y: int, shift: nat, n: nat, negativeY: bool)
    requires n >= 1
    ensures var b := BitShift(y % Pow2(n), shift, n);
            Add(x, y, shift, n, negativeY).0
            == (if negativeY then x % Pow2(n) - b else x % Pow2(n) + b) % Pow2(n)
  {
  }

  /** Without a shift the shifted add is plain addition (or subtraction)
      modulo 2^n. */
  lemma AddUnshifted(x: int, y: int, n: nat, negativeY: bool)
    requires n >= 1
    ensures Add(x, y, 0, n, negativeY).0 == (if negativeY then x - y else x + y) % Pow2(n)
  {
    var N := Pow2(n);
    AddFirst(x, y, 0, n, negativeY);
    BitShiftByZero(y % N, n);
    ModIdempotent(y, N);
    if negativeY {
      ModSubLeft(x, y % N, N);
      ModSubRight(x, y, N);
    } else {
      ModAddLeft(x, y % N, N);
      ModAddRight(x, y, N);
    }
  }

  /** In signed terms the shifted add adds (or subtracts) floor(y / 2^shift)
      to x modulo 2^n. */
  lemma {:induction false} AddAddsSignedShift(x: int, y: int, shift: nat, n: nat, negativeY: bool)
    requires n >= 1
    ensures var s := Signed(y % Pow2(n), n) / Pow2(shift);
            Add(x, y, shift, n, negativeY).0
            == (if negativeY then x - s else x + s) % Pow2(n)
  {
    var N := Pow2(n);
    var b := BitShift(y % N, shift, n);
    var s := Signed(y % N, n) / Pow2(shift);
    ModIdempotent(y, N);
    BitShiftIsArithmeticShift(y % N, shift, n);
    assert Signed(b, n) == s;
    var k := if b >= Pow2(n - 1) then 1 else 0;
    assert b == s + k * N;
    if negativeY {
      ModSubLeft(x, b, N);
      ModAddMultiple(x - s, -k, N);
      assert x - b == (x - s) + (-k) * N;
    } else {
      ModAddLeft(x, b, N);
      ModAddMultiple(x + s, k, N);
    }
  }

  /** The scaler's ladder indices: the Fibonacci numbers 1, 1, 2, 3, 5, 8, ...
      (Binet's formula rounded, as an integer recurrence). */
  function Fib(i: nat): (r: nat)
    ensures r >= 1
  {
    if i < 2 then 1 else Fib(i - 1) + Fib(i - 2)
  }

  /** The first values; the third is 2, not the 3 a docstring lists. */
  lemma FibFirstValues()
    ensures Fib(0) == 1 && Fib(1) == 1 && Fib(2) == 2 && Fib(3) == 3
    ensures Fib(4) == 5 && Fib(5) == 8 && Fib(6) == 13
  {
  }

  /** The ladder's sign rule negates on odd Fibonacci numbers; they are odd,
      odd, even with period three. */
  lemma {:induction false} FibParity(i: nat)
    ensures Fib(i) % 2 == 0 <==> i % 3 == 2
  {
    if i >= 3 {
      FibParity(i - 3);
      assert Fib(i) == 2 * Fib(i - 2) + Fib(i - 3) by {
        assert Fib(i - 1) == Fib(i - 2) + Fib(i - 3);
      }
      EvenShift(Fib(i), Fib(i - 2), Fib(i - 3));
      assert i % 3 == (i - 3) % 3;
    } else {
      assert Fib(2) == 2;
    }
  }

  /** Adding an even number keeps the parity. */
  lemma EvenShift(a: int, b: int, c: int)
    requires a == 2 * b + c
    ensures a % 2 == c % 2
  {
  }

  /** The ladder's shift amounts at least double every two steps. */
  lemma {:induction false} FibGrowth(i: nat)
    ensures Fib(i) <= Fib(i + 1)
    ensures 2 * Fib(i) <= Fib(i + 2)
  {
    if i >= 1 {
      FibGrowth(i - 1);
    }
  }
}
