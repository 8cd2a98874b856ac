/** The bit-level shifted adder: x, y and a carry register c are written as
    n-bit two's-complement vectors (least significant bit at index 0), bit 0
    is a half adder that toggles the carry register's bit 0, every later bit
    is a full adder fed by the previous carry, and the three vectors are read
    back as signed integers. The shift argument is accepted and ignored. */
module RippleAdder {
  import opened Arith
  import opened FixedPoint

  function B(b: bool): nat {
    if b then 1 else 0
  }

  /** The unsigned value of a bit vector, least significant bit first. */
  function Unsigned(b: seq<bool>): (r: nat)
    ensures r < Pow2(|b|)
  {
    if |b| == 0 then 0 else Unsigned(b[..|b| - 1]) + Pow2(|b| - 1) * B(b[|b| - 1])
  }

  /** The n low bits of v in two's complement, as `BitArray(int=v, length=n)`
      holds them. */
  function ToBits(v: int, n: nat): (r: seq<bool>)
    ensures |r| == n
  {
    seq(n, i requires 0 <= i < n => Bit(v, i) == 1)
  }

  /** The signed reading of a vector (`BitArray.int`): the top bit weighs
      -2^(n-1). */
  function ToSigned(b: seq<bool>): (r: int)
    requires |b| >= 1
    ensures -(Pow2(|b| - 1) as int) <= r < Pow2(|b| - 1)
  {
    if b[|b| - 1] then Unsigned(b) - Pow2(|b|) else Unsigned(b)
  }

  /** v is representable in n-bit two's complement. */
  predicate SignedFits(v: int, n: nat) {
    n >= 1 && -(Pow2(n - 1) as int) <= v < Pow2(n - 1)
  }

  /** The n-bit two's-complement wrap of v: the representable value
      congruent to v modulo 2^n. */
  function WrapSigned(v: int, n: nat): (r: int)
    requires n >= 1
    ensures SignedFits(r, n)
    ensures (r - v) % Pow2(n) == 0
  {
    var h := Pow2(n - 1);
    var w := (v + h) % Pow2(n);
    assert Pow2(n) == 2 * h;
    ModDifference(v + h, Pow2(n));
    assert w - h - v == (v + h) % Pow2(n) - (v + h);
    w - h
  }

  /** Only one representable value is congruent to v. */
  lemma WrapSignedUnique(a: int, v: int, n: nat)
    requires n >= 1 && SignedFits(a, n) && (a - v) % Pow2(n) == 0
    ensures a == WrapSigned(v, n)
  {
    var N := Pow2(n);
    var h := Pow2(n - 1);
    assert N == 2 * h;
    assert (a + h) - (v + h) == a - v;
    ModCongruent(a + h, v + h, N);
    ModOfInRange(a + h, N);
  }

  /** Reading back the bits of v gives v modulo 2^n. */
  lemma {:induction false} UnsignedToBits(v: int, n: nat)
    ensures Unsigned(ToBits(v, n)) == v % Pow2(n)
  {
    if n == 0 {
      ModOfInRange(0, 1);
      DivModUnique(v, 1, v, 0);
    } else {
      UnsignedToBits(v, n - 1);
      assert ToBits(v, n)[..n - 1] == ToBits(v, n - 1);
      BitIsDiv(v, n - 1);
      ModDoubleSplit(v, Pow2(n - 1));
    }
  }

  /** Writing a representable v into n bits and reading it back signed
      gives v. */
  lemma SignedRoundTrip(v: int, n: nat)
    requires SignedFits(v, n)
    ensures ToSigned(ToBits(v, n)) == v
  {
    var N := Pow2(n);
    var h := Pow2(n - 1);
    assert N == 2 * h;
    UnsignedToBits(v, n);
    IsNegIffUpperHalf(v, n);
    if v >= 0 {
      ModOfInRange(v, N);
    } else {
      DivModUnique(v, N, -1, v + N);
    }
  }

  /** The signed reading differs from the unsigned one by 2^n when the top
      bit is set. */
  lemma SignedIsUnsignedShifted(b: seq<bool>)
    requires |b| >= 1
    ensures ToSigned(b) == Unsigned(b) - Pow2(|b|) * B(b[|b| - 1])
  {
    if b[|b| - 1] {
      assert B(b[|b| - 1]) == 1;
    } else {
      assert B(b[|b| - 1]) == 0;
    }
  }

  function Maj(a: bool, b: bool, c: bool): bool {
    (a && b) || (a && c) || (b && c)
  }

  /** Carry bit i: bit 0 toggles the carry register's bit 0 by x0 && y0;
      each later bit is the majority of the previous carry and the operand
      bits. */
  function CarryAt(x: seq<bool>, y: seq<bool>, c0: bool, i: nat): bool
    requires i < |x| == |y|
  {
    if i == 0 then c0 != (x[0] && y[0]) else Maj(CarryAt(x, y, c0, i - 1), y[i], x[i])
  }

  /** Sum bit i: bit 0 is x0 xor y0 (the carry register is not added in);
      each later bit adds the previous carry. */
  function SumAt(x: seq<bool>, y: seq<bool>, c0: bool, i: nat): bool
    requires i < |x| == |y|
  {
    if i == 0 then x[0] != y[0] else (x[i] != y[i]) != CarryAt(x, y, c0, i - 1)
  }

  function SumBits(x: seq<bool>, y: seq<bool>, c0: bool): (r: seq<bool>)
    requires |x| == |y|
    ensures |r| == |x|
  {
    seq(|x|, i requires 0 <= i < |x| => SumAt(x, y, c0, i))
  }

  function CarryBits(x: seq<bool>, y: seq<bool>, c0: bool): (r: seq<bool>)
    requires |x| == |y|
    ensures |r| == |x|
  {
    seq(|x|, i requires 0 <= i < |x| => CarryAt(x, y, c0, i))
  }

  /** Through bit i the vectors add x and y, plus twice the amount by which
      bit 0's carry differs from a half adder's carry x0 && y0. */
  lemma {:induction false} SumPrefix(x: seq<bool>, y: seq<bool>, c0: bool, i: nat)
    requires i < |x| == |y|
    ensures Unsigned(SumBits(x, y, c0)[..i + 1]) + Pow2(i + 1) * B(CarryAt(x, y, c0, i))
            == Unsigned(x[..i + 1]) + Unsigned(y[..i + 1])
               + 2 * (B(CarryAt(x, y, c0, 0)) - B(x[0] && y[0]))
  {
    var s := SumBits(x, y, c0);
    assert s[..i + 1][..i] == s[..i];
    assert x[..i + 1][..i] == x[..i];
    assert y[..i + 1][..i] == y[..i];
    if i == 0 {
      assert s[..0] == x[..0] == y[..0] == [];
    } else {
      SumPrefix(x, y, c0, i - 1);
      var p := Pow2(i);
      assert Pow2(i + 1) == 2 * p;
      assert B(s[i]) + 2 * B(CarryAt(x, y, c0, i))
             == B(x[i]) + B(y[i]) + B(CarryAt(x, y, c0, i - 1));
      assert p * B(s[i]) + 2 * p * B(CarryAt(x, y, c0, i))
             == p * B(x[i]) + p * B(y[i]) + p * B(CarryAt(x, y, c0, i - 1));
    }
  }

  /** Over all n bits: the sum vector plus the final carry at weight 2^n. */
  lemma WholeSum(x: seq<bool>, y: seq<bool>, c0: bool)
    requires 1 <= |x| == |y|
    ensures Unsigned(SumBits(x, y, c0)) + Pow2(|x|) * B(CarryAt(x, y, c0, |x| - 1))
            == Unsigned(x) + Unsigned(y) + 2 * (B(CarryAt(x, y, c0, 0)) - B(x[0] && y[0]))
  {
    var n := |x|;
    var s := SumBits(x, y, c0);
    SumPrefix(x, y, c0, n - 1);
    assert s[..n] == s && x[..n] == x && y[..n] == y;
  }

  /** The bookkeeping of SignedSum: signed readings that differ from the
      unsigned ones by multiples of n differ from each other by a multiple
      of n too. */
  lemma SignedDifference(ss: int, sx: int, sy: int, us: int, ux: int, uy: int, d: int, n: int,
                         ts: int, tx: int, ty: int, tc: int)
    requires us + n * tc == ux + uy + d
    requires ss == us - n * ts && sx == ux - n * tx && sy == uy - n * ty
    ensures ss - (sx + sy + d) == (tx + ty - tc - ts) * n
  {
  }

  /** Read signed, the sum vector differs from x + y + 2 * (carry-0
      deviation) by a multiple of 2^n: the top bits of x, y and the sum and
      the final carry, each weighed 2^n. */
  lemma SignedSumRelation(x: seq<bool>, y: seq<bool>, c0: bool)
    requires 1 <= |x| == |y|
    ensures var n, s := |x|, SumBits(x, y, c0);
            ToSigned(s) - (ToSigned(x) + ToSigned(y) + 2 * (B(CarryAt(x, y, c0, 0)) - B(x[0] && y[0])))
            == (B(x[n - 1]) + B(y[n - 1]) - B(CarryAt(x, y, c0, n - 1)) - B(s[n - 1])) * Pow2(n)
  {
    WholeSum(x, y, c0);
    SignedRelation(SumBits(x, y, c0), x, y, CarryAt(x, y, c0, |x| - 1),
                   2 * (B(CarryAt(x, y, c0, 0)) - B(x[0] && y[0])));
  }

  /** For any vectors whose unsigned values satisfy s + 2^n * carry = x + y
      + d, the signed readings satisfy the same relation up to the top bits
      weighed 2^n. */
  lemma SignedRelation(s: seq<bool>, x: seq<bool>, y: seq<bool>, carry: bool, d: int)
    requires 1 <= |x| == |y| == |s|
    requires Unsigned(s) + Pow2(|x|) * B(carry) == Unsigned(x) + Unsigned(y) + d
    ensures var n := |x|;
            ToSigned(s) - (ToSigned(x) + ToSigned(y) + d)
            == (B(x[n - 1]) + B(y[n - 1]) - B(carry) - B(s[n - 1])) * Pow2(n)
  {
    var n := |x|;
    var N := Pow2(n);
    var ts: int, tx: int, ty: int, tc: int := B(s[n - 1]), B(x[n - 1]), B(y[n - 1]), B(carry);
    SignedIsUnsignedShifted(s);
    SignedIsUnsignedShifted(x);
    SignedIsUnsignedShifted(y);
    SignedDifference(ToSigned(s), ToSigned(x), ToSigned(y), Unsigned(s), Unsigned(x), Unsigned(y),
                     d, N, ts, tx, ty, tc);
  }

  /** Hence they are congruent modulo 2^n. */
  lemma SignedSumCongruent(x: seq<bool>, y: seq<bool>, c0: bool)
    requires 1 <= |x| == |y|
    ensures (ToSigned(SumBits(x, y, c0))
             - (ToSigned(x) + ToSigned(y) + 2 * (B(CarryAt(x, y, c0, 0)) - B(x[0] && y[0]))))
            % Pow2(|x|) == 0
  {
    var n, s := |x|, SumBits(x, y, c0);
    SignedSumRelation(x, y, c0);
    MultipleMod(B(x[n - 1]) + B(y[n - 1]) - B(CarryAt(x, y, c0, n - 1)) - B(s[n - 1]), Pow2(n));
  }

  /** The signed sum vector is x + y + 2 * (carry-0 deviation), wrapped to
      n bits. */
  lemma SignedSum(x: seq<bool>, y: seq<bool>, c0: bool)
    requires 1 <= |x| == |y|
    ensures ToSigned(SumBits(x, y, c0))
            == WrapSigned(ToSigned(x) + ToSigned(y)
                          + 2 * (B(CarryAt(x, y, c0, 0)) - B(x[0] && y[0])), |x|)
  {
    SignedSumCongruent(x, y, c0);
    WrapSignedUnique(ToSigned(SumBits(x, y, c0)),
                     ToSigned(x) + ToSigned(y) + 2 * (B(CarryAt(x, y, c0, 0)) - B(x[0] && y[0])), |x|);
  }

  /** `shiftAdd` on integers: the signed readings of the new x, of y and of
      the carry register. Only bit 0 of c is read. */
  function ShiftAddSpec(x: int, y: int, c: int, n: nat): (r: (int, int, int))
    requires SignedFits(x, n) && SignedFits(y, n) && SignedFits(c, n)
    ensures r.1 == y
    ensures SignedFits(r.0, n) && SignedFits(r.2, n)
  {
    var xb := ToBits(x, n);
    var yb := ToBits(y, n);
    var c0 := ToBits(c, n)[0];
    SignedRoundTrip(y, n);
    (ToSigned(SumBits(xb, yb, c0)), ToSigned(yb), ToSigned(CarryBits(xb, yb, c0)))
  }

  /** Bit 0 of the vector is the parity of v. */
  lemma LowBit(v: int, n: nat)
    requires n >= 1
    ensures ToBits(v, n)[0] == (v % 2 == 1)
  {
    assert Pow2(0) == 1;
  }

  /** The new x is x + y wrapped to n bits, corrected by 2 - 4 * x0 * y0
      when bit 0 of the carry register is set. */
  lemma ShiftAddSums(x: int, y: int, c: int, n: nat)
    requires SignedFits(x, n) && SignedFits(y, n) && SignedFits(c, n)
    ensures ShiftAddSpec(x, y, c, n).0
            == WrapSigned(x + y + (if c % 2 == 1 then 2 - 4 * (x % 2) * (y % 2) else 0), n)
  {
    var xb := ToBits(x, n);
    var yb := ToBits(y, n);
    var c0 := ToBits(c, n)[0];
    LowBit(x, n);
    LowBit(y, n);
    LowBit(c, n);
    var dev := 2 * (B(CarryAt(xb, yb, c0, 0)) - B(xb[0] && yb[0]));
    assert dev == (if c % 2 == 1 then 2 - 4 * (x % 2) * (y % 2) else 0);
    SignedRoundTrip(x, n);
    SignedRoundTrip(y, n);
    SignedSum(xb, yb, c0);
  }

  /** With bit 0 of c clear the adder adds: the new x is x + y in n-bit
      two's complement. */
  lemma ShiftAddWithClearCarry(x: int, y: int, c: int, n: nat)
    requires SignedFits(x, n) && SignedFits(y, n) && SignedFits(c, n) && c % 2 == 0
    ensures ShiftAddSpec(x, y, c, n).0 == WrapSigned(x + y, n)
  {
    ShiftAddSums(x, y, c, n);
  }

  /** All three outputs ignore the carry register's bits above bit 0. */
  lemma ShiftAddReadsCarryBitZero(x: int, y: int, c: int, c': int, n: nat)
    requires SignedFits(x, n) && SignedFits(y, n) && SignedFits(c, n) && SignedFits(c', n)
    requires c % 2 == c' % 2
    ensures ShiftAddSpec(x, y, c, n) == ShiftAddSpec(x, y, c', n)
  {
    assert Pow2(0) == 1;
    assert ToBits(c, n)[0] == ToBits(c', n)[0];
  }

  /** The bit loop of `shiftAdd`: bit 0 first, then one full adder per bit,
      the carry taken before x's bit is overwritten. */
  method RippleLoop(x: seq<bool>, y: seq<bool>, c: seq<bool>) returns (xb: seq<bool>, cb: seq<bool>)
    requires 1 <= |x| == |y| == |c|
    ensures xb == SumBits(x, y, c[0])
    ensures cb == CarryBits(x, y, c[0])
  {
    var n := |x|;
    cb := c[0 := c[0] != (x[0] && y[0])];
    xb := x[0 := x[0] != y[0]];
    var i := 1;
    while i < n
      invariant 1 <= i <= n
      invariant |xb| == n && |cb| == n
      invariant forall j :: 0 <= j < i ==> xb[j] == SumAt(x, y, c[0], j)
      invariant forall j :: 0 <= j < i ==> cb[j] == CarryAt(x, y, c[0], j)
      invariant forall j :: i <= j < n ==> xb[j] == x[j]
    {
      cb := cb[i := Maj(cb[i - 1], y[i], xb[i])];
      xb := xb[i := (xb[i] != y[i]) != cb[i - 1]];
      i := i + 1;
    }
  }

  /** `shiftAdd`: write the three integers as n-bit vectors, run the bit
      loop, read the vectors back signed. The shift is not used. */
  method ShiftAdd(x: int, y: int, c: int, shift: int, n: nat) returns (xOut: int, yOut: int, cOut: int)
    requires SignedFits(x, n) && SignedFits(y, n) && SignedFits(c, n)
    ensures (xOut, yOut, cOut) == ShiftAddSpec(x, y, c, n)
    ensures yOut == y
    ensures c % 2 == 0 ==> xOut == WrapSigned(x + y, n)
  {
    var yb := ToBits(y, n);
    var xb, cb := RippleLoop(ToBits(x, n), yb, ToBits(c, n));
    SignedRoundTrip(y, n);
    if c % 2 == 0 {
      ShiftAddWithClearCarry(x, y, c, n);
    }
    xOut, yOut, cOut := ToSigned(xb), ToSigned(yb), ToSigned(cb);
  }

  /** The value `main` expects for shift 0, as written: the sum is wrapped
      only when it exceeds 2^(n-1), and a negative sum is never wrapped. */
  function MainSignedExpected(x: int, y: int, n: nat): int
    requires n >= 1
  {
    var expected := x + y;
    expected - (if expected > Pow2(n - 1) then Pow2(n) else 0)
  }

  /** On five bits, 8 + 8 and -10 + -10 overflow: the adder returns -16 and
      12, while the expectation says 16 and -20, neither of which a 5-bit
      register holds. */
  lemma MainExpectationMisses()
    ensures ShiftAddSpec(8, 8, 0, 5).0 == -16 != MainSignedExpected(8, 8, 5)
    ensures ShiftAddSpec(-10, -10, 0, 5).0 == 12 != MainSignedExpected(-10, -10, 5)
  {
    assert Pow2(5) == 32 && Pow2(4) == 16;
    ShiftAddWithClearCarry(8, 8, 0, 5);
    ShiftAddWithClearCarry(-10, -10, 0, 5);
    assert WrapSigned(16, 5) == -16;
    assert WrapSigned(-20, 5) == 12;
  }
}
