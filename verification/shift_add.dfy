/** The additive-only shifted add that preceded the signed one: both
    registers are reduced modulo 2^n, the logical shift of y and the sign
    fill are added into x one after the other, and x is reduced again. A
    shift wider than the register is an error (a negative shift count), so
    it is excluded. */
module ShiftAdd {
  import opened Arith
  import opened FixedPoint

  /** `add` of ShiftAdd.py with the shift formula written inline. */
  function Add(x: int, y: int, shift: nat, n: nat): (r: (int, int))
    requires n >= 1 && shift <= n
    ensures InRange(r.0, n) && InRange(r.1, n)
    ensures r.1 == y % Pow2(n)
  {
    var N := Pow2(n);
    var x0 := x % N;
    var y0 := y % N;
    var leftBit := Bit(y0, n - 1);
    var x1 := x0 + ShiftRight(y0, shift);
    var x2 := x1 + ShiftLeft(Pow2(shift) - leftBit, n - shift) % N;
    ModIdempotent(y, N);
    (x2 % N, y0 % N)
  }

  /** Within the register width it is the signed shifted add's addition. */
  lemma {:induction false} AgreesWithSignedAdd(x: int, y: int, shift: nat, n: nat)
    requires n >= 1 && shift <= n
    ensures Add(x, y, shift, n) == FixedPoint.Add(x, y, shift, n, false)
  {
    var N := Pow2(n);
    var y0 := y % N;
    ModIdempotent(y, N);
    AddFirst(x, y, shift, n, false);
    assert BitShift(y0, shift, n) == ShiftRight(y0, shift) + SignFill(shift, n, Bit(y0, n - 1));
  }

  /** Without a shift it is addition modulo 2^n. */
  lemma AddByZero(x: int, y: int, n: nat)
    requires n >= 1
    ensures Add(x, y, 0, n).0 == (x + y) % Pow2(n)
  {
    AgreesWithSignedAdd(x, y, 0, n);
    AddFirst(x, y, 0, n, false);
    BitShiftByZero(y % Pow2(n), n);
    ModIdempotent(y, Pow2(n));
    ModAddLeft(x, y % Pow2(n), Pow2(n));
    assert (y % Pow2(n) + x) % Pow2(n) == (y + x) % Pow2(n) by {
      ModAddLeft(y, x, Pow2(n));
    }
  }

  /** For fixed y, shift and n, x |-> first output is one to one on
      register values ... */
  lemma AddInjective(x1: int, x2: int, y: int, shift: nat, n: nat)
    requires n >= 1 && shift <= n && InRange(x1, n) && InRange(x2, n)
    requires Add(x1, y, shift, n).0 == Add(x2, y, shift, n).0
    ensures x1 == x2
  {
    AgreesWithSignedAdd(x1, y, shift, n);
    AgreesWithSignedAdd(x2, y, shift, n);
    AddInverse(x1, y, shift, n, false);
    AddInverse(x2, y, shift, n, false);
    ModOfInRange(x1, Pow2(n));
    ModOfInRange(x2, Pow2(n));
  }

  /** ... and onto: subtracting the shifted y gives the preimage of z. */
  lemma AddSurjective(z: int, y: int, shift: nat, n: nat)
    requires n >= 1 && shift <= n && InRange(z, n)
    ensures var x := FixedPoint.Add(z, y, shift, n, true).0;
            InRange(x, n) && Add(x, y, shift, n).0 == z
  {
    var x := FixedPoint.Add(z, y, shift, n, true).0;
    AgreesWithSignedAdd(x, y, shift, n);
    AddInverse(z, y, shift, n, true);
    ModOfInRange(z, Pow2(n));
  }
}
