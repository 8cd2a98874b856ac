/** The ancilla-restoring scaler: multiplies a register by 1 + 2^-m using only
    shifted adds, restores the first ancilla (aux1) exactly and leaves all
    residual error in the second (aux2).

    The Fibonacci-indexed correction ladder is run forwards, aux2 absorbs
    aux1, and the ladder is run backwards; because every rung is a shifted
    add, the backward pass undoes the forward pass for every ladder length.
    The ladder length K = 1 + 2*ceil(log(n/m) / log(1 + sqrt 5)) is a
    floating-point expression in the program and is a parameter `k` here. */
module Scaler {
  import opened Arith
  import opened FixedPoint

  /** The two registers the ladder works on: the scaled value x and aux1. */
  datatype LadderState = LadderState(x: int, aux: int)

  /** The registers of a scaler call: the value and both ancillas. */
  datatype Scaled = Scaled(x: int, aux1: int, aux2: int)

  predicate Canonical(s: LadderState, n: nat) {
    InRange(s.x, n) && InRange(s.aux, n)
  }

  /** Rung i of the ladder: an even rung adds aux into x, an odd rung adds x
      into aux, shifted by m * Fib(i). The forward pass subtracts exactly
      when Fib(i) is odd; the backward pass (`inverse`) uses the opposite
      sign. */
  function Rung(s: LadderState, i: nat, n: nat, m: nat, inverse: bool): (r: LadderState)
    requires n >= 1
    ensures Canonical(r, n)
    ensures i % 2 == 0 ==> r.aux == s.aux % Pow2(n)
    ensures i % 2 == 1 ==> r.x == s.x % Pow2(n)
  {
    var negativeY := (Fib(i) % 2 == 1) != inverse;
    if i % 2 == 0 then
      var (x', aux') := Add(s.x, s.aux, m * Fib(i), n, negativeY);
      LadderState(x', aux')
    else
      var (aux', x') := Add(s.aux, s.x, m * Fib(i), n, negativeY);
      LadderState(x', aux')
  }

  /** A rung followed by the same rung with the opposite sign is the identity
      on canonical registers. */
  lemma RungInverse(s: LadderState, i: nat, n: nat, m: nat, inverse: bool)
    requires n >= 1 && Canonical(s, n)
    ensures Rung(Rung(s, i, n, m, inverse), i, n, m, !inverse) == s
  {
    var negativeY := (Fib(i) % 2 == 1) != inverse;
    ModOfInRange(s.x, Pow2(n));
    ModOfInRange(s.aux, Pow2(n));
    if i % 2 == 0 {
      AddInverse(s.x, s.aux, m * Fib(i), n, negativeY);
    } else {
      AddInverse(s.aux, s.x, m * Fib(i), n, negativeY);
    }
  }

  /** A family of rungs: rung(s, i, inverse) is rung i, forwards or
      backwards. */
  type RungFamily = (LadderState, nat, bool) -> LadderState

  /** Every rung keeps register values in range, and the same rung in the
      other direction undoes it. */
  ghost predicate SelfInverse(rung: RungFamily, n: nat) {
    forall s, i, inverse :: Canonical(s, n) ==>
      && Canonical(rung(s, i, inverse), n)
      && rung(rung(s, i, inverse), i, !inverse) == s
  }

  /** A forward pass over any rung family: rungs 0, 1, ..., k-1 (none when
      k <= 0). */
  function Forward(rung: RungFamily, s: LadderState, k: int): LadderState
    decreases k
  {
    if k <= 0 then s else rung(Forward(rung, s, k - 1), k - 1, false)
  }

  /** The backward pass: rungs k-1, ..., 1, 0, each in the other direction. */
  function Backward(rung: RungFamily, s: LadderState, k: int): LadderState
    decreases k
  {
    if k <= 0 then s else Backward(rung, rung(s, k - 1, true), k - 1)
  }

  /** For self-inverse rungs the backward pass undoes the forward pass, for
      every ladder length. */
  lemma {:induction false} AnyLadderBackwardUndoesForward(rung: RungFamily, s: LadderState, k: int, n: nat)
    requires SelfInverse(rung, n) && Canonical(s, n)
    ensures Canonical(Forward(rung, s, k), n)
    ensures Backward(rung, Forward(rung, s, k), k) == s
    decreases k
  {
    if k > 0 {
      AnyLadderBackwardUndoesForward(rung, s, k - 1, n);
    }
  }

  /** ... and the forward pass undoes the backward pass. */
  lemma {:induction false} AnyLadderForwardUndoesBackward(rung: RungFamily, s: LadderState, k: int, n: nat)
    requires SelfInverse(rung, n) && Canonical(s, n)
    ensures Canonical(Backward(rung, s, k), n)
    ensures Forward(rung, Backward(rung, s, k), k) == s
    decreases k
  {
    if k > 0 {
      AnyLadderForwardUndoesBackward(rung, rung(s, k - 1, true), k - 1, n);
    }
  }

  /** The scaler's rungs on n-bit registers with shift unit m. */
  function RungOf(n: nat, m: nat): RungFamily
    requires n >= 1
  {
    (s: LadderState, i: nat, inverse: bool) => Rung(s, i, n, m, inverse)
  }

  lemma RungsSelfInverse(n: nat, m: nat)
    requires n >= 1
    ensures SelfInverse(RungOf(n, m), n)
  {
    forall s: LadderState, i: nat, inverse: bool | Canonical(s, n)
      ensures RungOf(n, m)(RungOf(n, m)(s, i, inverse), i, !inverse) == s
    {
      RungInverse(s, i, n, m, inverse);
    }
  }

  /** The scaler's forward ladder. */
  function LadderForward(s: LadderState, k: int, n: nat, m: nat): LadderState
    requires n >= 1
  {
    Forward(RungOf(n, m), s, k)
  }

  /** The scaler's backward ladder, with the opposite signs. */
  function LadderBackward(s: LadderState, k: int, n: nat, m: nat): LadderState
    requires n >= 1
  {
    Backward(RungOf(n, m), s, k)
  }

  /** The backward ladder undoes the forward ladder, for every ladder
      length. */
  lemma BackwardUndoesForward(s: LadderState, k: int, n: nat, m: nat)
    requires n >= 1 && Canonical(s, n)
    ensures Canonical(LadderForward(s, k, n, m), n)
    ensures LadderBackward(LadderForward(s, k, n, m), k, n, m) == s
  {
    RungsSelfInverse(n, m);
    AnyLadderBackwardUndoesForward(RungOf(n, m), s, k, n);
  }

  /** The forward ladder undoes the backward ladder, for every ladder
      length. */
  lemma ForwardUndoesBackward(s: LadderState, k: int, n: nat, m: nat)
    requires n >= 1 && Canonical(s, n)
    ensures Canonical(LadderBackward(s, k, n, m), n)
    ensures LadderForward(LadderBackward(s, k, n, m), k, n, m) == s
  {
    RungsSelfInverse(n, m);
    AnyLadderForwardUndoesBackward(RungOf(n, m), s, k, n);
  }

  /** `aux_1 += x`: copies x into aux1 before a pass over the ladder. */
  function Seed(x: int, aux1: int, n: nat): (r: LadderState)
    requires n >= 1
    ensures Canonical(r, n)
    ensures r.x == x % Pow2(n) && r.aux == (aux1 + x) % Pow2(n)
  {
    var (aux1', x') := Add(aux1, x, 0, n, false);
    AddUnshifted(aux1, x, n, false);
    LadderState(x', aux1')
  }

  /** `aux_1 -= x`: removes the copy of x from aux1 after a pass. */
  function Unseed(s: LadderState, n: nat): (r: LadderState)
    requires n >= 1
    ensures Canonical(r, n)
    ensures r.x == s.x % Pow2(n) && r.aux == (s.aux - s.x) % Pow2(n)
  {
    var (aux1', x') := Add(s.aux, s.x, 0, n, true);
    AddUnshifted(s.aux, s.x, n, true);
    LadderState(x', aux1')
  }

  /** Seeding and unseeding are mutually inverse on register values. */
  lemma SeedUnseedInverse(x: int, aux1: int, s: LadderState, n: nat)
    requires n >= 1 && Canonical(s, n)
    ensures Unseed(Seed(x, aux1, n), n) == LadderState(x % Pow2(n), aux1 % Pow2(n))
    ensures Seed(Unseed(s, n).x, Unseed(s, n).aux, n) == s
  {
    UnseedAfterSeed(x, aux1, n);
    SeedAfterUnseed(s, n);
  }

  lemma UnseedAfterSeed(x: int, aux1: int, n: nat)
    requires n >= 1
    ensures Unseed(Seed(x, aux1, n), n) == LadderState(x % Pow2(n), aux1 % Pow2(n))
  {
    var N := Pow2(n);
    ModIdempotent(x, N);
    ModSubLeft(aux1 + x, x % N, N);
    ModSubRight(aux1 + x, x, N);
    assert aux1 + x - x == aux1;
  }

  lemma SeedAfterUnseed(s: LadderState, n: nat)
    requires n >= 1 && Canonical(s, n)
    ensures Seed(Unseed(s, n).x, Unseed(s, n).aux, n) == s
  {
    var N := Pow2(n);
    var u := Unseed(s, n);
    ModOfInRange(s.x, N);
    assert u.x == s.x && u.aux == (s.aux - s.x) % N;
    ReducedCancel(s.aux, s.x, N);
    assert Seed(u.x, u.aux, n).aux == (u.aux + u.x) % N;
  }

  /** Removing and restoring b gives back a register value a. */
  lemma ReducedCancel(a: int, b: int, N: int)
    requires 0 <= a < N
    ensures ((a - b) % N + b) % N == a
  {
    AddCancel(a, b, N);
    ModOfInRange(a, N);
  }

  /** Lines shared by both seeded scalers: the forward ladder, `aux_2 -=
      aux_1`, the backward ladder and the unseed of aux1. */
  function Correct(seeded: LadderState, aux2: int, n: nat, m: nat, k: int): (r: Scaled)
    requires n >= 1
    ensures InRange(r.x, n) && InRange(r.aux1, n) && InRange(r.aux2, n)
  {
    var fwd := LadderForward(seeded, k, n, m);
    var (aux2', aux1') := Add(aux2, fwd.aux, 0, n, true);
    var bwd := LadderBackward(LadderState(fwd.x, aux1'), k, n, m);
    var done := Unseed(bwd, n);
    Scaled(done.x, done.aux, aux2')
  }

  /** Multiplication by 1 + 2^-m of FullPrototypeClassical: `aux_2 += x`,
      then an UNREDUCED `x += bitshift(aux_2, m, n)` that the following seed
      reduces, then the ladder. */
  function Mult(x: int, aux1: int, aux2: int, n: nat, m: nat, k: int): (r: Scaled)
    requires n >= 1 && m >= 1
    ensures InRange(r.x, n) && InRange(r.aux1, n) && InRange(r.aux2, n)
  {
    var (aux2', x1) := Add(aux2, x, 0, n, false);
    var xWide := x1 + BitShift(aux2', m, n);
    Correct(Seed(xWide, aux1, n), aux2', n, m, k)
  }

  /** The same scaler from multSimplified, whose second line is the reduced
      shifted add `x, aux_2 = add(x, aux_2, m, n)`. */
  function OriginalMult(x: int, aux1: int, aux2: int, n: nat, m: nat, k: int): (r: Scaled)
    requires n >= 1 && m >= 1
    ensures InRange(r.x, n) && InRange(r.aux1, n) && InRange(r.aux2, n)
  {
    var (aux2', x0) := Add(aux2, x, 0, n, false);
    var (x1, aux2'') := Add(x0, aux2', m, n, false);
    Correct(Seed(x1, aux1, n), aux2'', n, m, k)
  }

  /** What the shared tail does with seeded registers: x and aux1 come back
      exactly as seeded (minus the seed), and aux2 loses the value aux1 had
      after the forward pass. */
  lemma {:induction false} CorrectResult(seeded: LadderState, aux1: int, aux2: int, n: nat, m: nat, k: int)
    requires n >= 1 && Canonical(seeded, n)
    requires seeded.aux == (aux1 + seeded.x) % Pow2(n)
    ensures Correct(seeded, aux2, n, m, k).x == seeded.x
    ensures Correct(seeded, aux2, n, m, k).aux1 == aux1 % Pow2(n)
    ensures Correct(seeded, aux2, n, m, k).aux2
            == (aux2 - LadderForward(seeded, k, n, m).aux) % Pow2(n)
  {
    var N := Pow2(n);
    var fwd := LadderForward(seeded, k, n, m);
    BackwardRestoresSeed(seeded, aux2, n, m, k);
    ModOfInRange(seeded.x, N);
    ModSubLeft(aux1 + seeded.x, seeded.x, N);
    assert aux1 + seeded.x - seeded.x == aux1;
    AddUnshifted(aux2, fwd.aux, n, true);
  }

  /** `aux_2 -= aux_1` leaves aux1 alone, so the backward ladder sees the
      forward ladder's output and returns the seeded registers. */
  lemma BackwardRestoresSeed(seeded: LadderState, aux2: int, n: nat, m: nat, k: int)
    requires n >= 1 && Canonical(seeded, n)
    ensures var fwd := LadderForward(seeded, k, n, m);
            LadderBackward(LadderState(fwd.x, Add(aux2, fwd.aux, 0, n, true).1), k, n, m) == seeded
  {
    var fwd := LadderForward(seeded, k, n, m);
    BackwardUndoesForward(seeded, k, n, m);
    ModOfInRange(fwd.aux, Pow2(n));
    assert LadderState(fwd.x, Add(aux2, fwd.aux, 0, n, true).1) == fwd;
  }

  /** The seeds of both scalers agree: x + bitshift(aux_2, m, n) reduced. */
  lemma {:induction false} SeedsAgree(x: int, aux1: int, aux2: int, n: nat, m: nat)
    requires n >= 1 && m >= 1
    ensures var (aux2', x1) := Add(aux2, x, 0, n, false);
            var (x2, aux2'') := Add(x1, aux2', m, n, false);
            && aux2'' == aux2'
            && aux2' == (aux2 + x) % Pow2(n)
            && Seed(x1 + BitShift(aux2', m, n), aux1, n) == Seed(x2, aux1, n)
            && x2 == (x + BitShift((aux2 + x) % Pow2(n), m, n)) % Pow2(n)
  {
    var N := Pow2(n);
    var (aux2', x1) := Add(aux2, x, 0, n, false);
    var (x2, aux2'') := Add(x1, aux2', m, n, false);
    ModOfInRange(aux2', N);
    ModOfInRange(x1, N);
    AddUnshifted(aux2, x, n, false);
    AddFirst(x1, aux2', m, n, false);
    ModAddLeft(x, BitShift(aux2', m, n), N);
    ModIdempotent(x1 + BitShift(aux2', m, n), N);
  }

  /** The two revisions of the seeded scaler compute the same registers on
      every input. */
  lemma OriginalMultIsMult(x: int, aux1: int, aux2: int, n: nat, m: nat, k: int)
    requires n >= 1 && m >= 1
    ensures OriginalMult(x, aux1, aux2, n, m, k) == Mult(x, aux1, aux2, n, m, k)
  {
    SeedsAgree(x, aux1, aux2, n, m);
  }

  /** The scaler hands aux1 back exactly (reduced), for every ladder length. */
  lemma MultRestoresAux1(x: int, aux1: int, aux2: int, n: nat, m: nat, k: int)
    requires n >= 1 && m >= 1
    ensures Mult(x, aux1, aux2, n, m, k).aux1 == aux1 % Pow2(n)
  {
    MultResult(x, aux1, aux2, n, m, k);
  }

  /** x ends as x + bitshift(aux_2 + x, m): multiplication by 1 + 2^-m when
      aux2 is clean. */
  lemma MultScales(x: int, aux1: int, aux2: int, n: nat, m: nat, k: int)
    requires n >= 1 && m >= 1
    ensures Mult(x, aux1, aux2, n, m, k).x
            == (x + BitShift((aux2 + x) % Pow2(n), m, n)) % Pow2(n)
  {
    MultResult(x, aux1, aux2, n, m, k);
  }

  /** aux2 is the only register left altered: it keeps x minus the value
      aux1 held after the forward pass. */
  lemma MultDirtiesOnlyAux2(x: int, aux1: int, aux2: int, n: nat, m: nat, k: int)
    requires n >= 1 && m >= 1
    ensures var r := Mult(x, aux1, aux2, n, m, k);
            r.aux2 == (aux2 + x - LadderForward(Seed(r.x, aux1, n), k, n, m).aux) % Pow2(n)
  {
    MultResult(x, aux1, aux2, n, m, k);
  }

  lemma {:induction false} MultResult(x: int, aux1: int, aux2: int, n: nat, m: nat, k: int)
    requires n >= 1 && m >= 1
    ensures var r := Mult(x, aux1, aux2, n, m, k);
            && r.x == (x + BitShift((aux2 + x) % Pow2(n), m, n)) % Pow2(n)
            && r.aux1 == aux1 % Pow2(n)
            && r.aux2 == (aux2 + x - LadderForward(Seed(r.x, aux1, n), k, n, m).aux) % Pow2(n)
  {
    var N := Pow2(n);
    SeedsAgree(x, aux1, aux2, n, m);
    var (aux2', x1) := Add(aux2, x, 0, n, false);
    var seeded := Seed(x1 + BitShift(aux2', m, n), aux1, n);
    CorrectResult(seeded, aux1, aux2', n, m, k);
    ModOfInRange(seeded.x, N);
    assert Seed(seeded.x, aux1, n) == seeded;
    ModSubLeft(aux2 + x, LadderForward(seeded, k, n, m).aux, N);
  }

  /** With a clean aux2 the scaler adds floor(x / 2^m) to x, reading x as a
      signed n-bit number: multiplication by 1 + 2^-m, rounded down. */
  lemma MultScalesSigned(x: int, aux1: int, aux2: int, n: nat, m: nat, k: int)
    requires n >= 1 && m >= 1 && InRange(x, n) && aux2 == 0
    ensures Mult(x, aux1, aux2, n, m, k).x == (x + Signed(x, n) / Pow2(m)) % Pow2(n)
  {
    MultScales(x, aux1, aux2, n, m, k);
    CleanAux2Scaling(Mult(x, aux1, aux2, n, m, k).x, x, n, m);
  }

  lemma CleanAux2Scaling(v: int, x: int, n: nat, m: nat)
    requires n >= 1 && InRange(x, n)
    requires v == (x + BitShift((0 + x) % Pow2(n), m, n)) % Pow2(n)
    ensures v == (x + Signed(x, n) / Pow2(m)) % Pow2(n)
  {
    ModOfInRange(x, Pow2(n));
    SelfShiftedSum(x, n, m);
  }

  lemma SelfShiftedSum(x: int, n: nat, m: nat)
    requires n >= 1 && InRange(x, n)
    ensures (x + BitShift(x, m, n)) % Pow2(n) == (x + Signed(x, n) / Pow2(m)) % Pow2(n)
  {
    ModOfInRange(x, Pow2(n));
    AddFirst(x, x, m, n, false);
    AddAddsSignedShift(x, x, m, n, false);
  }

  /** multSimplified's seeded scaler hands aux1 back exactly and scales x
      as the prototype does, for every ladder length. */
  lemma OriginalMultResult(x: int, aux1: int, aux2: int, n: nat, m: nat, k: int)
    requires n >= 1 && m >= 1
    ensures var r := OriginalMult(x, aux1, aux2, n, m, k);
            && r.aux1 == aux1 % Pow2(n)
            && r.x == (x + BitShift((aux2 + x) % Pow2(n), m, n)) % Pow2(n)
  {
    OriginalMultIsMult(x, aux1, aux2, n, m, k);
    MultResult(x, aux1, aux2, n, m, k);
  }

  /** The two-register scaler of multSimplified: seed, backward ladder,
      unseed. */
  function SimplifiedMult(x: int, aux1: int, n: nat, m: nat, k: int): (r: LadderState)
    requires n >= 1
    ensures Canonical(r, n)
  {
    Unseed(LadderBackward(Seed(x, aux1, n), k, n, m), n)
  }

  /** Seed, forward ladder, unseed: the inverse of the simplified scaler. */
  function SimplifiedMultInverse(x: int, aux1: int, n: nat, m: nat, k: int): (r: LadderState)
    requires n >= 1
    ensures Canonical(r, n)
  {
    Unseed(LadderForward(Seed(x, aux1, n), k, n, m), n)
  }

  /** The simplified scaler is a bijection on pairs of register values: its
      inverse undoes it and it undoes its inverse. */
  lemma {:induction false} SimplifiedMultInvertible(x: int, aux1: int, n: nat, m: nat, k: int)
    requires n >= 1
    ensures var r := SimplifiedMult(x, aux1, n, m, k);
            SimplifiedMultInverse(r.x, r.aux, n, m, k) == LadderState(x % Pow2(n), aux1 % Pow2(n))
    ensures var r := SimplifiedMultInverse(x, aux1, n, m, k);
            SimplifiedMult(r.x, r.aux, n, m, k) == LadderState(x % Pow2(n), aux1 % Pow2(n))
  {
    var s := Seed(x, aux1, n);
    var b := LadderBackward(s, k, n, m);
    ForwardUndoesBackward(s, k, n, m);
    SeedUnseedInverse(x, aux1, b, n);
    var f := LadderForward(s, k, n, m);
    BackwardUndoesForward(s, k, n, m);
    SeedUnseedInverse(x, aux1, f, n);
  }

  /** The simplified scaler is the tail of the seeded one: after the forward
      pass, OriginalMult runs exactly the simplified scaler's backward ladder
      and unseed, with the same targets, shifts and signs. */
  lemma {:induction false} OriginalMultEndsWithSimplified(x: int, aux1: int, aux2: int, n: nat, m: nat, k: int)
    requires n >= 1 && m >= 1
    ensures var r := OriginalMult(x, aux1, aux2, n, m, k);
            var f := LadderForward(Seed(r.x, aux1, n), k, n, m);
            SimplifiedMult(f.x, (f.aux - f.x) % Pow2(n), n, m, k) == LadderState(r.x, r.aux1)
  {
    var N := Pow2(n);
    OriginalMultIsMult(x, aux1, aux2, n, m, k);
    MultResult(x, aux1, aux2, n, m, k);
    var r := OriginalMult(x, aux1, aux2, n, m, k);
    var s := Seed(r.x, aux1, n);
    ModOfInRange(r.x, N);
    var f := LadderForward(s, k, n, m);
    BackwardUndoesForward(s, k, n, m);
    SeedUnseedInverse(0, 0, f, n);
    assert Seed(f.x, (f.aux - f.x) % N, n) == f;
    SeedUnseedInverse(r.x, aux1, s, n);
  }
}
