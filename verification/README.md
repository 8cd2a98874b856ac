# Reversible fixed-point arithmetic and the arcsine CORDIC register machine

This project models the integer core of the QHack 2024 reversible arcsine
prototype in Dafny.

The registers are n-bit two's-complement integers kept in [0, 2^n). Four
operations are built on them:

- `bitshift`: an arithmetic right shift that copies the sign bit.
- `add`: a shifted add, x <- x +/- bitshift(y, s, n) with y left alone.
- `mult`: a scaler that multiplies x by 1 + 2^-m. It uses a Fibonacci-indexed
  ladder of shifted adds, run forwards and then backwards, so that the first
  ancilla comes back exactly.
- `qasinModuloCORDIC`: the double-rotation CORDIC loop, which picks one
  decision bit per iteration, swaps, rotates twice and rescales its target.

The earlier revisions are modelled next to these:

- the non-reversible scaler over unbounded integers (`Mult.py`);
- the additive-only shifted add (`ShiftAdd.py`);
- the standalone shift (`ModuloBitShift.py`);
- the bit-level ripple-carry adder over `BitArray` vectors
  (`ShiftAddFromScratch.py`).

Modules:

- `Arith`: powers of two, Python's `>>`/`<<` on integers as floor division
  and multiplication by 2^k, and the division/modulo facts the proofs use.
  Python's `%` and `//` with a positive divisor are Dafny's Euclidean `%` and
  `/`.
- `FixedPoint`: `Bit` (Python's `&` on a single bit, negative values
  included), `isneg`, the signed reading, `bitshift`, `add` and `fib`. The
  copies of `fib`, `bitshift` and `add` in `multSimplified.py` and
  `ModuloBitShift.py` are the same code as the prototype's (only the
  docstrings and type annotations differ), so one
  definition serves all three files, and every row below about `fib`,
  `bitshift` or `add` of FullPrototypeClassical.py holds for those copies
  too (multSimplified.py:5-65, ModuloBitShift.py:2-15).
- `Scaler`: the ladder, the prototype `mult`, `originalMult`, and the
  two-register simplified `mult`.
- `Cordic`: the register loop of `qasinModuloCORDIC`. It returns the decision
  sequence and the final registers instead of the floating-point angle.
- `NonModularMult`: `mult` of `Mult.py`, as a method with a loop.
- `ShiftAdd`: `add` of `ShiftAdd.py`.
- `RippleAdder`: `shiftAdd` of `ShiftAddFromScratch.py`, over `seq<bool>`
  with the least significant bit at index 0 (bitstring's index -1).

`fib` is computed by rounding Binet's formula. The result is the recurrence
1, 1, 2, 3, 5, 8, ..., so the model uses the recurrence. The docstring lists
1, 1, 3, 5, which is wrong; the code is followed.

The ladder length `int(1 + 2*ceil(log(n/m)/log(1+sqrt 5)))` is a
floating-point expression, so it is a parameter: `k` for the scaler, and
`ladder(n, m)` for the CORDIC. When it is not positive, both ladders are
empty. Every property of the scaler is proved for every ladder length.

## Model

| member | source | states |
|---|---|---|
| Arith.ShiftRightIsDiv | FullPrototypeClassical.py:30 | Python's `v >> k` on any integer is floor division of v by 2^k |
| Arith.ShiftLeftIsMul | FullPrototypeClassical.py:31 | `a << k` is a * 2^k |
| FixedPoint.Bit | FullPrototypeClassical.py:22 | `(v & (1<<k)) >> k` is 0 or 1, also for negative v |
| FixedPoint.BitIsDiv | FullPrototypeClassical.py:22 | that bit is floor(v / 2^k) mod 2 |
| FixedPoint.TopBit | FullPrototypeClassical.py:21-22 | after reduction, leftBit is 1 exactly when the value lies in the upper half [2^(n-1), 2^n) |
| FixedPoint.IsNegIffUpperHalf | FullPrototypeClassical.py:118-127 | `isneg(v, n)` on an unreduced integer holds iff v mod 2^n >= 2^(n-1) |
| FixedPoint.BitShift | FullPrototypeClassical.py:10-33 | the result of `bitshift` is a register value in [0, 2^n) |
| FixedPoint.BitShiftReducesFirst | FullPrototypeClassical.py:21 | the shift depends only on x mod 2^n |
| FixedPoint.BitShiftSaturates | FullPrototypeClassical.py:21-28 | for shift > n the result is 0 when the sign bit is clear, else 2^n - 1 |
| FixedPoint.ShiftFillValue | FullPrototypeClassical.py:31 | the fill term is 0 for a clear sign bit, else 2^n - 2^(n-shift): the top `shift` bits set |
| FixedPoint.BitShiftWithinWidth | ModuloBitShift.py:12-13 | for shift <= n the result is (x mod 2^n) >> shift, plus 2^n - 2^(n-shift) when the sign bit is set |
| FixedPoint.BitShiftByZero | FullPrototypeClassical.py:30-31 | a shift by 0 is the identity on x mod 2^n |
| FixedPoint.BitShiftIsArithmeticShift | FullPrototypeClassical.py:11-13 | read as signed n-bit numbers, the result is floor(signed(x) / 2^shift) for every shift: the sign bit is copied leftwards |
| FixedPoint.BitShiftCopiesSignBit | FullPrototypeClassical.py:13 | the docstring example 1010 >> 1 == 1101, and 0101 >> 1 == 0010 |
| FixedPoint.BitShiftDemo | ModuloBitShift.py:18 | 256 - bitshift(-113, 4, 8) == 8 |
| FixedPoint.Add | FullPrototypeClassical.py:36-58 | both outputs are register values, and the second is y mod 2^n |
| FixedPoint.AddInverse | FullPrototypeClassical.py:41-58 | "should be unitary": adding with the opposite sign restores (x mod 2^n, y mod 2^n) |
| FixedPoint.AddUnshifted | FullPrototypeClassical.py:50-58 | without a shift, `add` is (x +/- y) mod 2^n |
| FixedPoint.AddAddsSignedShift | FullPrototypeClassical.py:40-58 | `add` adds or subtracts floor(signed(y) / 2^shift), modulo 2^n |
| FixedPoint.FibFirstValues | FullPrototypeClassical.py:61-72 | fib gives 1, 1, 2, 3, 5, 8, 13, not the docstring's 1, 1, 3, 5 |
| FixedPoint.FibParity | FullPrototypeClassical.py:101 | the sign rule `fib(i) % 2 == 1` subtracts except when i mod 3 == 2 |
| FixedPoint.FibGrowth | FullPrototypeClassical.py:99-103 | the rung shifts m*fib(i) never decrease, and they at least double every two rungs |
| Scaler.Rung | FullPrototypeClassical.py:100-103 | a rung keeps both registers in range; an even rung leaves aux_1 alone and an odd rung leaves x alone |
| Scaler.RungInverse | FullPrototypeClassical.py:107-111 | a rung followed by the same rung with the negated sign is the identity on register values |
| Scaler.AnyLadderBackwardUndoesForward | FullPrototypeClassical.py:99-111 | for any family of self-inverse rungs, running the rungs k-1 .. 0 with the opposite sign undoes running rungs 0 .. k-1, and the forward run stays in range |
| Scaler.AnyLadderForwardUndoesBackward | FullPrototypeClassical.py:99-111 | for any such family, the forward run undoes the backward run |
| Scaler.RungsSelfInverse | FullPrototypeClassical.py:100-111 | the prototype's rungs, with the sign flipped by the second pass, form a self-inverse family on register values |
| Scaler.BackwardUndoesForward | FullPrototypeClassical.py:99-111 | the backward ladder undoes the forward ladder, for every ladder length |
| Scaler.ForwardUndoesBackward | FullPrototypeClassical.py:99-111 | the forward ladder undoes the backward ladder, for every ladder length |
| Scaler.Seed | FullPrototypeClassical.py:97 | `aux_1 += x` gives aux_1 = (aux_1 + x) mod 2^n and reduces x |
| Scaler.Unseed | FullPrototypeClassical.py:113 | `aux_1 -= x` gives aux_1 = (aux_1 - x) mod 2^n and reduces x |
| Scaler.SeedUnseedInverse | FullPrototypeClassical.py:97-113 | seeding and unseeding are mutually inverse on register values |
| Scaler.UnseedAfterSeed | FullPrototypeClassical.py:97-113 | unseeding after seeding gives back (x mod 2^n, aux_1 mod 2^n) for any integers |
| Scaler.SeedAfterUnseed | FullPrototypeClassical.py:97-113 | seeding after unseeding gives back any pair of register values |
| Scaler.Correct | FullPrototypeClassical.py:99-113 | the ladder, `aux_2 -= aux_1`, the backward ladder and the unseed leave all three registers in range |
| Scaler.BackwardRestoresSeed | FullPrototypeClassical.py:105-111 | `aux_2 -= aux_1` leaves aux_1 alone, so the backward ladder returns the seeded registers |
| Scaler.CorrectResult | FullPrototypeClassical.py:99-113 | after the shared tail, x is as seeded, aux_1 is its value before seeding, and aux_2 has lost aux_1-after-forward-pass |
| Scaler.Mult | FullPrototypeClassical.py:75-115 | `mult` returns three register values |
| Scaler.MultResult | FullPrototypeClassical.py:95-115 | newX, newAux_1 and newAux_2 together, as the next three rows state them |
| Scaler.MultRestoresAux1 | FullPrototypeClassical.py:91-115 | newAux_1 "should equal to init value": it is aux_1 mod 2^n, for every ladder length |
| Scaler.MultScales | FullPrototypeClassical.py:95-97 | newX is (x + bitshift((aux_2 + x) mod 2^n, m, n)) mod 2^n |
| Scaler.MultDirtiesOnlyAux2 | FullPrototypeClassical.py:105 | aux_2 ends as aux_2 + x minus the value aux_1 held after the forward ladder |
| Scaler.SelfShiftedSum | FullPrototypeClassical.py:96 | x + bitshift(x, m, n) is x + floor(signed(x) / 2^m) modulo 2^n |
| Scaler.MultScalesSigned | FullPrototypeClassical.py:79-97 | with a clean aux_2 = 0 and x a register value, newX is x + floor(signed(x) / 2^m) mod 2^n: x times 1 + 2^-m, rounded down in signed arithmetic |
| Scaler.OriginalMult | multSimplified.py:68-108 | `originalMult` returns three register values |
| Scaler.SeedsAgree | multSimplified.py:88-90 | the reduced `add(x, aux_2, m)` leaves aux_2 alone and seeds aux_1 with the same value as the prototype's unreduced `x += bitshift(aux_2, m, n)` |
| Scaler.OriginalMultIsMult | multSimplified.py:88-90 | `originalMult` equals the prototype `mult` on every input |
| Scaler.OriginalMultResult | multSimplified.py:79-106 | `originalMult` restores aux_1 mod 2^n and gives newX = (x + bitshift((aux_2 + x) mod 2^n, m, n)) mod 2^n |
| Scaler.SimplifiedMult | multSimplified.py:111-141 | the simplified `mult` returns two register values |
| Scaler.SimplifiedMultInvertible | multSimplified.py:131-139 | (x, aux_1) to (newX, newAux_1) is a bijection on register pairs: seed, forward ladder and unseed undo it, and it undoes them |
| Scaler.OriginalMultEndsWithSimplified | multSimplified.py:100-137 | the simplified `mult` is exactly `originalMult`'s backward ladder and unseed, with the same targets, shifts and signs |
| Cordic.MicroRotation | FullPrototypeClassical.py:166-171 | one add/scale/add micro-rotation keeps x and y in range and leaves t alone |
| Cordic.Iteration | FullPrototypeClassical.py:157-178 | one iteration keeps x, y and t in range, hands aux_1 back reduced, and records the decision of line 161 |
| Cordic.Loop | FullPrototypeClassical.py:157 | the loop records one decision per pass |
| Cordic.LoopInvariant | FullPrototypeClassical.py:153-178 | starting from aux_1 = 0, aux_1 is 0 before every pass, and x, y and t are register values after each pass |
| Cordic.LoopDecisions | FullPrototypeClassical.py:160-162 | decision j is the rule applied to the registers after j passes |
| Cordic.CordicStepMeetsContract | FullPrototypeClassical.py:157-178 | every pass of the CORDIC loop keeps the registers and decides by the rule |
| Cordic.AsinCordic | FullPrototypeClassical.py:148-180 | `qasinModuloCORDIC` makes nBits + 1 decisions, ends with aux_1 = 0, and leaves x, y and t in range |
| Cordic.AsinCordicTrace | FullPrototypeClassical.py:157-178 | before iteration j + 1, aux_1 is 0, the registers are in range, and decision j is the rule on them |
| Cordic.FirstDecision | FullPrototypeClassical.py:150-161 | the first decision, from x = 2^nBits - 1 and y = 0, is set exactly when t is negative in nBits + 2 bits |
| NonModularMult.CeilDiv | Mult.py:24 | the exact integer ceiling of n / m |
| NonModularMult.IterationsCoverWidth | Mult.py:24 | for n >= 1 the loop runs ceil(n / m) >= 1 times, the fewest with m * count >= n |
| NonModularMult.AltSeriesSnoc | Mult.py:24-27 | each pass adds the next term x' >> m*i with sign (-1)^i to the alternating series |
| NonModularMult.AltSeriesBounds | Mult.py:24-27 | for x' >= 0 the series lies between 0 and its first term |
| NonModularMult.Mult | Mult.py:4-32 | before reduction, newX = x + ((aux + x) >> m) and newAux = aux + x - the series over ceil(n / m) terms; with modulo both are reduced into [0, 2^n), otherwise they come back unreduced |
| NonModularMult.AuxDrift | Mult.py:19-27 | for x' >= 0, aux ends between aux + x - x' and aux + x |
| ShiftAdd.Add | ShiftAdd.py:14-45 | both outputs are register values, and the second is y mod 2^n |
| ShiftAdd.AgreesWithSignedAdd | ShiftAdd.py:42-43 | for shift <= n this `add` equals the prototype's add(x, y, shift, n, False) |
| ShiftAdd.AddByZero | ShiftAdd.py:42-43 | for shift 0 the first output is (x + y) mod 2^n |
| ShiftAdd.AddInjective | ShiftAdd.py:19-45 | for fixed y, shift and n, x to the first output is one-to-one on [0, 2^n) |
| ShiftAdd.AddSurjective | ShiftAdd.py:19-45 | and onto: every register value is the first output for some x in range |
| RippleAdder.Unsigned | ShiftAddFromScratch.py:22-24 | an n-bit vector's unsigned value is below 2^n |
| RippleAdder.UnsignedToBits | ShiftAddFromScratch.py:22-24 | the bits written for v read back as v mod 2^n |
| RippleAdder.ToSigned | ShiftAddFromScratch.py:46 | `BitArray.int` lies in [-2^(n-1), 2^(n-1)) |
| RippleAdder.SignedRoundTrip | ShiftAddFromScratch.py:22-24 | writing a representable v into n bits and reading it back signed gives v |
| RippleAdder.WrapSigned | ShiftAddFromScratch.py:66-68 | the n-bit two's-complement wrap is representable and congruent to v modulo 2^n |
| RippleAdder.WrapSignedUnique | ShiftAddFromScratch.py:66-68 | the wrap is the only representable value congruent to v |
| RippleAdder.SumPrefix | ShiftAddFromScratch.py:31-39 | through bit i the sum bits plus the carry add x and y, plus twice the deviation of bit 0's carry |
| RippleAdder.WholeSum | ShiftAddFromScratch.py:28-39 | over all n bits: sum vector + 2^n * final carry = x + y + 2 * deviation |
| RippleAdder.SignedRelation | ShiftAddFromScratch.py:46 | for vectors s, x, y of one width whose unsigned values satisfy s + 2^n * carry = x + y + d, the signed readings differ from x + y + d by a multiple of 2^n fixed by the four top bits |
| RippleAdder.SignedSumRelation | ShiftAddFromScratch.py:28-46 | applied to the ripple sum: its signed reading is x + y + 2 * deviation plus that multiple of 2^n |
| RippleAdder.SignedSum | ShiftAddFromScratch.py:28-46 | the signed sum vector is x + y + 2 * deviation, wrapped to n bits |
| RippleAdder.RippleLoop | ShiftAddFromScratch.py:28-39 | bit 0 is x0 xor y0 with carry c0 xor (x0 and y0); bit i is x_i xor y_i xor carry_(i-1), with carry_i = maj(carry_(i-1), y_i, x_i) taken before x_i is overwritten |
| RippleAdder.ShiftAddSpec | ShiftAddFromScratch.py:16-46 | y comes back unchanged, and the new x and c are representable in n bits |
| RippleAdder.LowBit | ShiftAddFromScratch.py:28-29 | bit 0 of the written vector is the parity of the value |
| RippleAdder.ShiftAddSums | ShiftAddFromScratch.py:28-46 | the new x is x + y wrapped, corrected by 2 - 4*x0*y0 when bit 0 of c is set |
| RippleAdder.ShiftAddWithClearCarry | ShiftAddFromScratch.py:62-68 | with bit 0 of c clear, the new x is x + y in n-bit two's complement |
| RippleAdder.ShiftAddReadsCarryBitZero | ShiftAddFromScratch.py:33-38 | every output ignores bits 1 .. n-1 of the input c |
| RippleAdder.ShiftAdd | ShiftAddFromScratch.py:16-46 | `shiftAdd` computes the three signed readings above; the shift argument has no effect, y is returned unchanged, and with c even x becomes x + y wrapped |
| RippleAdder.MainExpectationMisses | ShiftAddFromScratch.py:66-68 | on five bits, 8 + 8 and -10 + -10 give -16 and 12, while `signed_expected` says 16 and -20 |

## Left out

- The angle `theta` of `qasinModuloCORDIC` (FullPrototypeClassical.py:175) is a floating-point sum of arctangents. The model returns the decisions that choose its signs.
- Binet's floating-point formula in `fib` is replaced by the integer recurrence it rounds to. In double precision the two agree only up to about index 70, and the formula overflows near index 1470. The ladder reaches index 70 only when n/m is about 10^17, so every index the code can reach lies in the agreeing range. `FibParity`'s "for every i" is a statement about the recurrence.
- The ladder length `int(1+2*ceil(log(n/m)/log(1+sqrt 5)))` is floating point. It is a parameter (`k`, or `ladder(n, m)` in the CORDIC), and every property holds for every value of it.
- The scaler's accuracy, the size of aux_2's drift, and the CORDIC's closeness to arcsine are empirical. Only their exact integer behaviour is stated.
- The simplified `mult` claims in its docstring to restore aux_1. The code does not guarantee this, and no lemma claims it.
- `@cache` on `fib` does not change results.
- `debug` flags, `print`, `binary`/`binaryToStr`, `main`, `testMult`, plotting and random test vectors are left out. The debug branches only print, so they do not change results.
- ClassicalQCORDIC.py is not part of this model. Its decision rule is superseded, its only output is a floating-point angle, and its integer arithmetic is `Mult.py`'s `mult`, which is modelled.
- Scaler.SimplifiedMult: it takes the ladder length as the parameter `k`, so it also returns a value for m = 0, where `n/m` at multSimplified.py:133 raises ZeroDivisionError. For m < 0, the logarithm of a negative number makes `int(...)` raise there too. The model does not reproduce either error. n = 0 raises in the first `add` (multSimplified.py:131) and is a precondition here.
- NonModularMult.Mult: `int(np.ceil(n/m))` is taken as the exact ceiling. Floating-point rounding of n/m for very large n is not modelled.
- FixedPoint.BitShift: n = 0 makes `1<<(n_bits-1)` raise ValueError in Python (FullPrototypeClassical.py:22), and a negative shift or width raises as well. These are preconditions here (`n >= 1`, with `shift` and `n` natural numbers).
- FixedPoint.Add: it reduces modulo `2**n` (FullPrototypeClassical.py:50), which does not raise. For n <= 0 the error comes from the call to `bitshift`, whose `1<<(n_bits-1)` raises ValueError (line 22). A negative shift raises at `x>>shift` (line 30). These are preconditions here (`n >= 1`, with `shift` and `n` natural numbers).
- FixedPoint.IsNeg: n = 0 makes `1<<(n_bits-1)` raise ValueError (FullPrototypeClassical.py:127). It is a precondition here.
- Scaler.Mult: for m < 0, the call `bitshift(aux_2, m, n)` at FullPrototypeClassical.py:96 raises ValueError at its `x>>shift` (line 30), before the ladder is reached. For m = 0, `n/m` raises ZeroDivisionError (line 99). n = 0 raises in `bitshift` (line 22). These are preconditions here (`n >= 1 && m >= 1`, with m a natural number).
- Scaler.OriginalMult: the same `n/m` (multSimplified.py:92) and `bitshift` errors. These are preconditions here.
- Scaler.SimplifiedMult: it takes the ladder length as the parameter `k`, so it also returns a value for m = 0, where `n/m` at multSimplified.py:133 raises ZeroDivisionError. For m < 0, the logarithm of a negative number makes `int(...)` raise there too. The model does not reproduce either error. n = 0 raises in the first `add` (multSimplified.py:131) and is a precondition here.
- NonModularMult.Mult: m < 0 makes `aux>>m` raise (Mult.py:20), and m = 0 makes `n/m` raise ZeroDivisionError (Mult.py:24). With `modulo`, n < 0 makes `1<<n` raise (Mult.py:30). These are preconditions here (`m >= 1`, and `modulo ==> n >= 0`).
- ShiftAdd.Add: a shift wider than the register gives a negative shift count at `<<(n-shift)` (ShiftAdd.py:43), a negative shift raises at `>>shift` (ShiftAdd.py:42), and n = 0 makes `leftBit`'s `1<<(n-1)` raise (ShiftAdd.py:32, :43). All three raise ValueError in Python and are preconditions here (`n >= 1 && shift <= n`, with `shift` a natural number).
- RippleAdder.ShiftAdd: a value outside [-2^(n-1), 2^(n-1)) makes `BitArray(int=..., length=n)` raise. It is a precondition here.
- The comparison in `main` of ShiftAddFromScratch.py computes `int(x_in + y_in/2**shift)` in floating point. It is modelled for shift 0 only, where the value is exact, because that is the shift `main` uses.

## Findings

| source | as written | input that shows it | evidently intended | confidence | as-written member | corrected member |
|---|---|---|---|---|---|---|
| ShiftAddFromScratch.py:66-68 | `signed_expected` subtracts 2^n only when the sum is strictly above 2^(n-1), and never wraps a negative sum | n = 5: 8 + 8 expects 16 but the adder gives -16; -10 + -10 expects -20 but the adder gives 12 | the n-bit two's-complement wrap of x + y, which the adder computes | not executed | RippleAdder.MainExpectationMisses | RippleAdder.ShiftAddWithClearCarry |
