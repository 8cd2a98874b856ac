/** The register machine of the reversible double-rotation CORDIC for
    arcsine (qasinModuloCORDIC). With n = nBits + 2, iteration i = 1 .. n-1
    picks a decision bit from the signs of x and of t - y, conditionally
    swaps x and y, applies the micro-rotation by arctan 2^-i twice (shifted
    add, scale by 1 + 2^-2i, shifted add) and scales t by 1 + 2^-2i.

    The floating-point angle is a signed sum of arctan terms chosen by the
    decisions; the model returns the decision sequence and the final
    registers instead. The scaler's ladder length, a floating-point
    expression in n and m, is the parameter `ladder`. */
module Cordic {
  import opened Arith
  import opened FixedPoint
  import opened Scaler

  /** The registers of the engine: rotation coordinates x and y, target t
      and the scaler's ancillas. */
  datatype CordicState = CordicState(x: int, y: int, t: int, aux1: int, aux2: int)

  /** One iteration's decision and the registers after it. */
  datatype Step = Step(decision: bool, state: CordicState)

  /** Decisions of a run of iterations and the registers after them. */
  datatype Trace = Trace(decisions: seq<bool>, state: CordicState)

  predicate RegistersInRange(s: CordicState, n: nat) {
    InRange(s.x, n) && InRange(s.y, n) && InRange(s.t, n)
  }

  /** The corrected decision rule: the sign of x differs from the sign of
      t - y, where y is dropped when x is negative. */
  predicate Decision(s: CordicState, n: nat)
    requires n >= 1
  {
    var negX := IsNeg(s.x, n);
    negX != IsNeg(s.t - (if negX then 0 else s.y), n)
  }

  function Swap(s: CordicState): CordicState {
    CordicState(s.y, s.x, s.t, s.aux1, s.aux2)
  }

  /** One micro-rotation: x -= y >> i, scale y by 1 + 2^-2i, y += x >> i. */
  function MicroRotation(s: CordicState, i: nat, n: nat, k: int): (r: CordicState)
    requires n >= 1 && i >= 1
    ensures InRange(r.x, n) && InRange(r.y, n)
    ensures r.t == s.t && r.aux1 == s.aux1 % Pow2(n)
  {
    var (x1, y1) := Add(s.x, s.y, i, n, true);
    var scaled := Mult(y1, s.aux1, s.aux2, n, 2 * i, k);
    var (y2, x2) := Add(scaled.x, x1, i, n, false);
    MultRestoresAux1(y1, s.aux1, s.aux2, n, 2 * i, k);
    CordicState(x2, y2, s.t, scaled.aux1, scaled.aux2)
  }

  /** Iteration i of the loop. */
  function Iteration(s: CordicState, i: nat, n: nat, ladder: (nat, nat) -> int): (r: Step)
    requires n >= 1 && i >= 1
    ensures RegistersInRange(r.state, n)
    ensures r.state.aux1 == s.aux1 % Pow2(n)
    ensures r.decision == Decision(s, n)
  {
    var k := ladder(n, 2 * i);
    var d := Decision(s, n);
    var swapped := if d then Swap(s) else s;
    var once := MicroRotation(swapped, i, n, k);
    var twice := MicroRotation(once, i, n, k);
    var rotated := if d then Swap(twice) else twice;
    var scaled := Mult(rotated.t, rotated.aux1, rotated.aux2, n, 2 * i, k);
    MultRestoresAux1(rotated.t, rotated.aux1, rotated.aux2, n, 2 * i, k);
    ModIdempotent(s.aux1, Pow2(n));
    Step(d, CordicState(rotated.x, rotated.y, scaled.x, scaled.aux1, scaled.aux2))
  }

  /** The registers before the first iteration: x = 2^nBits - 1, y = 0, the
      unreduced target t and clean ancillas. */
  function InitialState(t: int, nBits: nat): CordicState {
    CordicState(Pow2(nBits) - 1, 0, t, 0, 0)
  }

  /** What every iteration guarantees of the registers, whatever its index:
      aux1 comes back reduced, and x, y and t are register values. */
  ghost predicate IterationKeepsRegisters(step: (CordicState, nat) -> Step, n: nat) {
    forall s, j ::
      && step(s, j).state.aux1 == s.aux1 % Pow2(n)
      && RegistersInRange(step(s, j).state, n)
  }

  /** Every iteration's decision is the rule applied to the registers it
      starts from. */
  ghost predicate IterationDecides(step: (CordicState, nat) -> Step, n: nat)
    requires n >= 1
  {
    forall s, j :: step(s, j).decision == Decision(s, n)
  }

  /** The first `count` passes of the loop: append the pass's decision, then
      continue from the registers it leaves. Pass j (from 0) is `step(_, j)`. */
  function Loop(step: (CordicState, nat) -> Step, start: CordicState, count: nat): (r: Trace)
    ensures |r.decisions| == count
  {
    if count == 0 then Trace([], start)
    else
      var before := Loop(step, start, count - 1);
      var pass := step(before.state, count - 1);
      Trace(before.decisions + [pass.decision], pass.state)
  }

  /** Starting with a clean aux1, aux1 is clean before every pass, and every
      pass leaves x, y and t in register range. */
  lemma {:induction false} LoopInvariant(step: (CordicState, nat) -> Step, start: CordicState, count: nat, n: nat)
    requires IterationKeepsRegisters(step, n) && start.aux1 == 0
    ensures Loop(step, start, count).state.aux1 == 0
    ensures count >= 1 ==> RegistersInRange(Loop(step, start, count).state, n)
  {
    if count > 0 {
      LoopInvariant(step, start, count - 1, n);
      var before := Loop(step, start, count - 1).state;
      assert step(before, count - 1).state.aux1 == before.aux1 % Pow2(n);
      ModOfInRange(0, Pow2(n));
    }
  }

  /** Decision j of the loop is the rule applied to the registers after j
      passes; later passes do not change it. */
  lemma {:induction false} LoopDecisions(step: (CordicState, nat) -> Step, start: CordicState,
                                         j: nat, count: nat, n: nat)
    requires n >= 1 && IterationDecides(step, n) && j < count
    ensures Loop(step, start, count).decisions[j] == Decision(Loop(step, start, j).state, n)
  {
    var before := Loop(step, start, count - 1);
    assert Loop(step, start, count).decisions
           == before.decisions + [step(before.state, count - 1).decision];
    if j < count - 1 {
      LoopDecisions(step, start, j, count - 1, n);
    }
  }

  /** Pass j of qasinModuloCORDIC's loop is Iteration(_, j + 1) on
      nBits + 2 bit registers. */
  function CordicStep(nBits: nat, ladder: (nat, nat) -> int): (CordicState, nat) -> Step {
    (s: CordicState, j: nat) => Iteration(s, j + 1, nBits + 2, ladder)
  }

  lemma CordicStepMeetsContract(nBits: nat, ladder: (nat, nat) -> int)
    ensures IterationKeepsRegisters(CordicStep(nBits, ladder), nBits + 2)
    ensures IterationDecides(CordicStep(nBits, ladder), nBits + 2)
  {
    var step, n := CordicStep(nBits, ladder), nBits + 2;
    forall s: CordicState, j: nat
      ensures step(s, j).state.aux1 == s.aux1 % Pow2(n) && RegistersInRange(step(s, j).state, n)
      ensures step(s, j).decision == Decision(s, n)
    {
      var r := Iteration(s, j + 1, n, ladder);
      assert step(s, j) == r;
    }
  }

  /** The loop of qasinModuloCORDIC without the angle: one decision for each
      iteration i = 1 .. nBits + 1, and the final registers, in which aux1
      is clean and x, y, t are register values. */
  function AsinCordic(t: int, nBits: nat, ladder: (nat, nat) -> int): (r: Trace)
    ensures |r.decisions| == nBits + 1
    ensures r.state.aux1 == 0 && RegistersInRange(r.state, nBits + 2)
  {
    CordicStepMeetsContract(nBits, ladder);
    LoopInvariant(CordicStep(nBits, ladder), InitialState(t, nBits), nBits + 1, nBits + 2);
    Loop(CordicStep(nBits, ladder), InitialState(t, nBits), nBits + 1)
  }

  /** Before iteration j + 1: aux1 is clean, x, y and t are register values
      (once an iteration has run), and decision j is the rule applied to
      those registers. */
  lemma AsinCordicTrace(t: int, nBits: nat, ladder: (nat, nat) -> int, j: nat)
    requires j <= nBits
    ensures var before := Loop(CordicStep(nBits, ladder), InitialState(t, nBits), j).state;
            && before.aux1 == 0
            && (j >= 1 ==> RegistersInRange(before, nBits + 2))
            && AsinCordic(t, nBits, ladder).decisions[j] == Decision(before, nBits + 2)
  {
    CordicStepMeetsContract(nBits, ladder);
    LoopInvariant(CordicStep(nBits, ladder), InitialState(t, nBits), j, nBits + 2);
    LoopDecisions(CordicStep(nBits, ladder), InitialState(t, nBits), j, nBits + 1, nBits + 2);
  }

  /** The first decision, from x = 2^nBits - 1 and y = 0, is set exactly
      when t is negative as an (nBits + 2)-bit number. */
  lemma FirstDecision(t: int, nBits: nat, ladder: (nat, nat) -> int)
    ensures AsinCordic(t, nBits, ladder).decisions[0]
            <==> t % Pow2(nBits + 2) >= Pow2(nBits + 1)
  {
    AsinCordicTrace(t, nBits, ladder, 0);
    var n := nBits + 2;
    var x := Pow2(nBits) - 1;
    Pow2Monotone(nBits, nBits + 1);
    assert InRange(x, n);
    TopBit(x, n);
    IsNegIffUpperHalf(x, n);
    IsNegIffUpperHalf(t - 0, n);
  }
}
