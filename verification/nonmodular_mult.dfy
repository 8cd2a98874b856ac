/** The first, non-reversible scaler over unbounded integers: it seeds aux
    with x, adds the shifted sum into x, then walks an alternating series of
    shifted copies of the new x out of aux, and optionally reduces both
    registers modulo 2^n at the end. Python's `>>` on integers is floor
    division by a power of two, which is Dafny's `/` by Pow2. */
module NonModularMult {
  import opened Arith

  /** ceil(n / m) for a positive m, computed exactly. */
  function CeilDiv(n: int, m: int): (r: int)
    requires m >= 1
    ensures (r - 1) * m < n <= r * m
  {
    var q := (-n) / m;
    assert -n == q * m + (-n) % m;
    -q
  }

  /** The loop count `int(ceil(n/m))`, as a range length (none when it is
      not positive). */
  function Iterations(n: int, m: int): nat
    requires m >= 1
  {
    var c := CeilDiv(n, m);
    if c <= 0 then 0 else c
  }

  /** The alternating series x>>(m*i) - x>>(m*(i+1)) + ... with `count`
      terms, starting at term i. */
  function AltSeries(x: int, m: nat, i: nat, count: nat): int
    decreases count
  {
    if count == 0 then 0 else x / Pow2(m * i) - AltSeries(x, m, i + 1, count - 1)
  }

  function Sign(i: nat): int {
    if i % 2 == 0 then 1 else -1
  }

  /** Adding one more term at the end of the series adds it with sign
      (-1)^count, as the loop does. */
  lemma {:induction false} AltSeriesSnoc(x: int, m: nat, i: nat, count: nat)
    ensures AltSeries(x, m, i, count + 1)
            == AltSeries(x, m, i, count) + Sign(count) * (x / Pow2(m * (i + count)))
    decreases count
  {
    if count > 0 {
      AltSeriesSnoc(x, m, i + 1, count - 1);
      assert i + 1 + (count - 1) == i + count;
    }
  }

  /** For a non-negative x the shifted copies shrink, so the alternating
      series lies between 0 and its first term. */
  lemma {:induction false} AltSeriesBounds(x: int, m: nat, i: nat, count: nat)
    requires x >= 0
    ensures 0 <= AltSeries(x, m, i, count) <= x / Pow2(m * i)
    decreases count
  {
    DivAtMost(x, Pow2(m * i));
    if count > 0 {
      AltSeriesBounds(x, m, i + 1, count - 1);
      Pow2Monotone(m * i, m * (i + 1));
      DivAntitone(x, Pow2(m * i), Pow2(m * (i + 1)));
    }
  }

  /** `mult` of Mult.py. Before the optional reduction x has gained
      (aux + x) >> m and aux has gained x less the alternating series of
      the new x; with `modulo` both are then reduced to [0, 2^n). */
  method Mult(x: int, aux: int, n: int, m: int, modulo: bool) returns (newX: int, newAux: int)
    requires m >= 1
    requires modulo ==> n >= 0
    ensures var x1 := x + (aux + x) / Pow2(m);
            var aux1 := aux + x - AltSeries(x1, m, 0, Iterations(n, m));
            if modulo then newX == x1 % Pow2(n) && newAux == aux1 % Pow2(n)
            else newX == x1 && newAux == aux1
    ensures modulo ==> 0 <= newX < Pow2(n) && 0 <= newAux < Pow2(n)
  {
    var a := aux + x;
    var b := x + a / Pow2(m);
    var count := Iterations(n, m);
    var i := 0;
    while i < count
      invariant 0 <= i <= count
      invariant a == aux + x - AltSeries(b, m, 0, i)
    {
      AltSeriesSnoc(b, m, 0, i);
      a := a - Sign(i) * (b / Pow2(m * i));
      i := i + 1;
    }
    if modulo {
      newX, newAux := b % Pow2(n), a % Pow2(n);
    } else {
      newX, newAux := b, a;
    }
  }

  /** With a non-negative updated x, aux is left between aux + x - x' and
      aux + x: the series never removes more than x' nor adds to aux. */
  lemma AuxDrift(x: int, aux: int, n: int, m: int)
    requires m >= 1 && x + (aux + x) / Pow2(m) >= 0
    ensures var x1 := x + (aux + x) / Pow2(m);
            var s := AltSeries(x1, m, 0, Iterations(n, m));
            aux + x - x1 <= aux + x - s <= aux + x
  {
    AltSeriesBounds(x + (aux + x) / Pow2(m), m, 0, Iterations(n, m));
  }

  /** The loop runs ceil(n / m) times: the shifts m*i cover the n bits and
      stop at the first that does. */
  lemma IterationsCoverWidth(n: int, m: int)
    requires m >= 1 && n >= 1
    ensures var c := Iterations(n, m);
            c >= 1 && m * c >= n && m * (c - 1) < n
  {
  }
}
