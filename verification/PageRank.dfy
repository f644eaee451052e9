// Weighted PageRank with teleport: the iteration as a map on rank vectors.
module PageRank {
  import opened Sums

  const DAMPING := 0.85

  ghost function Mul(a: real, b: real): real { a * b }

  lemma MulLinear(a: real, b: real, x: real)
    ensures Mul(x, a + b) == Mul(x, a) + Mul(x, b)
    ensures Mul(x, a - b) == Mul(x, a) - Mul(x, b)
    ensures Mul(x, a) == Mul(a, x)
    ensures Mul(x, 0.0) == 0.0 && Mul(x, 1.0) == x
    ensures a >= 0.0 && x >= 0.0 ==> Mul(x, a) >= 0.0
  {
  }

  lemma {:induction false} SumMul(n: nat, h: int -> real, x: real, f: int -> real)
    requires forall i :: 0 <= i < n ==> h(i) == Mul(x, f(i))
    ensures Sum(n, h) == Mul(x, Sum(n, f))
  {
    hide Mul;
    MulLinear(0.0, 0.0, x);
    if n > 0 {
      SumMul(n - 1, h, x, f);
      MulLinear(Sum(n - 1, f), f(n - 1), x);
    }
  }

  ghost function Abs(x: real): real { if x < 0.0 then -x else x }

  // Every row of P is a probability distribution.
  ghost predicate Stochastic(n: nat, P: (int, int) -> real) {
    && (forall i, j :: 0 <= i < n && 0 <= j < n ==> P(i, j) >= 0.0)
    && (forall i :: 0 <= i < n ==> Sum(n, Row(P, i)) == 1.0)
  }

  ghost predicate Distribution(n: nat, t: int -> real) {
    (forall j :: 0 <= j < n ==> t(j) > 0.0) && Sum(n, t) == 1.0
  }

  // The mass that node i passes to node j.
  ghost function Flow(x: int -> real, P: (int, int) -> real): (int, int) -> real {
    (i, j) => Mul(x(i), P(i, j))
  }

  // One iteration: a step of the random surfer who follows a link with
  // probability DAMPING and otherwise jumps by the teleport distribution.
  ghost function Iterate(n: nat, t: int -> real, P: (int, int) -> real, x: int -> real): int -> real {
    j => 0.15 * t(j) + 0.85 * Sum(n, Col(Flow(x, P), j))
  }

  ghost function Gap(x: int -> real, y: int -> real): int -> real { i => Abs(x(i) - y(i)) }

  ghost function L1(n: nat, x: int -> real, y: int -> real): real {
    Sum(n, Gap(x, y))
  }

  ghost predicate Stationary(n: nat, t: int -> real, P: (int, int) -> real, x: int -> real) {
    forall j :: 0 <= j < n ==> Iterate(n, t, P, x)(j) == x(j)
  }

  // All flow out of the nodes is the mass of the nodes.
  lemma FlowMass(n: nat, P: (int, int) -> real, x: int -> real)
    requires Stochastic(n, P)
    ensures Sum(n, Cols(n, Flow(x, P))) == Sum(n, x)
  {
    hide Mul;
    SumSwap(n, n, Flow(x, P));
    forall i | 0 <= i < n
      ensures Rows(n, Flow(x, P))(i) == x(i)
    {
      SumMul(n, Row(Flow(x, P), i), x(i), Row(P, i));
      MulLinear(0.0, 0.0, x(i));
    }
    SumExt(n, Rows(n, Flow(x, P)), x);
  }

  // One iteration keeps the ranks positive and summing to 1.
  lemma IterateKeepsMass(n: nat, t: int -> real, P: (int, int) -> real, x: int -> real)
    requires Stochastic(n, P) && Distribution(n, t) && Distribution(n, x)
    ensures Distribution(n, Iterate(n, t, P, x))
  {
    hide Mul;
    FlowMass(n, P, x);
    Affine(n, Iterate(n, t, P, x), 1.0 - DAMPING, t, DAMPING, Cols(n, Flow(x, P)));
    forall j | 0 <= j < n
      ensures Iterate(n, t, P, x)(j) > 0.0
    {
      forall i | 0 <= i < n
        ensures Col(Flow(x, P), j)(i) >= 0.0
      {
        MulLinear(P(i, j), 0.0, x(i));
      }
      SumNonNeg(n, Col(Flow(x, P), j));
    }
  }

  lemma {:induction false} Affine(n: nat, h: int -> real, a: real, f: int -> real, b: real, g: int -> real)
    requires forall i :: 0 <= i < n ==> h(i) == a * f(i) + b * g(i)
    ensures Sum(n, h) == a * Sum(n, f) + b * Sum(n, g)
  {
    if n > 0 {
      Affine(n - 1, h, a, f, b, g);
      Distribute(a, Sum(n - 1, f), f(n - 1));
      Distribute(b, Sum(n - 1, g), g(n - 1));
    }
  }

  lemma Distribute(a: real, x: real, y: real)
    ensures a * (x + y) == a * x + a * y
  {
  }

  lemma {:induction false} SumAbs(n: nat, f: int -> real, g: int -> real)
    requires forall i :: 0 <= i < n ==> Abs(f(i)) <= g(i)
    ensures Abs(Sum(n, f)) <= Sum(n, g)
  {
    if n > 0 {
      SumAbs(n - 1, f, g);
    }
  }

  // One iteration shrinks the distance of any two rank vectors.
  lemma IterateContracts(n: nat, t: int -> real, P: (int, int) -> real, x: int -> real, y: int -> real)
    requires Stochastic(n, P)
    ensures L1(n, Iterate(n, t, P, x), Iterate(n, t, P, y)) <= DAMPING * L1(n, x, y)
  {
    hide Mul;
    var x', y' := Iterate(n, t, P, x), Iterate(n, t, P, y);
    var F := Flow(Gap(x, y), P);
    var bound := (j: int) => DAMPING * Sum(n, Col(F, j));
    forall j | 0 <= j < n
      ensures Abs(x'(j) - y'(j)) <= bound(j)
    {
      ColumnGap(n, P, x, y, j);
    }
    SumMono(n, Gap(x', y'), bound);
    Affine(n, bound, DAMPING, Cols(n, F), 0.0, Cols(n, F));
    FlowMass(n, P, Gap(x, y));
  }

  lemma ColumnGap(n: nat, P: (int, int) -> real, x: int -> real, y: int -> real, j: nat)
    requires Stochastic(n, P) && j < n
    ensures Abs(Sum(n, Col(Flow(x, P), j)) - Sum(n, Col(Flow(y, P), j))) <= Sum(n, Col(Flow(Gap(x, y), P), j))
  {
    hide Mul;
    var d := (i: int) => Flow(x, P)(i, j) - Flow(y, P)(i, j);
    SumSub(n, d, Col(Flow(x, P), j), Col(Flow(y, P), j));
    forall i | 0 <= i < n
      ensures Abs(d(i)) <= Col(Flow(Gap(x, y), P), j)(i)
    {
      MulAbs(x(i), y(i), P(i, j));
    }
    SumAbs(n, d, Col(Flow(Gap(x, y), P), j));
  }

  lemma MulAbs(a: real, b: real, p: real)
    requires p >= 0.0
    ensures Abs(Mul(a, p) - Mul(b, p)) == Mul(Abs(a - b), p)
  {
    assert a * p - b * p == (a - b) * p;
  }

  lemma L1Triangle(n: nat, x: int -> real, y: int -> real, z: int -> real)
    ensures L1(n, x, z) <= L1(n, x, y) + L1(n, y, z)
    ensures L1(n, x, y) == L1(n, y, x) >= 0.0
  {
    var both := (i: int) => Gap(x, y)(i) + Gap(y, z)(i);
    forall i
      ensures Gap(x, y)(i) == Gap(y, x)(i) >= 0.0 && Gap(x, z)(i) <= both(i)
    {
      assert Abs(x(i) - y(i)) == Abs(y(i) - x(i));
      assert Abs(x(i) - z(i)) <= Abs(x(i) - y(i)) + Abs(y(i) - z(i));
    }
    SumNonNeg(n, Gap(x, y));
    SumExt(n, Gap(x, y), Gap(y, x));
    SumAdd(n, both, Gap(x, y), Gap(y, z));
    SumMono(n, Gap(x, z), both);
  }

  // Two rank vectors are never further apart than their masses.
  lemma L1OfDistributions(n: nat, x: int -> real, y: int -> real)
    requires Distribution(n, x) && Distribution(n, y)
    ensures L1(n, x, y) <= 2.0
  {
    SumAdd(n, i => x(i) + y(i), x, y);
    SumMono(n, Gap(x, y), i => x(i) + y(i));
  }

  // A small step means the stationary ranks are near.
  lemma NearStationary(n: nat, t: int -> real, P: (int, int) -> real, x: int -> real, pi: int -> real)
    requires Stochastic(n, P) && Stationary(n, t, P, pi)
    ensures var y := Iterate(n, t, P, x); (1.0 - DAMPING) * L1(n, y, pi) <= DAMPING * L1(n, y, x)
    ensures L1(n, Iterate(n, t, P, x), pi) <= DAMPING * L1(n, x, pi)
  {
    var y := Iterate(n, t, P, x);
    IterateContracts(n, t, P, x, pi);
    SumExt(n, Gap(y, Iterate(n, t, P, pi)), Gap(y, pi));
    L1Triangle(n, x, y, pi);
  }

  // There is at most one stationary rank vector.
  lemma StationaryUnique(n: nat, t: int -> real, P: (int, int) -> real, x: int -> real, y: int -> real)
    requires Stochastic(n, P) && Stationary(n, t, P, x) && Stationary(n, t, P, y)
    ensures forall i :: 0 <= i < n ==> x(i) == y(i)
  {
    NearStationary(n, t, P, x, y);
    SumExt(n, Gap(Iterate(n, t, P, x), y), Gap(x, y));
    SumNonNeg(n, Gap(x, y));
    forall i | 0 <= i < n
      ensures x(i) == y(i)
    {
      assert Gap(x, y)(i) <= L1(n, x, y) <= 0.0;
    }
  }

  ghost function Power(k: nat): real { if k == 0 then 1.0 else DAMPING * Power(k - 1) }

  // The rank vector after k iterations from the teleport distribution.
  ghost function Iterates(n: nat, t: int -> real, P: (int, int) -> real, k: nat): int -> real {
    if k == 0 then t else Iterate(n, t, P, Iterates(n, t, P, k - 1))
  }

  // How much iteration k changes the ranks.
  ghost function Change(n: nat, t: int -> real, P: (int, int) -> real, k: nat): real
    requires k > 0
  {
    L1(n, Iterates(n, t, P, k), Iterates(n, t, P, k - 1))
  }

  lemma IterateExt(n: nat, t: int -> real, P: (int, int) -> real, x: int -> real, y: int -> real)
    requires forall i :: 0 <= i < n ==> x(i) == y(i)
    ensures forall j :: 0 <= j < n ==> Iterate(n, t, P, x)(j) == Iterate(n, t, P, y)(j)
  {
    forall j | 0 <= j < n
      ensures Iterate(n, t, P, x)(j) == Iterate(n, t, P, y)(j)
    {
      SumExt(n, Col(Flow(x, P), j), Col(Flow(y, P), j));
    }
  }

  // Each iteration changes the ranks by at most the damping factor times the
  // change before, so the changes vanish.
  lemma {:induction false} ChangesShrink(n: nat, t: int -> real, P: (int, int) -> real, k: nat)
    requires Stochastic(n, P) && Distribution(n, t)
    ensures Distribution(n, Iterates(n, t, P, k))
    ensures k > 1 ==> Change(n, t, P, k) <= DAMPING * Change(n, t, P, k - 1)
    ensures k > 0 ==> Change(n, t, P, k) <= 2.0 * Power(k - 1)
  {
    hide Stochastic, Distribution, Iterate, L1;
    if k > 0 {
      ChangesShrink(n, t, P, k - 1);
      IterateKeepsMass(n, t, P, Iterates(n, t, P, k - 1));
      if k > 1 {
        IterateContracts(n, t, P, Iterates(n, t, P, k - 1), Iterates(n, t, P, k - 2));
      } else {
        L1OfDistributions(n, Iterates(n, t, P, 1), t);
      }
    }
  }

  // All later iterates stay near one, and nearer the later it is.
  lemma {:induction false} LaterIterates(n: nat, t: int -> real, P: (int, int) -> real, k: nat, m: nat)
    requires Stochastic(n, P) && Distribution(n, t) && k <= m
    ensures L1(n, Iterates(n, t, P, m), Iterates(n, t, P, k)) <= 2.0 * Power(k)
  {
    hide Stochastic, Distribution, Iterate, L1;
    if k == 0 {
      ChangesShrink(n, t, P, m);
      L1OfDistributions(n, Iterates(n, t, P, m), t);
    } else {
      LaterIterates(n, t, P, k - 1, m - 1);
      IterateContracts(n, t, P, Iterates(n, t, P, m - 1), Iterates(n, t, P, k - 1));
    }
  }

  // After a small change they stay as near as that change bounds.
  lemma {:induction false} LaterChanges(n: nat, t: int -> real, P: (int, int) -> real, k: nat, m: nat)
    requires Stochastic(n, P) && 0 < k <= m
    ensures (1.0 - DAMPING) * L1(n, Iterates(n, t, P, m), Iterates(n, t, P, k)) <= DAMPING * Change(n, t, P, k)
    decreases m
  {
    var x, y, z := Iterates(n, t, P, m - 1), Iterates(n, t, P, k), Iterates(n, t, P, k - 1);
    L1Triangle(n, x, y, z);
    hide Stochastic, Iterate, L1;
    if m == k {
      NoGap(n, y);
    } else {
      LaterChanges(n, t, P, k, m - 1);
      IterateContracts(n, t, P, x, z);
    }
  }

  lemma NoGap(n: nat, x: int -> real)
    ensures L1(n, x, x) == 0.0
  {
    var zero := (i: int) => 0.0;
    Affine(n, zero, 0.0, zero, 0.0, zero);
    forall i
      ensures Gap(x, x)(i) == zero(i)
    {
      assert Gap(x, x)(i) == Abs(x(i) - x(i));
    }
    SumExt(n, Gap(x, x), zero);
  }
}
