// Finite sums of real-valued functions over an initial segment of the naturals.
module Sums {

  // f(0) + ... + f(n-1)
  ghost function Sum(n: nat, f: int -> real): real {
    if n == 0 then 0.0 else Sum(n - 1, f) + f(n - 1)
  }

  // Row a and column b of a matrix, and the functions that sum each of them.
  ghost function Row(P: (int, int) -> real, a: int): int -> real { b => P(a, b) }
  ghost function Col(P: (int, int) -> real, b: int): int -> real { a => P(a, b) }
  ghost function Rows(m: nat, P: (int, int) -> real): int -> real { a => Sum(m, Row(P, a)) }
  ghost function Cols(n: nat, P: (int, int) -> real): int -> real { b => Sum(n, Col(P, b)) }

  // The sum of P over the n-by-n square.
  ghost function Sum2(n: nat, P: (int, int) -> real): real {
    Sum(n, Rows(n, P))
  }

  lemma {:induction false} SumExt(n: nat, f: int -> real, g: int -> real)
    requires forall i :: 0 <= i < n ==> f(i) == g(i)
    ensures Sum(n, f) == Sum(n, g)
  {
    if n > 0 {
      SumExt(n - 1, f, g);
    }
  }

  lemma Sum2Ext(n: nat, P: (int, int) -> real, Q: (int, int) -> real)
    requires forall a, b :: 0 <= a < n && 0 <= b < n ==> P(a, b) == Q(a, b)
    ensures Sum2(n, P) == Sum2(n, Q)
  {
    forall a | 0 <= a < n
      ensures Rows(n, P)(a) == Rows(n, Q)(a)
    {
      SumExt(n, Row(P, a), Row(Q, a));
    }
    SumExt(n, Rows(n, P), Rows(n, Q));
  }

  lemma {:induction false} SumMono(n: nat, f: int -> real, g: int -> real)
    requires forall i :: 0 <= i < n ==> f(i) <= g(i)
    ensures Sum(n, f) <= Sum(n, g)
  {
    if n > 0 {
      SumMono(n - 1, f, g);
    }
  }

  lemma {:induction false} SumAdd(n: nat, h: int -> real, f: int -> real, g: int -> real)
    requires forall i :: 0 <= i < n ==> h(i) == f(i) + g(i)
    ensures Sum(n, h) == Sum(n, f) + Sum(n, g)
  {
    if n > 0 {
      SumAdd(n - 1, h, f, g);
    }
  }

  lemma SumSub(n: nat, h: int -> real, f: int -> real, g: int -> real)
    requires forall i :: 0 <= i < n ==> h(i) == f(i) - g(i)
    ensures Sum(n, h) == Sum(n, f) - Sum(n, g)
  {
    SumAdd(n, f, h, g);
  }

  ghost function Ratio(a: real, x: real, m: real): real
    requires m != 0.0
  {
    a * x / m
  }

  lemma {:induction false} SumRatio(n: nat, h: int -> real, f: int -> real, x: real, m: real)
    requires m != 0.0
    requires forall i :: 0 <= i < n ==> h(i) == Ratio(f(i), x, m)
    ensures Sum(n, h) == Ratio(Sum(n, f), x, m)
  {
    hide Ratio;
    RatioLinear(0.0, 0.0, x, m);
    if n > 0 {
      SumRatio(n - 1, h, f, x, m);
      RatioLinear(Sum(n - 1, f), f(n - 1), x, m);
    }
  }

  lemma RatioLinear(a: real, b: real, x: real, m: real)
    requires m != 0.0
    ensures Ratio(a + b, x, m) == Ratio(a, x, m) + Ratio(b, x, m)
    ensures Ratio(0.0, x, m) == 0.0
    ensures Ratio(a, x, m) == Ratio(x, a, m)
  {
    assert (a + b) * x == a * x + b * x;
  }

  lemma {:induction false} SumZero(n: nat, f: int -> real)
    requires forall i :: 0 <= i < n ==> f(i) == 0.0
    ensures Sum(n, f) == 0.0
  {
    if n > 0 {
      SumZero(n - 1, f);
    }
  }

  lemma {:induction false} SumNonNeg(n: nat, f: int -> real)
    requires forall i :: 0 <= i < n ==> f(i) >= 0.0
    ensures Sum(n, f) >= 0.0
    ensures forall i :: 0 <= i < n ==> f(i) <= Sum(n, f)
  {
    if n > 0 {
      SumNonNeg(n - 1, f);
    }
  }

  // A sum with at most one nonzero term.
  lemma {:induction false} SumPoint(n: nat, p: nat, f: int -> real)
    requires p < n
    requires forall i :: 0 <= i < n && i != p ==> f(i) == 0.0
    ensures Sum(n, f) == f(p)
  {
    if p == n - 1 {
      SumZero(n - 1, f);
    } else {
      SumPoint(n - 1, p, f);
    }
  }

  // Two functions that differ at one point only.
  lemma SumUpdate(n: nat, p: nat, f: int -> real, g: int -> real)
    requires p < n
    requires forall i :: 0 <= i < n && i != p ==> f(i) == g(i)
    ensures Sum(n, f) - Sum(n, g) == f(p) - g(p)
  {
    var d := (i: int) => f(i) - g(i);
    SumSub(n, d, f, g);
    SumPoint(n, p, d);
  }

  lemma {:induction false} SumSwap(n: nat, m: nat, P: (int, int) -> real)
    ensures Sum(n, Rows(m, P)) == Sum(m, Cols(n, P))
  {
    if n == 0 {
      SumZero(m, Cols(0, P));
    } else {
      SumSwap(n - 1, m, P);
      SumAdd(m, Cols(n, P), Cols(n - 1, P), Row(P, n - 1));
    }
  }

  // Grouping the terms by a key: every term is counted in the group of its key.
  ghost function Fiber(key: int -> int, f: (int, int) -> real): (int, int) -> real {
    (a, i) => if key(i) == a then f(a, i) else 0.0
  }

  lemma SumFiber(n: nat, groups: nat, key: int -> int, f: (int, int) -> real)
    requires forall i :: 0 <= i < n ==> 0 <= key(i) < groups
    ensures Sum(groups, Rows(n, Fiber(key, f))) == Sum(n, i => f(key(i), i))
  {
    var P := Fiber(key, f);
    SumSwap(groups, n, P);
    forall i | 0 <= i < n
      ensures Cols(groups, P)(i) == f(key(i), i)
    {
      SumPoint(groups, key(i), Col(P, i));
    }
    SumExt(n, Cols(groups, P), i => f(key(i), i));
  }

  // Changing a symmetric matrix in row and column p only, off the diagonal,
  // changes its sum by twice the change of the row.
  lemma SumCross(n: nat, p: nat, P: (int, int) -> real, Q: (int, int) -> real)
    requires p < n
    requires forall a, b :: P(a, b) == P(b, a)
    requires forall a, b :: Q(a, b) == Q(b, a)
    requires forall a, b :: a != p && b != p ==> P(a, b) == Q(a, b)
    requires P(p, p) == Q(p, p)
    ensures Sum2(n, P) - Sum2(n, Q) == 2.0 * (Sum(n, Row(P, p)) - Sum(n, Row(Q, p)))
  {
    var h := (b: int) => P(p, b) - Q(p, b);
    var s := Sum(n, h);
    SumSub(n, h, Row(P, p), Row(Q, p));
    var rows := (a: int) => Rows(n, P)(a) - Rows(n, Q)(a);
    SumSub(n, rows, Rows(n, P), Rows(n, Q));
    forall a | 0 <= a < n && a != p
      ensures rows(a) == h(a)
    {
      SumUpdate(n, p, Row(P, a), Row(Q, a));
      assert P(a, p) == P(p, a) && Q(a, p) == Q(p, a);
    }
    SumUpdate(n, p, rows, h);
  }
}
