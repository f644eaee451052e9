// Importance of every entity: PageRank over the undirected relation graph,
// scaled to the most central entity and faded by staleness.
module Importance {
  import opened Sums
  import opened Levels
  import opened PageRank
  import opened Sorting
  import opened Types
  import opened Undirected

  const PAGERANK_ITERATIONS := 100
  const PAGERANK_TOLERANCE := 0.000000001

  ghost function At(s: seq<real>): int -> real { i => if 0 <= i < |s| then s[i] else 0.0 }

  // The random surfer's transitions: links by weight, and from a node
  // without links the teleport distribution.
  ghost function Transition(g: Level, t: int -> real): (int, int) -> real {
    (i, j) => if Degree(g, i) == 0.0 then t(j) else A(g, i, j) / Degree(g, i)
  }

  ghost predicate NoSelfLoops(g: Level) {
    forall i :: 0 <= i < |g| ==> A(g, i, i) == 0.0
  }

  lemma TransitionIsStochastic(g: Level, t: int -> real)
    requires ValidLevel(g) && NoSelfLoops(g) && Distribution(|g|, t)
    ensures Stochastic(|g|, Transition(g, t))
  {
    var n, P := |g|, Transition(g, t);
    DegreeNonNeg(g);
    forall i, j | 0 <= i < n && 0 <= j < n
      ensures P(i, j) >= 0.0
    {
      assert ValidRow(n, g[i]);
      ListedNonNeg(g[i], j);
      if Degree(g, i) != 0.0 {
        QuotientNonNeg(A(g, i, j), Degree(g, i));
      }
    }
    forall i | 0 <= i < n
      ensures Sum(n, Row(P, i)) == 1.0
    {
      if Degree(g, i) == 0.0 {
        SumExt(n, Row(P, i), t);
      } else {
        TransitionRow(g, t, i);
      }
    }
  }

  lemma QuotientNonNeg(a: real, s: real)
    requires a >= 0.0 && s > 0.0
    ensures a / s >= 0.0
  {
  }

  lemma TransitionRow(g: Level, t: int -> real, i: nat)
    requires ValidLevel(g) && NoSelfLoops(g) && i < |g| && Degree(g, i) != 0.0
    ensures Sum(|g|, Row(Transition(g, t), i)) == 1.0
  {
    hide Ratio;
    RatioOne(Degree(g, i), Degree(g, i));
    forall j | 0 <= j < |g|
      ensures Row(Transition(g, t), i)(j) == Ratio(Row(B(g), i)(j), 1.0, Degree(g, i))
    {
      RatioOne(A(g, i, j), Degree(g, i));
      assert B(g)(i, j) == A(g, i, j);
    }
    SumRatio(|g|, Row(Transition(g, t), i), Row(B(g), i), 1.0, Degree(g, i));
  }

  lemma RatioOne(a: real, s: real)
    requires s != 0.0
    ensures Ratio(a, 1.0, s) == a / s
    ensures Ratio(s, 1.0, s) == 1.0
  {
    assert s * 1.0 == s && s / s == 1.0;
  }

  function ShareOf(rank: real, strength: real): real {
    if strength == 0.0 then 0.0 else DAMPING * rank / strength
  }

  // What node i adds to node j's next rank along their link.
  ghost function Shares(g: Level, rank: seq<real>): (int, int) -> real {
    (i, j) => Mul(ShareOf(At(rank)(i), Degree(g, i)), A(g, i, j))
  }

  ghost function Dangling(g: Level, rank: seq<real>): int -> real {
    i => if Degree(g, i) == 0.0 then At(rank)(i) else 0.0
  }

  lemma FlowSplit(g: Level, t: int -> real, rank: seq<real>, i: nat, j: nat)
    ensures DAMPING * Flow(At(rank), Transition(g, t))(i, j)
         == DAMPING * Mul(t(j), Dangling(g, rank)(i)) + Shares(g, rank)(i, j)
  {
    var x, s := At(rank)(i), Degree(g, i);
    hide Mul;
    MulLinear(x, 0.0, t(j));
    MulLinear(A(g, i, j), 0.0, 0.0);
    MulLinear(0.0, 0.0, A(g, i, j));
    if s != 0.0 {
      ShareForm(x, A(g, i, j), s);
    }
  }

  lemma ShareForm(x: real, a: real, s: real)
    requires s != 0.0
    ensures DAMPING * Mul(x, a / s) == Mul(DAMPING * x / s, a)
  {
    assert x * (a / s) == (x / s) * a;
  }

  // The code's two sums are one iteration.
  lemma NextIsIterate(g: Level, t: int -> real, rank: seq<real>, j: nat)
    ensures (1.0 - DAMPING + DAMPING * Sum(|g|, Dangling(g, rank))) * t(j) + Sum(|g|, Col(Shares(g, rank), j))
         == Iterate(|g|, t, Transition(g, t), At(rank))(j)
  {
    hide Mul, Shares, Dangling, Transition;
    var n := |g|;
    var F, D := Col(Flow(At(rank), Transition(g, t)), j), Dangling(g, rank);
    var back := (i: int) => Mul(t(j), D(i));
    var scaled := (i: int) => DAMPING * F(i);
    Affine(n, scaled, DAMPING, F, 0.0, F);
    forall i | 0 <= i < n
      ensures scaled(i) == DAMPING * back(i) + 1.0 * Col(Shares(g, rank), j)(i)
    {
      FlowSplit(g, t, rank, i, j);
    }
    Affine(n, scaled, DAMPING, back, 1.0, Col(Shares(g, rank), j));
    SumMul(n, back, t(j), D);
    Expand(Sum(n, D), t(j));
  }

  lemma Expand(d: real, t: real)
    ensures (1.0 - DAMPING + DAMPING * d) * t == (1.0 - DAMPING) * t + DAMPING * Mul(t, d)
  {
  }

  method Strengths(g: Level) returns (strength: seq<real>)
    requires ValidLevel(g) && NoSelfLoops(g)
    ensures |strength| == |g| && forall i :: 0 <= i < |g| ==> strength[i] == Degree(g, i)
  {
    strength := [];
    for i := 0 to |g|
      invariant |strength| == i && forall k :: 0 <= k < i ==> strength[k] == Degree(g, k)
    {
      var sum := 0.0;
      for k := 0 to |g[i]|
        invariant sum == Picked(g[i][..k], Every())
      {
        PickedSnoc(g[i], k, Every());
        sum := sum + g[i][k].w;
      }
      assert g[i][..|g[i]|] == g[i];
      DegreeOfRow(g, i);
      assert A(g, i, i) == Picked(g[i], Only(i));
      strength := strength + [sum];
    }
  }

  method DanglingMass(g: Level, strength: seq<real>, rank: seq<real>) returns (mass: real)
    requires |strength| == |g| == |rank| && forall i :: 0 <= i < |g| ==> strength[i] == Degree(g, i)
    ensures mass == Sum(|g|, Dangling(g, rank))
  {
    mass := 0.0;
    for i := 0 to |g|
      invariant mass == Sum(i, Dangling(g, rank))
    {
      assert At(rank)(i) == rank[i];
      if strength[i] == 0.0 {
        mass := mass + rank[i];
      }
    }
  }

  // What node j has after the jumps, the links of the nodes before i, and
  // the first k links of node i.
  ghost function NextSoFar(g: Level, rank: seq<real>, start: seq<real>, i: nat, k: nat, j: nat): real
    requires |start| == |g| == |rank| && j < |g| && i <= |g| && (i < |g| ==> k <= |g[i]|)
  {
    start[j] + Sum(i, Col(Shares(g, rank), j))
      + if i < |g| then Mul(ShareOf(rank[i], Degree(g, i)), Picked(g[i][..k], Only(j))) else 0.0
  }

  ghost predicate NextIsSoFar(g: Level, rank: seq<real>, start: seq<real>, next: seq<real>, i: nat, k: nat)
    requires |start| == |g| == |rank| && i <= |g| && (i < |g| ==> k <= |g[i]|)
  {
    |next| == |g| && forall j: nat :: j < |g| ==> next[j] == NextSoFar(g, rank, start, i, k, j)
  }

  lemma NextLink(g: Level, rank: seq<real>, start: seq<real>, next: seq<real>, i: nat, k: nat, e: Link, share: real)
    requires |start| == |g| == |rank| && i < |g| && k < |g[i]| && g[i][k] == e && e.to < |g|
    requires share == ShareOf(rank[i], Degree(g, i))
    requires NextIsSoFar(g, rank, start, next, i, k)
    ensures NextIsSoFar(g, rank, start, next[e.to := next[e.to] + share * e.w], i, k + 1)
  {
    hide Mul, ShareOf;
    MulIs(share, e.w);
    forall j: nat | j < |g|
      ensures NextSoFar(g, rank, start, i, k + 1, j)
           == NextSoFar(g, rank, start, i, k, j) + if j == e.to then share * e.w else 0.0
    {
      PickedSnoc(g[i], k, Only(j));
      MulLinear(Picked(g[i][..k], Only(j)), e.w, share);
    }
  }

  lemma MulIs(a: real, b: real)
    ensures Mul(a, b) == a * b
  {
  }

  lemma NextRowDone(g: Level, rank: seq<real>, start: seq<real>, next: seq<real>, i: nat, k: nat)
    requires |start| == |g| == |rank| && i < |g| && k <= |g[i]|
    requires NextIsSoFar(g, rank, start, next, i, k)
    requires k == |g[i]| || Degree(g, i) == 0.0
    ensures NextIsSoFar(g, rank, start, next, i + 1, 0)
  {
    forall j: nat | j < |g|
      ensures NextSoFar(g, rank, start, i + 1, 0, j) == NextSoFar(g, rank, start, i, k, j)
    {
      NextEntryDone(g, rank, start, i, k, j);
    }
  }

  lemma NextEntryDone(g: Level, rank: seq<real>, start: seq<real>, i: nat, k: nat, j: nat)
    requires |start| == |g| == |rank| && i < |g| && k <= |g[i]| && j < |g|
    requires k == |g[i]| || Degree(g, i) == 0.0
    ensures NextSoFar(g, rank, start, i + 1, 0, j) == NextSoFar(g, rank, start, i, k, j)
  {
    hide Mul;
    assert g[i][..|g[i]|] == g[i] && At(rank)(i) == rank[i];
    assert A(g, i, j) == Picked(g[i], Only(j));
    assert Col(Shares(g, rank), j)(i) == Mul(ShareOf(rank[i], Degree(g, i)), A(g, i, j));
    MulLinear(Picked(g[i][..k], Only(j)), 0.0, 0.0);
    MulLinear(A(g, i, j), 0.0, 0.0);
    MulLinear(0.0, 0.0, A(g, i, j));
    MulLinear(0.0, 0.0, Picked(g[i][..k], Only(j)));
    if i + 1 < |g| {
      assert Picked(g[i + 1][..0], Only(j)) == 0.0;
      MulLinear(0.0, 0.0, ShareOf(rank[i + 1], Degree(g, i + 1)));
    }
  }

  method SpreadShare(g: Level, ghost rank: seq<real>, ghost start: seq<real>, next: array<real>, i: nat, share: real)
    requires ValidLevel(g) && |start| == |g| == |rank| && i < |g|
    requires share == ShareOf(rank[i], Degree(g, i))
    requires NextIsSoFar(g, rank, start, next[..], i, 0)
    modifies next
    ensures NextIsSoFar(g, rank, start, next[..], i, |g[i]|)
  {
    hide NextSoFar, Degree, ShareOf;
    assert ValidRow(|g|, g[i]);
    for k := 0 to |g[i]|
      invariant NextIsSoFar(g, rank, start, next[..], i, k)
    {
      var e := g[i][k];
      ghost var was := next[..];
      next[e.to] := next[e.to] + share * e.w;
      assert next[..] == was[e.to := was[e.to] + share * e.w];
      NextLink(g, rank, start, was, i, k, e, share);
    }
  }

  // One PageRank iteration over the adjacency lists.
  method NextRank(g: Level, teleport: seq<real>, strength: seq<real>, rank: seq<real>) returns (result: seq<real>)
    requires ValidLevel(g) && |teleport| == |g| == |rank| == |strength|
    requires forall i :: 0 <= i < |g| ==> strength[i] == Degree(g, i)
    ensures |result| == |g|
    ensures forall j :: 0 <= j < |g| ==>
      result[j] == Iterate(|g|, At(teleport), Transition(g, At(teleport)), At(rank))(j)
  {
    hide NextIsSoFar, Degree, Iterate, ShareOf;
    var n := |g|;
    var dangling := DanglingMass(g, strength, rank);
    var next := new real[n](j requires 0 <= j < n => (1.0 - DAMPING + DAMPING * dangling) * teleport[j]);
    ghost var start := next[..];
    NextStarts(g, rank, start);
    for i := 0 to n
      invariant NextIsSoFar(g, rank, start, next[..], i, 0)
    {
      if strength[i] != 0.0 {
        SpreadShare(g, rank, start, next, i, ShareOf(rank[i], strength[i]));
        NextRowDone(g, rank, start, next[..], i, |g[i]|);
      } else {
        NextRowDone(g, rank, start, next[..], i, 0);
      }
    }
    result := next[..];
    forall j | 0 <= j < n
      ensures result[j] == Iterate(n, At(teleport), Transition(g, At(teleport)), At(rank))(j)
    {
      NextDone(g, rank, start, result);
      NextIsIterate(g, At(teleport), rank, j);
    }
  }

  lemma NextStarts(g: Level, rank: seq<real>, start: seq<real>)
    requires |start| == |g| == |rank|
    ensures NextIsSoFar(g, rank, start, start, 0, 0)
  {
    hide Mul;
    if |g| > 0 {
      MulLinear(0.0, 0.0, ShareOf(rank[0], Degree(g, 0)));
    }
  }

  lemma NextDone(g: Level, rank: seq<real>, start: seq<real>, next: seq<real>)
    requires |start| == |g| == |rank| && NextIsSoFar(g, rank, start, next, |g|, 0)
    ensures |next| == |g| && forall j :: 0 <= j < |g| ==> next[j] == start[j] + Sum(|g|, Col(Shares(g, rank), j))
  {
    forall j: nat | j < |g|
      ensures next[j] == start[j] + Sum(|g|, Col(Shares(g, rank), j))
    {
      assert next[j] == NextSoFar(g, rank, start, |g|, 0, j);
    }
  }

  // The iteration's error bounds: against every stationary ranking, after k steps.
  ghost predicate ErrorBounded(g: Level, t: int -> real, rank: seq<real>, bound: real) {
    forall pi: int -> real ::
      Distribution(|g|, pi) && Stationary(|g|, t, Transition(g, t), pi) ==> L1(|g|, At(rank), pi) <= bound
  }

  // However long the iteration went on after step k, it would stay this near.
  ghost predicate SettledWithin(g: Level, t: int -> real, rank: seq<real>, k: nat, bound: real) {
    forall m: nat :: m >= k ==> L1(|g|, Iterates(|g|, t, Transition(g, t), m), At(rank)) <= bound
  }

  lemma IterateIsSettled(g: Level, t: int -> real, rank: seq<real>, k: nat)
    requires Stochastic(|g|, Transition(g, t)) && Distribution(|g|, t) && IsIterate(g, t, rank, k) && k > 0
    ensures SettledWithin(g, t, rank, k, 2.0 * Power(k))
    ensures SettledWithin(g, t, rank, k, DAMPING * Change(|g|, t, Transition(g, t), k) / (1.0 - DAMPING))
  {
    var n, P := |g|, Transition(g, t);
    hide Stochastic, Distribution, Iterates, Transition;
    forall m: nat | m >= k
      ensures L1(n, Iterates(n, t, P, m), At(rank)) == L1(n, Iterates(n, t, P, m), Iterates(n, t, P, k))
      ensures L1(n, Iterates(n, t, P, m), Iterates(n, t, P, k)) <= 2.0 * Power(k)
      ensures L1(n, Iterates(n, t, P, m), Iterates(n, t, P, k)) <= DAMPING * Change(n, t, P, k) / (1.0 - DAMPING)
    {
      LaterIterates(n, t, P, k, m);
      LaterChanges(n, t, P, k, m);
      SumExt(n, Gap(Iterates(n, t, P, m), At(rank)), Gap(Iterates(n, t, P, m), Iterates(n, t, P, k)));
    }
  }

  lemma SettledMono(g: Level, t: int -> real, rank: seq<real>, k: nat, low: real, high: real)
    requires SettledWithin(g, t, rank, k, low) && low <= high
    ensures SettledWithin(g, t, rank, k, high)
  {
  }

  // The iteration stops after the first small change, or at the limit.
  ghost predicate StopsAt(g: Level, t: int -> real, k: nat) {
    && 0 < k <= 100
    && (forall m :: 0 < m < k ==> Change(|g|, t, Transition(g, t), m) >= 0.000000001)
    && (k == 100 || Change(|g|, t, Transition(g, t), k) < 0.000000001)
  }

  // The ranks after k iterations.
  ghost predicate IsIterate(g: Level, t: int -> real, rank: seq<real>, k: nat) {
    |rank| == |g| && forall j :: 0 <= j < |g| ==> At(rank)(j) == Iterates(|g|, t, Transition(g, t), k)(j)
  }

  lemma NextIterate(g: Level, t: int -> real, rank: seq<real>, next: seq<real>, k: nat)
    requires IsIterate(g, t, rank, k) && |next| == |g|
    requires forall j :: 0 <= j < |g| ==> At(next)(j) == Iterate(|g|, t, Transition(g, t), At(rank))(j)
    ensures IsIterate(g, t, next, k + 1)
    ensures L1(|g|, At(next), At(rank)) == Change(|g|, t, Transition(g, t), k + 1)
  {
    hide Transition, Iterate;
    var n, P := |g|, Transition(g, t);
    IterateExt(n, t, P, At(rank), Iterates(n, t, P, k));
    SameL1(n, At(next), Iterates(n, t, P, k + 1), At(rank));
    SumExt(n, Gap(Iterates(n, t, P, k + 1), At(rank)), Gap(Iterates(n, t, P, k + 1), Iterates(n, t, P, k)));
  }

  lemma BoundStep(g: Level, t: int -> real, rank: seq<real>, next: seq<real>, bound: real, delta: real)
    requires Stochastic(|g|, Transition(g, t)) && ErrorBounded(g, t, rank, bound)
    requires forall j :: 0 <= j < |g| ==> At(next)(j) == Iterate(|g|, t, Transition(g, t), At(rank))(j)
    requires delta == L1(|g|, At(next), At(rank))
    ensures ErrorBounded(g, t, next, DAMPING * bound)
    ensures ErrorBounded(g, t, next, DAMPING * delta / (1.0 - DAMPING))
  {
    var n, P := |g|, Transition(g, t);
    var x, y := At(rank), Iterate(n, t, P, At(rank));
    forall pi: int -> real | Distribution(n, pi) && Stationary(n, t, P, pi)
      ensures L1(n, At(next), pi) <= DAMPING * bound
      ensures L1(n, At(next), pi) <= DAMPING * delta / (1.0 - DAMPING)
    {
      NearStationary(n, t, P, x, pi);
      SameL1(n, At(next), y, pi);
      SameL1(n, At(next), y, x);
      assert L1(n, x, pi) <= bound;
    }
  }

  lemma SameL1(n: nat, x: int -> real, y: int -> real, z: int -> real)
    requires forall j :: 0 <= j < n ==> x(j) == y(j)
    ensures L1(n, x, z) == L1(n, y, z)
  {
    SumExt(n, Gap(x, z), Gap(y, z));
  }

  lemma SameDistribution(n: nat, x: int -> real, y: int -> real)
    requires forall j :: 0 <= j < n ==> x(j) == y(j)
    requires Distribution(n, y)
    ensures Distribution(n, x)
  {
    SumExt(n, x, y);
  }

  method Distance(next: seq<real>, rank: seq<real>) returns (delta: real)
    requires |next| == |rank|
    ensures delta == L1(|rank|, At(next), At(rank))
  {
    delta := 0.0;
    for i := 0 to |rank|
      invariant delta == Sum(i, Gap(At(next), At(rank)))
    {
      assert Gap(At(next), At(rank))(i) == Abs(next[i] - rank[i]);
      delta := delta + if next[i] < rank[i] then rank[i] - next[i] else next[i] - rank[i];
    }
  }

  // The iteration's result. Ranks are positive and sum to 1; after k iterations they are within
  // 2 * DAMPING^k of every stationary ranking, and when the iteration stops
  // early, within the tolerance times DAMPING / (1 - DAMPING).
  method RankNodes(g: Level, teleport: seq<real>) returns (rank: seq<real>, ghost iterations: nat)
    requires ValidLevel(g) && NoSelfLoops(g) && |teleport| == |g| && Distribution(|g|, At(teleport))
    ensures |rank| == |g| && Distribution(|g|, At(rank))
    ensures iterations <= PAGERANK_ITERATIONS
    ensures IsIterate(g, At(teleport), rank, iterations) && StopsAt(g, At(teleport), iterations)
    ensures ErrorBounded(g, At(teleport), rank, 2.0 * Power(iterations))
    ensures SettledWithin(g, At(teleport), rank, iterations, 2.0 * Power(iterations))
    ensures iterations == PAGERANK_ITERATIONS
         || (ErrorBounded(g, At(teleport), rank, DAMPING * PAGERANK_TOLERANCE / (1.0 - DAMPING))
             && SettledWithin(g, At(teleport), rank, iterations, DAMPING * PAGERANK_TOLERANCE / (1.0 - DAMPING)))
  {
    hide Stochastic, Distribution, Iterate, L1, Transition, ErrorBounded, ValidLevel, NoSelfLoops, Change, IsIterate,
      SettledWithin;
    ghost var t, P := At(teleport), Transition(g, At(teleport));
    TransitionIsStochastic(g, t);
    var strength := Strengths(g);
    rank := teleport;
    iterations := 0;
    InitiallyBounded(g, teleport);
    assert IsIterate(g, t, rank, 0) by { FirstIterate(g, teleport); }
    for k := 0 to PAGERANK_ITERATIONS
      invariant |rank| == |g| && Distribution(|g|, At(rank)) && iterations == k
      invariant IsIterate(g, t, rank, k)
      invariant forall m :: 0 < m <= k ==> Change(|g|, t, P, m) >= PAGERANK_TOLERANCE
      invariant ErrorBounded(g, t, rank, 2.0 * Power(k))
      invariant k > 0 ==> SettledWithin(g, t, rank, k, 2.0 * Power(k))
    {
      var next := NextRank(g, teleport, strength, rank);
      var delta := Distance(next, rank);
      NextIterate(g, t, rank, next, k);
      BoundStep(g, t, rank, next, 2.0 * Power(k), delta);
      IterateKeepsMass(|g|, t, P, At(rank));
      SameDistribution(|g|, At(next), Iterate(|g|, t, P, At(rank)));
      rank, iterations := next, k + 1;
      PowerStep(k);
      IterateIsSettled(g, t, rank, k + 1);
      if delta < PAGERANK_TOLERANCE {
        BoundMono(g, t, rank, DAMPING * delta / (1.0 - DAMPING), DAMPING * PAGERANK_TOLERANCE / (1.0 - DAMPING));
        SettledMono(g, t, rank, k + 1, DAMPING * delta / (1.0 - DAMPING),
          DAMPING * PAGERANK_TOLERANCE / (1.0 - DAMPING));
        break;
      }
    }
  }

  lemma FirstIterate(g: Level, teleport: seq<real>)
    requires |teleport| == |g|
    ensures IsIterate(g, At(teleport), teleport, 0)
  {
  }

  lemma PowerStep(k: nat)
    ensures DAMPING * (2.0 * Power(k)) == 2.0 * Power(k + 1)
  {
  }

  lemma BoundMono(g: Level, t: int -> real, rank: seq<real>, low: real, high: real)
    requires ErrorBounded(g, t, rank, low) && low <= high
    ensures ErrorBounded(g, t, rank, high)
  {
  }

  lemma InitiallyBounded(g: Level, teleport: seq<real>)
    requires Distribution(|g|, At(teleport))
    ensures ErrorBounded(g, At(teleport), teleport, 2.0 * Power(0))
  {
    forall pi: int -> real | Distribution(|g|, pi) {
      L1OfDistributions(|g|, At(teleport), pi);
    }
  }

  method Normalise(weights: seq<real>) returns (t: seq<real>, ghost total: real)
    requires |weights| > 0 && forall i :: 0 <= i < |weights| ==> weights[i] > 0.0
    ensures |t| == |weights| && Distribution(|t|, At(t))
    ensures total > 0.0 && forall i :: 0 <= i < |t| ==> t[i] == weights[i] / total
  {
    var sum := 0.0;
    for i := 0 to |weights|
      invariant sum == Sum(i, At(weights)) && sum >= 0.0 && (i > 0 ==> sum > 0.0)
    {
      assert At(weights)(i) == weights[i];
      sum := sum + weights[i];
    }
    t, total := seq(|weights|, i requires 0 <= i < |weights| => weights[i] / sum), sum;
    NormalisedSum(weights, t, sum);
  }

  lemma NormalisedSum(weights: seq<real>, t: seq<real>, sum: real)
    requires |t| == |weights| && sum > 0.0 && sum == Sum(|t|, At(weights))
    requires forall i :: 0 <= i < |t| ==> weights[i] > 0.0 && t[i] == weights[i] / sum
    ensures Distribution(|t|, At(t))
  {
    hide Ratio;
    forall i | 0 <= i < |t|
      ensures At(t)(i) == Ratio(At(weights)(i), 1.0, sum) && At(t)(i) > 0.0
    {
      RatioOne(weights[i], sum);
      QuotientPositive(weights[i], sum);
    }
    SumRatio(|t|, At(t), At(weights), 1.0, sum);
    RatioOne(sum, sum);
  }

  lemma QuotientPositive(a: real, b: real)
    requires a > 0.0 && b > 0.0
    ensures a / b > 0.0
    ensures a <= b ==> a / b <= 1.0
    ensures a == b ==> a / b == 1.0
  {
  }

  method Largest(rank: seq<real>) returns (top: real)
    requires |rank| > 0
    ensures forall i :: 0 <= i < |rank| ==> rank[i] <= top
    ensures exists i :: 0 <= i < |rank| && rank[i] == top
  {
    top := rank[0];
    for i := 1 to |rank|
      invariant forall k :: 0 <= k < i ==> rank[k] <= top
      invariant exists k :: 0 <= k < i && rank[k] == top
    {
      if rank[i] > top {
        top := rank[i];
      }
    }
  }

  method Latest(last: seq<Time>) returns (latest: Time)
    requires |last| > 0
    ensures forall i :: 0 <= i < |last| ==> last[i] <= latest
    ensures latest in last
  {
    latest := last[0];
    for i := 1 to |last|
      invariant forall k :: 0 <= k < i ==> last[k] <= latest
      invariant latest in last[..i]
    {
      if last[i] > latest {
        latest := last[i];
      }
    }
  }

  // The score of rank r of at most top, faded by f.
  function Score(r: real, top: real, fade: real): real
    requires top != 0.0
  {
    (r / top) * (0.5 + 0.5 * fade)
  }

  lemma ScoreIs(r: real, top: real, fade: real)
    requires top != 0.0
    ensures Score(r, top, fade) == (r / top) * (0.5 + 0.5 * fade)
  {
  }

  lemma ScoreRange(r: real, top: real, fade: real)
    requires 0.0 < r <= top && 0.0 < fade <= 1.0
    ensures 0.5 * (r / top) < Score(r, top, fade) <= r / top <= 1.0
    ensures 0.0 < r / top
    ensures r == top && fade == 1.0 ==> Score(r, top, fade) == 1.0
  {
    QuotientPositive(r, top);
    ScaleRange(r / top, 0.5 + 0.5 * fade);
  }

  lemma ScaleRange(q: real, f: real)
    requires q > 0.0 && 0.5 < f <= 1.0
    ensures 0.5 * q < q * f <= q
  {
  }

  // Every score is the entity's share of the largest rank, faded by half its
  // recency; it lies in (0, 1] and keeps at least half of that share.
  ghost predicate AreScores(scores: map<string, real>, names: seq<string>, rank: seq<real>, last: seq<Time>,
                            recency: nat -> real)
    requires |last| == |names|
  {
    && |rank| == |names|
    && (forall n :: n in scores <==> n in names)
    && (forall n :: n in scores ==> 0.0 < scores[n] <= 1.0)
    && (forall i, k :: 0 <= i < |names| && 0 <= k < |names| && rank[k] > 0.0 ==> HalfShare(scores, names, rank, i, k))
    && (forall i, k, l :: 0 <= i < |names| && 0 <= k < |names| && 0 <= l < |names| && rank[k] > 0.0 ==>
         IsFaded(scores, names, rank, last, recency, i, k, l))
    && (recency(0) == 1.0 ==>
         forall i :: 0 <= i < |names| && IsTop(rank, i) && IsLatest(last, i) ==> scores[names[i]] == 1.0)
  }

  ghost predicate IsTop(rank: seq<real>, i: int)
    requires 0 <= i < |rank|
  {
    forall k :: 0 <= k < |rank| ==> rank[k] <= rank[i]
  }

  ghost predicate IsLatest(last: seq<Time>, i: int)
    requires 0 <= i < |last|
  {
    forall k :: 0 <= k < |last| ==> last[k] <= last[i]
  }

  ghost predicate HalfShare(scores: map<string, real>, names: seq<string>, rank: seq<real>, i: int, k: int)
    requires |rank| == |names| && 0 <= i < |names| && 0 <= k < |names| && rank[k] != 0.0
    requires forall n :: n in names ==> n in scores
  {
    IsTop(rank, k) ==> 0.5 * (rank[i] / rank[k]) < scores[names[i]] <= rank[i] / rank[k]
  }

  // At recency 1/2 three quarters of the share are kept.
  ghost predicate IsFaded(scores: map<string, real>, names: seq<string>, rank: seq<real>, last: seq<Time>,
                          recency: nat -> real,
                          i: int, k: int, l: int)
    requires |rank| == |last| == |names| && 0 <= i < |names| && 0 <= k < |names| && 0 <= l < |names| && rank[k] != 0.0
    requires forall n :: n in names ==> n in scores
  {
    IsTop(rank, k) && IsLatest(last, l) ==>
      scores[names[i]] == (rank[i] / rank[k]) * (0.5 + 0.5 * recency(last[l] - last[i]))
  }

  method ScoreAll(names: seq<string>, rank: seq<real>, last: seq<Time>,
                  recency: nat -> real) returns (scores: map<string, real>)
    requires Distinct(names) && |rank| == |last| == |names| > 0
    requires forall i :: 0 <= i < |rank| ==> rank[i] > 0.0
    requires forall age :: 0.0 < recency(age) <= 1.0
    ensures AreScores(scores, names, rank, last, recency)
  {
    hide Score;
    var top := Largest(rank);
    var latest := Latest(last);
    scores := map[];
    for i := 0 to |names|
      invariant forall n :: n in scores <==> n in names[..i]
      invariant forall k :: 0 <= k < i ==> scores[names[k]] == Score(rank[k], top, recency(latest - last[k]))
    {
      assert names[..i + 1] == names[..i] + [names[i]];
      scores := scores[names[i] := Score(rank[i], top, recency(latest - last[i]))];
    }
    assert names[..|names|] == names;
    ScoredInRange(scores, names, rank, last, recency, top, latest);
    ScoredAndFaded(scores, names, rank, last, recency, top, latest);
  }

  ghost predicate Scored(scores: map<string, real>, names: seq<string>, rank: seq<real>, last: seq<Time>,
                         recency: nat -> real,
                         top: real, latest: Time)
    requires |rank| == |last| == |names|
  {
    && top > 0.0 && (forall i :: 0 <= i < |rank| ==> 0.0 < rank[i] <= top && last[i] <= latest)
    && top in rank && latest in last
    && (forall n :: n in scores <==> n in names)
    && (forall k :: 0 <= k < |names| ==> scores[names[k]] == Score(rank[k], top, recency(latest - last[k])))
  }

  lemma ScoredInRange(scores: map<string, real>, names: seq<string>, rank: seq<real>, last: seq<Time>,
                      recency: nat -> real,
                      top: real, latest: Time)
    requires |rank| == |last| == |names| && Scored(scores, names, rank, last, recency, top, latest)
    requires forall age :: 0.0 < recency(age) <= 1.0
    ensures forall n :: n in scores ==> 0.0 < scores[n] <= 1.0
    ensures forall i, k :: 0 <= i < |names| && 0 <= k < |names| && rank[k] > 0.0 ==>
      HalfShare(scores, names, rank, i, k)
    ensures recency(0) == 1.0 ==>
      forall i :: 0 <= i < |names| && IsTop(rank, i) && IsLatest(last, i) ==> scores[names[i]] == 1.0
  {
    hide Score;
    forall i | 0 <= i < |names|
      ensures 0.0 < scores[names[i]] <= 1.0
      ensures 0.5 * (rank[i] / top) < scores[names[i]] <= rank[i] / top
      ensures recency(0) == 1.0 && IsTop(rank, i) && IsLatest(last, i) ==> scores[names[i]] == 1.0
    {
      ScoreRange(rank[i], top, recency(latest - last[i]));
    }
    forall i, k | 0 <= i < |names| && 0 <= k < |names|
      ensures HalfShare(scores, names, rank, i, k)
    {
      if IsTop(rank, k) {
        assert rank[k] == top;
      }
    }
  }

  lemma ScoredAndFaded(scores: map<string, real>, names: seq<string>, rank: seq<real>, last: seq<Time>,
                       recency: nat -> real,
                       top: real, latest: Time)
    requires |rank| == |last| == |names| && Scored(scores, names, rank, last, recency, top, latest)
    ensures forall i, k, l :: 0 <= i < |names| && 0 <= k < |names| && 0 <= l < |names| && rank[k] > 0.0 ==>
      IsFaded(scores, names, rank, last, recency, i, k, l)
  {
    hide Score;
    forall i, k, l | 0 <= i < |names| && 0 <= k < |names| && 0 <= l < |names|
      ensures IsFaded(scores, names, rank, last, recency, i, k, l)
    {
      if IsTop(rank, k) && IsLatest(last, l) {
        assert rank[k] == top && last[l] == latest;
        ScoreIs(rank[i], top, recency(latest - last[i]));
      }
    }
  }

  // Teleport weights grow with the mentions: the larger of the linked and the
  // counted ones.
  method TeleportWeights(linked: seq<nat>, counted: seq<nat>, ln1p: nat -> real) returns (weights: seq<real>)
    requires |linked| == |counted| && forall k :: ln1p(k) >= 0.0
    ensures |weights| == |linked|
    ensures forall i :: 0 <= i < |weights| ==>
      weights[i] == 1.0 + ln1p(if linked[i] > counted[i] then linked[i] else counted[i]) >= 1.0
  {
    weights := [];
    for i := 0 to |linked|
      invariant |weights| == i
      invariant forall k :: 0 <= k < i ==>
        weights[k] == 1.0 + ln1p(if linked[k] > counted[k] then linked[k] else counted[k]) >= 1.0
    {
      weights := weights + [1.0 + ln1p(if linked[i] > counted[i] then linked[i] else counted[i])];
    }
  }

  // rank is the ranking by which the scores are given, from these teleport
  // probabilities, after this many iterations.
  ghost predicate IsRanking(g: Level, teleport: seq<real>, rank: seq<real>, iterations: nat) {
    && |g| == |rank| == |teleport|
    && Distribution(|g|, At(teleport)) && Distribution(|g|, At(rank))
    && IsIterate(g, At(teleport), rank, iterations) && StopsAt(g, At(teleport), iterations)
    && ErrorBounded(g, At(teleport), rank, 2.0 * Power(iterations))
    && SettledWithin(g, At(teleport), rank, iterations, 2.0 * Power(iterations))
    && (iterations == PAGERANK_ITERATIONS
        || (ErrorBounded(g, At(teleport), rank, DAMPING * PAGERANK_TOLERANCE / (1.0 - DAMPING))
            && SettledWithin(g, At(teleport), rank, iterations, DAMPING * PAGERANK_TOLERANCE / (1.0 - DAMPING))))
  }

  // Teleporting favours the entities with many mentions.
  ghost predicate FavoursMentions(teleport: seq<real>, linked: seq<nat>, counted: seq<nat>, ln1p: nat -> real,
                                  total: real)
    requires |linked| == |counted|
  {
    total > 0.0 && |teleport| == |linked| && forall i :: 0 <= i < |teleport| ==>
      teleport[i] == (1.0 + ln1p(if linked[i] > counted[i] then linked[i] else counted[i])) / total
  }

  // The scores come from such a ranking of the undirected graph.
  ghost predicate AreImportances(scores: map<string, real>, names: seq<string>, rels: seq<Relation>, linked: seq<nat>,
                                 counted: seq<nat>, last: seq<Time>, ln1p: nat -> real, recency: nat -> real)
    requires |linked| == |counted| == |last| == |names|
  {
    exists g, teleport, total, rank, iterations ::
      && IsUndirected(g, names, rels) && IsRanking(g, teleport, rank, iterations)
      && FavoursMentions(teleport, linked, counted, ln1p, total) && AreScores(scores, names, rank, last, recency)
  }

  method ComputeImportance(names: seq<string>, rels: seq<Relation>, linked: seq<nat>, counted: seq<nat>,
                           last: seq<Time>, ln1p: nat -> real, recency: nat -> real)
    returns (scores: map<string, real>)
    requires Distinct(names) && |linked| == |counted| == |last| == |names|
    requires forall k :: ln1p(k) >= 0.0
    requires forall age :: 0.0 < recency(age) <= 1.0
    ensures |names| == 0 ==> scores == map[]
    ensures |names| > 0 ==> AreImportances(scores, names, rels, linked, counted, last, ln1p, recency)
  {
    hide ErrorBounded, SettledWithin, AreScores, IsUndirected, ValidLevel, Power, IsIterate, StopsAt, FavoursMentions;
    if |names| == 0 {
      return map[];
    }
    var level := BuildUndirected(names, rels);
    var weights := TeleportWeights(linked, counted, ln1p);
    var teleport, total := Normalise(weights);
    assert ValidLevel(level) && |level| == |names| && NoSelfLoops(level) by {
      UndirectedHasNoLoops(level, names, rels);
    }
    var rank, iterations := RankNodes(level, teleport);
    forall i | 0 <= i < |rank|
      ensures rank[i] > 0.0
    {
      assert At(rank)(i) == rank[i];
    }
    scores := ScoreAll(names, rank, last, recency);
    assert IsRanking(level, teleport, rank, iterations);
    assert FavoursMentions(teleport, linked, counted, ln1p, total) by {
      WeightsFavour(teleport, linked, counted, ln1p, weights, total);
    }
  }

  lemma WeightsFavour(teleport: seq<real>, linked: seq<nat>, counted: seq<nat>, ln1p: nat -> real, weights: seq<real>,
                      total: real)
    requires |teleport| == |linked| == |counted| == |weights| && total > 0.0
    requires forall i :: 0 <= i < |weights| ==>
      weights[i] == 1.0 + ln1p(if linked[i] > counted[i] then linked[i] else counted[i])
    requires forall i :: 0 <= i < |weights| ==> teleport[i] == weights[i] / total
    ensures FavoursMentions(teleport, linked, counted, ln1p, total)
  {
  }

  lemma UndirectedHasNoLoops(g: Level, names: seq<string>, rels: seq<Relation>)
    requires IsUndirected(g, names, rels)
    ensures ValidLevel(g) && |g| == |names| && NoSelfLoops(g)
  {
    forall i | 0 <= i < |g|
      ensures A(g, i, i) == 0.0
    {
      UnlistedIsZero(g[i], i);
    }
  }
}
