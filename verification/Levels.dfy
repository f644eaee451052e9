// Weighted undirected graphs as adjacency lists (one Louvain level), and the
// modularity of a partition of their nodes.
module Levels {
  import opened Sums

  datatype Link = Link(to: nat, w: real)
  type Level = seq<seq<Link>>
  type Partition = seq<nat>

  // The weight a row lists for the neighbours that pick selects.
  ghost function Picked(row: seq<Link>, pick: int -> bool): real {
    if row == [] then 0.0
    else var e := row[|row| - 1]; Picked(row[..|row| - 1], pick) + if pick(e.to) then e.w else 0.0
  }

  ghost function Only(j: int): int -> bool { x => x == j }
  ghost function Every(): int -> bool { x => true }

  // The weight a row lists for node j (0 for unlisted nodes). A self loop is
  // listed once.
  ghost function Listed(row: seq<Link>, j: int): real { Picked(row, Only(j)) }

  ghost function ListedIf(row: seq<Link>, pick: int -> bool): int -> real {
    j => if pick(j) then Listed(row, j) else 0.0
  }

  ghost function A(g: Level, i: int, j: int): real {
    if 0 <= i < |g| then Listed(g[i], j) else 0.0
  }

  // The symmetric weight matrix, where a self loop counts twice.
  ghost function B(g: Level): (int, int) -> real {
    (i, j) => (if i == j then 2.0 else 1.0) * A(g, i, j)
  }

  ghost function Degree(g: Level, i: int): real { Sum(|g|, Row(B(g), i)) }
  ghost function Degrees(g: Level): int -> real { i => Degree(g, i) }

  // Twice the total edge weight.
  ghost function M2(g: Level): real { Sum(|g|, Degrees(g)) }

  ghost predicate ValidRow(n: nat, row: seq<Link>) {
    && (forall p :: 0 <= p < |row| ==> row[p].to < n && row[p].w >= 0.0)
    && (forall p, q :: 0 <= p < q < |row| ==> row[p].to != row[q].to)
  }

  // Rows list each neighbour once, with a weight, and agree with each other.
  ghost predicate ValidLevel(g: Level) {
    && (forall i :: 0 <= i < |g| ==> ValidRow(|g|, g[i]))
    && (forall i, j :: A(g, i, j) == A(g, j, i))
  }

  ghost predicate PositiveWeights(g: Level) {
    forall k, p :: 0 <= k < |g| && 0 <= p < |g[k]| ==> g[k][p].w > 0.0
  }

  ghost predicate Same(c: Partition, i: int, j: int) {
    0 <= i < |c| && 0 <= j < |c| && c[i] == c[j]
  }

  // How much heavier i-j is than expected at random.
  ghost function Excess(g: Level, i: int, j: int): real {
    if M2(g) == 0.0 then 0.0 else B(g)(i, j) - Ratio(Degree(g, i), Degree(g, j), M2(g))
  }

  ghost function Within(g: Level, c: Partition): (int, int) -> real {
    (i, j) => if Same(c, i, j) then Excess(g, i, j) else 0.0
  }

  // Newman's modularity: the excess weight inside communities, as a
  // fraction of all weight.
  ghost function Modularity(g: Level, c: Partition): real {
    if M2(g) == 0.0 then 0.0 else Sum2(|g|, Within(g, c)) / M2(g)
  }

  function Singletons(n: nat): (c: Partition)
    ensures |c| == n && forall i :: 0 <= i < n ==> c[i] == i
  {
    seq(n, i requires 0 <= i < n => i)
  }

  // comp is constant along every edge, as a connected-component labelling is.
  ghost predicate Respects(g: Level, comp: seq<int>) {
    |comp| == |g| && forall i, p :: 0 <= i < |g| && 0 <= p < |g[i]| && g[i][p].to < |g| ==>
      comp[g[i][p].to] == comp[i]
  }

  lemma PickedSnoc(row: seq<Link>, k: nat, pick: int -> bool)
    requires k < |row|
    ensures Picked(row[..k + 1], pick) == Picked(row[..k], pick) + if pick(row[k].to) then row[k].w else 0.0
  {
    assert row[..k + 1][..k] == row[..k];
  }

  // A sum over a row's entries is a sum over all nodes.
  lemma {:induction false} PickedByNode(n: nat, row: seq<Link>, pick: int -> bool)
    requires forall p :: 0 <= p < |row| ==> row[p].to < n
    ensures Picked(row, pick) == Sum(n, ListedIf(row, pick))
  {
    if row == [] {
      assert forall j :: Listed(row, j) == 0.0;
      SumZero(n, ListedIf(row, pick));
    } else {
      var e, rest := row[|row| - 1], row[..|row| - 1];
      PickedByNode(n, rest, pick);
      assert forall j :: Listed(row, j) == Listed(rest, j) + if j == e.to then e.w else 0.0;
      SumUpdate(n, e.to, ListedIf(row, pick), ListedIf(rest, pick));
    }
  }

  lemma {:induction false} ListedNonNeg(row: seq<Link>, j: int)
    requires forall p :: 0 <= p < |row| ==> row[p].w >= 0.0
    ensures Listed(row, j) >= 0.0
  {
    if row != [] {
      ListedNonNeg(row[..|row| - 1], j);
    }
  }

  lemma {:induction false} UnlistedIsZero(row: seq<Link>, j: int)
    requires forall p :: 0 <= p < |row| ==> row[p].to != j
    ensures Listed(row, j) == 0.0
  {
    if row != [] {
      UnlistedIsZero(row[..|row| - 1], j);
    }
  }

  // The degree is the row sum with self loops counted twice.
  lemma DegreeOfRow(g: Level, i: nat)
    requires ValidLevel(g) && i < |g|
    ensures Degree(g, i) == Picked(g[i], Every()) + Picked(g[i], Only(i))
  {
    assert ValidRow(|g|, g[i]);
    PickedByNode(|g|, g[i], Every());
    SumUpdate(|g|, i, Row(B(g), i), ListedIf(g[i], Every()));
  }

  lemma DegreeNonNeg(g: Level)
    requires ValidLevel(g)
    ensures forall i :: 0 <= i < |g| ==> Degree(g, i) >= 0.0
    ensures M2(g) >= 0.0
  {
    forall i | 0 <= i < |g|
      ensures Degree(g, i) >= 0.0
    {
      assert ValidRow(|g|, g[i]);
      forall j { ListedNonNeg(g[i], j); }
      SumNonNeg(|g|, Row(B(g), i));
    }
    SumNonNeg(|g|, Degrees(g));
  }

  // The links of node i to community x, self loops aside.
  ghost predicate Other(c: Partition, i: int, x: int, b: int) {
    0 <= b < |c| && b != i && c[b] == x
  }

  ghost function ExcessTo(g: Level, c: Partition, i: int, x: int): int -> real {
    b => if Other(c, i, x, b) then Excess(g, i, b) else 0.0
  }

  ghost function Gain(g: Level, c: Partition, i: int, x: int): real {
    Sum(|g|, ExcessTo(g, c, i, x))
  }

  // The summed degrees of community x without node i.
  ghost function DegreeOfOthers(g: Level, c: Partition, i: int, x: int): int -> real {
    b => if Other(c, i, x, b) then Degree(g, b) else 0.0
  }

  ghost function TotalWithout(g: Level, c: Partition, i: int, x: int): real {
    Sum(|g|, DegreeOfOthers(g, c, i, x))
  }

  ghost function Members(c: Partition, i: int, x: int): int -> bool { b => Other(c, i, x, b) }

  ghost function LinksTo(g: Level, c: Partition, i: int, x: int): int -> real {
    b => if Other(c, i, x, b) then A(g, i, b) else 0.0
  }

  // The gain that the code computes from the links and the community total
  // is the excess weight of node i towards the community.
  lemma GainFormula(g: Level, c: Partition, i: nat, x: int)
    requires ValidLevel(g) && i < |g| == |c| && M2(g) != 0.0
    ensures Gain(g, c, i, x)
         == Picked(g[i], Members(c, i, x)) - Ratio(TotalWithout(g, c, i, x), Degree(g, i), M2(g))
  {
    assert ValidRow(|g|, g[i]);
    hide Ratio;
    PickedByNode(|g|, g[i], Members(c, i, x));
    SumExt(|g|, ListedIf(g[i], Members(c, i, x)), LinksTo(g, c, i, x));
    GainBySums(g, c, i, x);
  }

  ghost function ExpectedTo(g: Level, c: Partition, i: int, x: int): int -> real
    requires M2(g) != 0.0
  {
    b => Ratio(DegreeOfOthers(g, c, i, x)(b), Degree(g, i), M2(g))
  }

  lemma GainBySums(g: Level, c: Partition, i: nat, x: int)
    requires i < |g| && M2(g) != 0.0
    ensures Gain(g, c, i, x) == Sum(|g|, LinksTo(g, c, i, x)) - Ratio(TotalWithout(g, c, i, x), Degree(g, i), M2(g))
  {
    hide Ratio;
    forall b | 0 <= b < |g|
      ensures ExcessTo(g, c, i, x)(b) == LinksTo(g, c, i, x)(b) - ExpectedTo(g, c, i, x)(b)
    {
      var d := DegreeOfOthers(g, c, i, x)(b);
      RatioLinear(d, d, Degree(g, i), M2(g));
      if Other(c, i, x, b) {
        assert B(g)(i, b) == A(g, i, b);
      } else {
        assert d == 0.0;
      }
    }
    SumSub(|g|, ExcessTo(g, c, i, x), LinksTo(g, c, i, x), ExpectedTo(g, c, i, x));
    SumRatio(|g|, ExpectedTo(g, c, i, x), DegreeOfOthers(g, c, i, x), Degree(g, i), M2(g));
  }

  lemma ExcessSymmetric(g: Level, a: int, b: int)
    requires ValidLevel(g) && M2(g) != 0.0
    ensures Excess(g, a, b) == Excess(g, b, a)
  {
    hide Ratio;
    RatioLinear(Degree(g, a), 0.0, Degree(g, b), M2(g));
    assert B(g)(a, b) == B(g)(b, a);
  }

  // Moving node i to community x changes the modularity by twice the
  // difference of the two gains.
  lemma MoveChangesModularity(g: Level, c: Partition, i: nat, x: nat)
    requires ValidLevel(g) && i < |g| == |c| && M2(g) != 0.0
    ensures Modularity(g, c[i := x])
         == Modularity(g, c) + 2.0 * (Gain(g, c, i, x) - Gain(g, c, i, c[i])) / M2(g)
  {
    hide Ratio, Excess, M2;
    var n, own, c' := |g|, c[i], c[i := x];
    var P, Q := Within(g, c'), Within(g, c);
    if x == own {
      assert c' == c;
    } else {
      forall a, b { ExcessSymmetric(g, a, b); }
      SumCross(n, i, P, Q);
      var d := (b: int) => Row(P, i)(b) - Row(Q, i)(b);
      SumSub(n, d, Row(P, i), Row(Q, i));
      SumSub(n, d, ExcessTo(g, c, i, x), ExcessTo(g, c, i, own));
      assert Sum2(n, P) == Sum2(n, Q) + 2.0 * (Gain(g, c, i, x) - Gain(g, c, i, own));
    }
  }
}
