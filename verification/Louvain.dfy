// One level of Louvain community detection: nodes move to the neighbouring
// community with the best gain until no move improves the modularity.
module Louvain {
  import opened Sums
  import opened Levels

  const LOUVAIN_PASSES := 32
  const MIN_GAIN := 0.000000000001

  ghost predicate IsLabelling(c: Partition, n: nat) {
    |c| == n && forall i :: 0 <= i < n ==> c[i] < n
  }

  // The summed degrees of the nodes in community x.
  ghost function MemberDegree(g: Level, c: Partition, x: int): int -> real {
    b => if 0 <= b < |c| && c[b] == x then Degree(g, b) else 0.0
  }

  ghost function CommunityDegree(g: Level, c: Partition, x: int): real {
    Sum(|g|, MemberDegree(g, c, x))
  }

  ghost predicate Tracks(g: Level, c: Partition, total: seq<real>) {
    |total| == |g| && forall x :: 0 <= x < |total| ==> total[x] == CommunityDegree(g, c, x)
  }

  ghost predicate TracksWithout(g: Level, c: Partition, total: seq<real>, i: nat) {
    |total| == |g| && forall x :: 0 <= x < |total| ==> total[x] == TotalWithout(g, c, i, x)
  }

  // No neighbouring community beats the node's own by more than MIN_GAIN.
  ghost predicate Settled(g: Level, c: Partition, i: nat)
    requires i < |g| == |c|
  {
    forall p :: 0 <= p < |g[i]| && g[i][p].to < |c| && g[i][p].to != i ==>
      Gain(g, c, i, c[g[i][p].to]) <= Gain(g, c, i, c[i]) + 0.000000000001
  }

  // Community labels are node numbers; a label lies in its members' component.
  ghost predicate LabelsRespect(comp: seq<int>, c: Partition) {
    |comp| == |c| && (forall i :: 0 <= i < |c| ==> c[i] < |c|) && (forall i :: 0 <= i < |c| ==> comp[c[i]] == comp[i])
  }

  lemma CommunityWithout(g: Level, c: Partition, i: nat, x: int)
    requires i < |g| == |c|
    ensures CommunityDegree(g, c, x) == TotalWithout(g, c, i, x) + if c[i] == x then Degree(g, i) else 0.0
  {
    SumUpdate(|g|, i, MemberDegree(g, c, x), DegreeOfOthers(g, c, i, x));
  }

  // Leaving out node i, the totals do not depend on where i is.
  lemma WithoutIgnoresLabel(g: Level, c: Partition, i: nat, x: int, y: nat)
    requires i < |g| == |c|
    ensures TotalWithout(g, c[i := y], i, x) == TotalWithout(g, c, i, x)
  {
    SumExt(|g|, DegreeOfOthers(g, c[i := y], i, x), DegreeOfOthers(g, c, i, x));
  }

  method ComputeDegree(g: Level, i: nat) returns (d: real)
    requires ValidLevel(g) && i < |g|
    ensures d == Degree(g, i)
  {
    var row := g[i];
    d := 0.0;
    for k := 0 to |row|
      invariant d == Picked(row[..k], Every()) + Picked(row[..k], Only(i))
    {
      PickedSnoc(row, k, Every());
      PickedSnoc(row, k, Only(i));
      d := d + if row[k].to == i then 2.0 * row[k].w else row[k].w;
    }
    assert row[..|row|] == row;
    DegreeOfRow(g, i);
  }

  method ComputeDegrees(g: Level) returns (degree: seq<real>, m2: real)
    requires ValidLevel(g)
    ensures |degree| == |g| && forall i :: 0 <= i < |g| ==> degree[i] == Degree(g, i)
    ensures m2 == M2(g)
  {
    hide Degree, ValidLevel;
    degree, m2 := [], 0.0;
    for i := 0 to |g|
      invariant |degree| == i && forall k :: 0 <= k < i ==> degree[k] == Degree(g, k)
      invariant m2 == Sum(i, Degrees(g))
    {
      var d := ComputeDegree(g, i);
      degree, m2 := degree + [d], m2 + d;
    }
  }

  function LinkTo(links: map<int, real>, x: int): real {
    if x in links then links[x] else 0.0
  }

  // The weight from node i to each community among its neighbours.
  method LinksOf(g: Level, c: Partition, i: nat) returns (links: map<int, real>)
    requires ValidLevel(g) && i < |g| && IsLabelling(c, |g|)
    ensures forall x :: x in links <==> exists p :: 0 <= p < |g[i]| && g[i][p].to != i && c[g[i][p].to] == x
    ensures forall x :: LinkTo(links, x) == Picked(g[i], Members(c, i, x))
  {
    assert ValidRow(|g|, g[i]);
    hide ValidLevel, Picked;
    var row := g[i];
    links := map[];
    for k := 0 to |row|
      invariant forall x :: x in links <==> exists p :: 0 <= p < k && row[p].to != i && c[row[p].to] == x
      invariant forall x :: LinkTo(links, x) == Picked(row[..k], Members(c, i, x))
    {
      forall x { PickedSnoc(row, k, Members(c, i, x)); }
      if row[k].to != i {
        var x := c[row[k].to];
        links := links[x := LinkTo(links, x) + row[k].w];
      }
    }
    assert row[..|row|] == row;
  }

  function GainOf(kIn: real, total: real, degree: real, m2: real): real
    requires m2 != 0.0
  {
    kIn - total * degree / m2
  }

  lemma GainComputed(g: Level, c: Partition, i: nat, x: int)
    requires ValidLevel(g) && i < |g| == |c| && M2(g) != 0.0
    ensures GainOf(Picked(g[i], Members(c, i, x)), TotalWithout(g, c, i, x), Degree(g, i), M2(g)) == Gain(g, c, i, x)
  {
    GainFormula(g, c, i, x);
  }

  // Some neighbour of node i has label x.
  ghost predicate Near(g: Level, c: Partition, i: nat, x: int)
    requires i < |g| == |c|
  {
    exists p :: 0 <= p < |g[i]| && g[i][p].to < |c| && g[i][p].to != i && c[g[i][p].to] == x
  }

  // The label chosen from node i's own and the neighbouring ones below x:
  // a later one must gain more by a margin.
  ghost function ChosenBelow(g: Level, c: Partition, i: nat, x: nat): nat
    requires i < |g| == |c|
  {
    if x == 0 then c[i]
    else
      var best := ChosenBelow(g, c, i, x - 1);
      if Near(g, c, i, x - 1) && Gain(g, c, i, x - 1) > Gain(g, c, i, best) + 0.000000000001 then x - 1
      else best
  }

  ghost function Chosen(g: Level, c: Partition, i: nat): nat
    requires i < |g| == |c|
  {
    ChosenBelow(g, c, i, |g|)
  }

  // The labels after the nodes below i have chosen in turn.
  ghost function PassBelow(g: Level, c: Partition, i: nat): (r: Partition)
    requires i <= |g| == |c|
    ensures |r| == |c|
  {
    if i == 0 then c
    else
      var d := PassBelow(g, c, i - 1);
      d[i - 1 := Chosen(g, d, i - 1)]
  }

  // The labels after at most so many passes, up to one that changes nothing.
  ghost function Passes(g: Level, c: Partition, passes: nat): (r: Partition)
    requires |g| == |c|
    ensures |r| == |c|
    decreases passes
  {
    var d := PassBelow(g, c, |g|);
    if passes == 0 || d == c then c else Passes(g, d, passes - 1)
  }

  // The labels at the end of a level: a function of the level alone.
  ghost function LevelLabels(g: Level): (r: Partition)
    ensures |r| == |g|
  {
    if M2(g) == 0.0 then Singletons(|g|) else Passes(g, Singletons(|g|), 32)
  }

  lemma LinksAreNear(g: Level, c: Partition, i: nat, links: map<int, real>)
    requires ValidLevel(g) && i < |g| == |c|
    requires forall x :: x in links <==> exists p :: 0 <= p < |g[i]| && g[i][p].to != i && c[g[i][p].to] == x
    ensures forall x :: x in links <==> Near(g, c, i, x)
  {
  }

  lemma PassesStep(g: Level, c: Partition, passes: nat)
    requires |g| == |c|
    ensures Passes(g, c, 0) == c
    ensures PassBelow(g, c, |g|) == c ==> Passes(g, c, passes) == c
    ensures passes > 0 ==> Passes(g, c, passes) == Passes(g, PassBelow(g, c, |g|), passes - 1)
  {
    if passes > 0 && PassBelow(g, c, |g|) == c {
      assert Passes(g, c, passes - 1) == c;
    }
  }

  // The community to move to: the node's own, or a neighbouring one that
  // gains strictly more.
  method BestCommunity(g: Level, c: Partition, i: nat, total: seq<real>, degree: real, m2: real) returns (best: nat)
    requires ValidLevel(g) && i < |g| && IsLabelling(c, |g|)
    requires TracksWithout(g, c, total, i) && degree == Degree(g, i) && m2 == M2(g) && m2 != 0.0
    ensures best == c[i] || exists p :: 0 <= p < |g[i]| && g[i][p].to != i && best == c[g[i][p].to]
    ensures best < |g| && best == Chosen(g, c, i)
    ensures best != c[i] ==> Gain(g, c, i, best) > Gain(g, c, i, c[i]) + MIN_GAIN
    ensures forall p :: 0 <= p < |g[i]| && g[i][p].to != i ==>
      Gain(g, c, i, c[g[i][p].to]) <= Gain(g, c, i, best) + MIN_GAIN
  {
    hide GainOf, Gain, M2, Degree, TotalWithout, Near, Picked;
    assert ValidRow(|g|, g[i]);
    var links := LinksOf(g, c, i);
    assert forall x :: x in links <==> Near(g, c, i, x) by { LinksAreNear(g, c, i, links); }
    var own := c[i];
    GainComputed(g, c, i, own);
    best := own;
    var bestGain := GainOf(LinkTo(links, own), total[own], degree, m2);
    for x := 0 to |g|
      invariant best < |g| && (best == own || best in links) && best == ChosenBelow(g, c, i, x)
      invariant bestGain == Gain(g, c, i, best)
      invariant best != own ==> bestGain > Gain(g, c, i, own) + MIN_GAIN
      invariant forall y :: 0 <= y < x && y in links ==> Gain(g, c, i, y) <= bestGain + MIN_GAIN
    {
      if x in links {
        GainComputed(g, c, i, x);
        assert links[x] == LinkTo(links, x);
        var gain := GainOf(links[x], total[x], degree, m2);
        if gain > bestGain + MIN_GAIN {
          best, bestGain := x, gain;
        }
      }
    }
  }

  // The totals before and after node i changes its label from own to y.
  lemma TotalsFollow(g: Level, c: Partition, total: seq<real>, i: nat, y: nat)
    requires i < |g| && y < |g| && IsLabelling(c, |g|) && Tracks(g, c, total)
    ensures var without := total[c[i] := total[c[i]] - Degree(g, i)];
      && TracksWithout(g, c, without, i)
      && Tracks(g, c[i := y], without[y := without[y] + Degree(g, i)])
  {
    hide Degree, CommunityDegree, TotalWithout;
    forall x: int
      ensures CommunityDegree(g, c, x) == TotalWithout(g, c, i, x) + if c[i] == x then Degree(g, i) else 0.0
      ensures CommunityDegree(g, c[i := y], x) == TotalWithout(g, c, i, x) + if y == x then Degree(g, i) else 0.0
    {
      CommunityWithout(g, c, i, x);
      CommunityWithout(g, c[i := y], i, x);
      WithoutIgnoresLabel(g, c, i, x, y);
    }
  }

  lemma LabelsFollow(g: Level, comp: seq<int>, c: Partition, i: nat, p: nat)
    requires ValidLevel(g) && i < |g| == |c| && p < |g[i]| && Respects(g, comp) && LabelsRespect(comp, c)
    ensures g[i][p].to < |g| && LabelsRespect(comp, c[i := c[g[i][p].to]])
  {
    assert ValidRow(|g|, g[i]);
    assert comp[c[g[i][p].to]] == comp[i];
  }

  // The least improvement of one accepted move.
  ghost function Step(g: Level): real
    requires M2(g) != 0.0
  {
    2.0 * MIN_GAIN / M2(g)
  }

  lemma MoveImproves(g: Level, gain: real)
    requires gain > MIN_GAIN && M2(g) > 0.0
    ensures 2.0 * gain / M2(g) > Step(g)
  {
  }

  // Consider node i once, keeping the community totals.
  method MoveNode(g: Level, degree: seq<real>, m2: real, community: array<nat>, total: array<real>, i: nat)
    returns (moved: bool)
    requires ValidLevel(g) && i < |g|
    requires |degree| == |g| && degree[i] == Degree(g, i) && m2 == M2(g) && m2 > 0.0
    requires IsLabelling(community[..], |g|) && Tracks(g, community[..], total[..])
    modifies community, total
    ensures community.Length == |g| && community[..] == old(community[..])[i := Chosen(g, old(community[..]), i)]
    ensures IsLabelling(community[..], |g|) && Tracks(g, community[..], total[..])
    ensures moved <==> community[..] != old(community[..])
    ensures moved ==> Modularity(g, community[..]) > Modularity(g, old(community[..])) + Step(g)
    ensures !moved ==> Settled(g, community[..], i)
    ensures forall comp :: Respects(g, comp) && LabelsRespect(comp, old(community[..])) ==>
      LabelsRespect(comp, community[..])
  {
    hide Modularity, M2, Degree, Gain, TotalWithout, CommunityDegree, Step, Chosen;
    ghost var c, t := community[..], total[..];
    var own := community[i];
    TotalsFollow(g, c, t, i, own);
    total[own] := total[own] - degree[i];
    assert total[..] == t[own := t[own] - Degree(g, i)];
    ghost var without := total[..];
    var best := BestCommunity(g, community[..], i, total[..], degree[i], m2);
    TotalsFollow(g, c, t, i, best);
    community[i] := best;
    total[best] := total[best] + degree[i];
    moved := best != own;

    assert community[..] == c[i := best] && total[..] == without[best := without[best] + Degree(g, i)];
    MoveChangesModularity(g, c, i, best);
    if moved {
      MoveImproves(g, Gain(g, c, i, best) - Gain(g, c, i, own));
    } else {
      assert c[i := best] == c;
    }
    forall comp | Respects(g, comp) && LabelsRespect(comp, c)
      ensures LabelsRespect(comp, community[..])
    {
      if moved {
        var p :| 0 <= p < |g[i]| && g[i][p].to != i && best == c[g[i][p].to];
        LabelsFollow(g, comp, c, i, p);
      }
    }
  }

  // What every pass and every move keeps.
  ghost predicate LevelInvariant(g: Level, community: Partition, total: seq<real>) {
    && IsLabelling(community, |g|)
    && Tracks(g, community, total)
    && forall comp :: Respects(g, comp) ==> LabelsRespect(comp, community)
  }

  // One pass over all nodes.
  method LouvainPass(g: Level, degree: seq<real>, m2: real, community: array<nat>, total: array<real>)
    returns (moved: bool)
    requires ValidLevel(g)
    requires |degree| == |g| && forall i :: 0 <= i < |g| ==> degree[i] == Degree(g, i)
    requires m2 == M2(g) && m2 > 0.0
    requires LevelInvariant(g, community[..], total[..])
    modifies community, total
    ensures LevelInvariant(g, community[..], total[..])
    ensures moved ==> Modularity(g, community[..]) >= Modularity(g, old(community[..])) + Step(g)
    ensures community.Length == |g| && community[..] == PassBelow(g, old(community[..]), |g|)
    ensures moved <==> community[..] != old(community[..])
    ensures !moved ==> forall i :: 0 <= i < |g| ==> Settled(g, community[..], i)
  {
    hide Modularity, M2, Degree, CommunityDegree, Step, Chosen;
    moved := false;
    StepPositive(g);
    for i := 0 to |g|
      invariant LevelInvariant(g, community[..], total[..])
      invariant community.Length == |g| && community[..] == PassBelow(g, old(community[..]), i)
      invariant moved ==> Modularity(g, community[..]) >= Modularity(g, old(community[..])) + Step(g)
      invariant !moved ==> community[..] == old(community[..])
      invariant !moved ==> forall k :: 0 <= k < i ==> Settled(g, community[..], k)
    {
      ghost var c := community[..];
      var m := MoveNode(g, degree, m2, community, total, i);
      assert !m ==> community[..] == c;
      moved := moved || m;
    }
  }

  lemma StepPositive(g: Level)
    requires M2(g) > 0.0
    ensures Step(g) > 0.0
  {
  }

  lemma InitialTotals(g: Level, degree: seq<real>)
    requires |degree| == |g| && forall i :: 0 <= i < |g| ==> degree[i] == Degree(g, i)
    ensures LevelInvariant(g, Singletons(|g|), degree)
  {
    forall x | 0 <= x < |g|
      ensures CommunityDegree(g, Singletons(|g|), x) == Degree(g, x)
    {
      SumPoint(|g|, x, MemberDegree(g, Singletons(|g|), x));
    }
  }

  // What so many steps gain.
  ghost function Gained(k: nat, step: real): real { k as real * step }

  lemma GainedIs(k: nat, step: real)
    ensures Gained(k, step) == k as real * step
  {
  }

  lemma GainedMore(k: nat, step: real)
    ensures Gained(k + 1, step) == Gained(k, step) + step
  {
  }

  lemma LevelKept(g: Level, community: Partition, total: seq<real>)
    requires LevelInvariant(g, community, total)
    ensures IsLabelling(community, |g|) && forall comp :: Respects(g, comp) ==> LabelsRespect(comp, community)
  {
  }

  // A level never lowers the modularity, raises it when anything moved, and
  // keeps every community inside one connected component. Unless it stops at
  // the pass limit, no single node would still gain by moving.
  method LouvainLevel(g: Level) returns (result: Partition)
    requires ValidLevel(g)
    ensures IsLabelling(result, |g|) && result == LevelLabels(g)
    ensures Modularity(g, result) >= Modularity(g, Singletons(|g|))
    ensures result != Singletons(|g|) ==> Modularity(g, result) > Modularity(g, Singletons(|g|))
    ensures forall comp :: Respects(g, comp) ==> LabelsRespect(comp, result)
    ensures M2(g) == 0.0
         || (forall i :: 0 <= i < |g| ==> Settled(g, result, i))
         || Modularity(g, result) >= Modularity(g, Singletons(|g|)) + LOUVAIN_PASSES as real * Step(g)
  {
    hide Modularity, M2, Degree, LevelInvariant, Step, Settled, PassBelow, Passes, Respects, LabelsRespect, IsLabelling,
      ValidLevel, Gained;
    var n := |g|;
    var degree, m2 := ComputeDegrees(g);
    DegreeNonNeg(g);
    ghost var start := Singletons(n);
    var community := new nat[n](i => i);
    assert community[..] == start;
    InitialTotals(g, degree);
    if m2 == 0.0 {
      LevelKept(g, start, degree);
      return community[..];
    }
    StepPositive(g);
    var total := new real[n](i requires 0 <= i < n => degree[i]);
    assert total[..] == degree;
    ghost var gained := 0.0;
    GainedIs(0, Step(g));
    for pass := 0 to LOUVAIN_PASSES
      invariant LevelInvariant(g, community[..], total[..])
      invariant community.Length == n
      invariant Passes(g, start, LOUVAIN_PASSES) == Passes(g, community[..], LOUVAIN_PASSES - pass)
      invariant gained == Gained(pass, Step(g)) && gained >= 0.0
      invariant Modularity(g, community[..]) >= Modularity(g, start) + gained
      invariant community[..] == start || Modularity(g, community[..]) > Modularity(g, start)
    {
      PassesStep(g, community[..], LOUVAIN_PASSES - pass);
      var moved := LouvainPass(g, degree, m2, community, total);
      if !moved {
        break;
      }
      GainedMore(pass, Step(g));
      gained := gained + Step(g);
    }
    assert Gained(LOUVAIN_PASSES, Step(g)) == LOUVAIN_PASSES as real * Step(g) by { GainedIs(LOUVAIN_PASSES, Step(g)); }
    PassesStep(g, community[..], 0);
    LevelKept(g, community[..], total[..]);
    result := community[..];
  }
}
