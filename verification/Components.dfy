// Walks in a level: members of one community are joined by a walk.
module Components {
  import opened Levels
  import opened Communities

  ghost predicate Adjacent(g: Level, i: nat, j: nat) {
    i < |g| && exists p :: 0 <= p < |g[i]| && g[i][p].to == j
  }

  ghost predicate IsWalk(g: Level, walk: seq<nat>) {
    forall k :: 0 < k < |walk| ==> Adjacent(g, walk[k - 1], walk[k])
  }

  ghost predicate Connected(g: Level, i: nat, j: nat) {
    exists walk :: IsWalk(g, walk) && |walk| > 0 && walk[0] == i && walk[|walk| - 1] == j
  }

  lemma ConnectedStep(g: Level, i: nat, j: nat, k: nat)
    requires Connected(g, i, j) && Adjacent(g, j, k)
    ensures Connected(g, i, k)
  {
    var walk :| IsWalk(g, walk) && |walk| > 0 && walk[0] == i && walk[|walk| - 1] == j;
    assert IsWalk(g, walk + [k]);
  }

  lemma {:induction false} EntryWeight(row: seq<Link>, p: nat)
    requires p < |row| && forall k :: 0 <= k < |row| ==> row[k].w >= 0.0
    ensures Listed(row, row[p].to) >= row[p].w
  {
    var rest := row[..|row| - 1];
    if p < |rest| {
      EntryWeight(rest, p);
    } else {
      ListedNonNeg(rest, row[p].to);
    }
  }

  // Edges are listed at both ends.
  lemma AdjacentBack(g: Level, i: nat, j: nat)
    requires ValidLevel(g) && PositiveWeights(g) && Adjacent(g, i, j)
    ensures Adjacent(g, j, i)
  {
    var p :| 0 <= p < |g[i]| && g[i][p].to == j;
    assert ValidRow(|g|, g[i]);
    EntryWeight(g[i], p);
    assert A(g, i, j) == A(g, j, i) > 0.0;
    if !Adjacent(g, j, i) {
      UnlistedIsZero(g[j], i);
    }
  }

  ghost function ReachableFrom(g: Level, i: nat): seq<int> {
    seq(|g|, j requires 0 <= j < |g| => if Connected(g, i, j) then 1 else 0)
  }

  lemma ReachableRespects(g: Level, i: nat)
    requires ValidLevel(g) && PositiveWeights(g)
    ensures Respects(g, ReachableFrom(g, i))
  {
    hide Connected;
    forall k, p | 0 <= k < |g| && 0 <= p < |g[k]| && g[k][p].to < |g|
      ensures Connected(g, i, g[k][p].to) <==> Connected(g, i, k)
    {
      var to := g[k][p].to;
      assert Adjacent(g, k, to);
      AdjacentBack(g, k, to);
      if Connected(g, i, k) {
        ConnectedStep(g, i, k, to);
      }
      if Connected(g, i, to) {
        ConnectedStep(g, i, to, k);
      }
    }
  }

  lemma CommunitiesAreJoined(g: Level, membership: Partition, i: nat, j: nat)
    requires ValidLevel(g) && PositiveWeights(g)
    requires WithinComponents(g, membership) && Same(membership, i, j)
    ensures Connected(g, i, j)
  {
    var comp := ReachableFrom(g, i);
    ReachableRespects(g, i);
    assert IsWalk(g, [i]) && Connected(g, i, i);
    assert comp[i] == comp[j];
  }
}
