// Collapsing the communities of a Louvain level into the nodes of the next.
module Aggregation {
  import opened Sums
  import opened Levels
  import opened Adjacency

  // Node i belongs to group groups[i]; -1 outside the level.
  ghost function GroupOf(groups: Partition): int -> int {
    i => if 0 <= i < |groups| then groups[i] as int else -1
  }

  // The part of matrix M from group a to group b.
  ghost function Block(M: (int, int) -> real, groups: Partition, a: int, b: int): (int, int) -> real {
    (i, j) => if GroupOf(groups)(i) == a && GroupOf(groups)(j) == b then M(i, j) else 0.0
  }

  ghost function BlockSum(n: nat, M: (int, int) -> real, groups: Partition): (int, int) -> real {
    (a, b) => Sum2(n, Block(M, groups, a, b))
  }

  ghost predicate IsGrouping(groups: Partition, n: nat, count: nat) {
    |groups| == n && forall i :: 0 <= i < n ==> groups[i] < count
  }

  // The next level's weights are the block sums of this level's.
  ghost predicate Aggregates(next: Level, g: Level, groups: Partition) {
    && IsGrouping(groups, |g|, |next|)
    && forall a, b :: 0 <= a < |next| && 0 <= b < |next| ==> B(next)(a, b) == BlockSum(|g|, B(g), groups)(a, b)
  }

  ghost function Where(C: (int, int) -> bool, M: (int, int) -> real): (int, int) -> real {
    (a, b) => if C(a, b) then M(a, b) else 0.0
  }

  ghost function ByGroup(C: (int, int) -> bool, groups: Partition): (int, int) -> bool {
    (i, j) => C(GroupOf(groups)(i), GroupOf(groups)(j))
  }

  // Row i of M, restricted to the groups that C relates to a.
  ghost function Towards(n: nat, C: (int, int) -> bool, M: (int, int) -> real, groups: Partition): (int, int) -> real {
    (a, i) => Sum(n, j => if C(a, GroupOf(groups)(j)) then M(i, j) else 0.0)
  }

  // What row i of M has for each group.
  ghost function RowBlock(n: nat, M: (int, int) -> real, groups: Partition): (int, int) -> real {
    (i, b) => Sum(n, j => if GroupOf(groups)(j) == b then M(i, j) else 0.0)
  }

  ghost function MemberRows(n: nat, M: (int, int) -> real, groups: Partition, a: int, b: int): int -> real {
    i => if GroupOf(groups)(i) == a then RowBlock(n, M, groups)(i, b) else 0.0
  }

  lemma BlockByRow(n: nat, M: (int, int) -> real, groups: Partition, a: int, b: int)
    ensures BlockSum(n, M, groups)(a, b) == Sum(n, MemberRows(n, M, groups, a, b))
  {
    forall i | 0 <= i < n
      ensures Rows(n, Block(M, groups, a, b))(i) == MemberRows(n, M, groups, a, b)(i)
    {
      if GroupOf(groups)(i) == a {
        SumExt(n, Row(Block(M, groups, a, b), i), j => if GroupOf(groups)(j) == b then M(i, j) else 0.0);
      } else {
        SumZero(n, Row(Block(M, groups, a, b), i));
      }
    }
    SumExt(n, Rows(n, Block(M, groups, a, b)), MemberRows(n, M, groups, a, b));
  }

  lemma RowByGroup(n: nat, count: nat, C: (int, int) -> bool, M: (int, int) -> real, groups: Partition, a: int, i: int)
    requires IsGrouping(groups, n, count)
    ensures Sum(count, b => if C(a, b) then RowBlock(n, M, groups)(i, b) else 0.0) == Towards(n, C, M, groups)(a, i)
  {
    var key := GroupOf(groups);
    var f: (int, int) -> real := (b, j) => if C(a, b) then M(i, j) else 0.0;
    var g := (b: int) => if C(a, b) then RowBlock(n, M, groups)(i, b) else 0.0;
    forall b | 0 <= b < count
      ensures g(b) == Rows(n, Fiber(key, f))(b)
    {
      if C(a, b) {
        SumExt(n, j => if key(j) == b then M(i, j) else 0.0, Row(Fiber(key, f), b));
      } else {
        SumZero(n, Row(Fiber(key, f), b));
      }
    }
    SumExt(count, g, Rows(n, Fiber(key, f)));
    SumFiber(n, count, key, f);
    SumExt(n, j => f(key(j), j), j => if C(a, key(j)) then M(i, j) else 0.0);
  }

  // One row of the block sums, as a sum over the members of group a.
  lemma BlockRow(n: nat, count: nat, C: (int, int) -> bool, M: (int, int) -> real, groups: Partition, a: int)
    requires IsGrouping(groups, n, count)
    ensures Sum(count, Row(Where(C, BlockSum(n, M, groups)), a))
         == Sum(n, Row(Fiber(GroupOf(groups), Towards(n, C, M, groups)), a))
  {
    hide BlockSum, RowBlock, Towards;
    var key := GroupOf(groups);
    var P: (int, int) -> real := (b, i) => if C(a, b) && key(i) == a then RowBlock(n, M, groups)(i, b) else 0.0;
    forall b | 0 <= b < count
      ensures Rows(n, P)(b) == Row(Where(C, BlockSum(n, M, groups)), a)(b)
    {
      BlockByRow(n, M, groups, a, b);
      if C(a, b) {
        SumExt(n, Row(P, b), MemberRows(n, M, groups, a, b));
      } else {
        SumZero(n, Row(P, b));
      }
    }
    SumExt(count, Rows(n, P), Row(Where(C, BlockSum(n, M, groups)), a));
    SumSwap(count, n, P);
    forall i | 0 <= i < n
      ensures Cols(count, P)(i) == Row(Fiber(key, Towards(n, C, M, groups)), a)(i)
    {
      if key(i) == a {
        RowByGroup(n, count, C, M, groups, a, i);
        SumExt(count, Col(P, i), b => if C(a, b) then RowBlock(n, M, groups)(i, b) else 0.0);
      } else {
        SumZero(count, Col(P, i));
      }
    }
    SumExt(n, Cols(count, P), Row(Fiber(key, Towards(n, C, M, groups)), a));
  }

  // Summing block sums over related groups is summing M over pairs of nodes
  // in related groups.
  lemma BlockTotal(n: nat, count: nat, C: (int, int) -> bool, M: (int, int) -> real, groups: Partition)
    requires IsGrouping(groups, n, count)
    ensures Sum2(count, Where(C, BlockSum(n, M, groups))) == Sum2(n, Where(ByGroup(C, groups), M))
  {
    hide BlockSum;
    var key, T := GroupOf(groups), Towards(n, C, M, groups);
    forall a | 0 <= a < count { BlockRow(n, count, C, M, groups, a); }
    SumExt(count, Rows(count, Where(C, BlockSum(n, M, groups))), Rows(n, Fiber(key, T)));
    SumFiber(n, count, key, T);
    forall i | 0 <= i < n
      ensures T(key(i), i) == Rows(n, Where(ByGroup(C, groups), M))(i)
    {
      SumExt(n, j => if C(key(i), key(j)) then M(i, j) else 0.0, Row(Where(ByGroup(C, groups), M), i));
    }
    SumExt(n, i => T(key(i), i), Rows(n, Where(ByGroup(C, groups), M)));
  }

  // Everything related to everything.
  ghost function Always(): (int, int) -> bool { (a, b) => true }

  ghost function ExcessOf(g: Level): (int, int) -> real { (i, j) => Excess(g, i, j) }

  // The degrees of the members of group a.
  ghost function GroupDegrees(g: Level, groups: Partition, a: int): int -> real {
    i => if GroupOf(groups)(i) == a then Degree(g, i) else 0.0
  }

  // The node of g that becomes part of node p[groups[i]] after both steps.
  function Compose(p: Partition, groups: Partition): (r: Partition)
    requires forall i :: 0 <= i < |groups| ==> groups[i] < |p|
    ensures |r| == |groups| && forall i :: 0 <= i < |r| ==> r[i] == p[groups[i]]
  {
    seq(|groups|, i requires 0 <= i < |groups| => p[groups[i]])
  }

  lemma TotalWeight(g: Level)
    ensures M2(g) == Sum2(|g|, B(g))
  {
    SumExt(|g|, Degrees(g), Rows(|g|, B(g)));
  }

  lemma AggregateDegree(next: Level, g: Level, groups: Partition, a: nat)
    requires Aggregates(next, g, groups) && a < |next|
    ensures Degree(next, a) == Sum(|g|, GroupDegrees(g, groups, a))
  {
    var n, count, T := |g|, |next|, Towards(|g|, Always(), B(g), groups);
    SumExt(count, Row(B(next), a), Row(Where(Always(), BlockSum(n, B(g), groups)), a));
    BlockRow(n, count, Always(), B(g), groups, a);
    forall i | 0 <= i < n
      ensures T(a, i) == Degree(g, i)
    {
      SumExt(n, j => if Always()(a, GroupOf(groups)(j)) then B(g)(i, j) else 0.0, Row(B(g), i));
    }
    SumExt(n, Row(Fiber(GroupOf(groups), T), a), GroupDegrees(g, groups, a));
  }

  // Aggregation keeps the total weight, self loops included.
  lemma AggregateWeight(next: Level, g: Level, groups: Partition)
    requires Aggregates(next, g, groups)
    ensures M2(next) == M2(g)
  {
    var n, count := |g|, |next|;
    TotalWeight(g);
    TotalWeight(next);
    BlockTotal(n, count, Always(), B(g), groups);
    Sum2Ext(count, B(next), Where(Always(), BlockSum(n, B(g), groups)));
    Sum2Ext(n, B(g), Where(ByGroup(Always(), groups), B(g)));
  }

  ghost function ExpectedFrom(g: Level, groups: Partition, i: int, b: int): int -> real
    requires M2(g) != 0.0
  {
    j => Ratio(GroupDegrees(g, groups, b)(j), Degree(g, i), M2(g))
  }

  lemma ExcessRow(next: Level, g: Level, groups: Partition, i: int, b: nat)
    requires Aggregates(next, g, groups) && b < |next| && M2(g) != 0.0
    ensures RowBlock(|g|, ExcessOf(g), groups)(i, b)
         == RowBlock(|g|, B(g), groups)(i, b) - Ratio(Degree(g, i), Degree(next, b), M2(g))
  {
    hide Ratio, Degree, M2;
    var n := |g|;
    var key := GroupOf(groups);
    forall j | 0 <= j < n
      ensures (if key(j) == b then ExcessOf(g)(i, j) else 0.0)
           == (if key(j) == b then B(g)(i, j) else 0.0) - ExpectedFrom(g, groups, i, b)(j)
    {
      var d := GroupDegrees(g, groups, b)(j);
      RatioLinear(d, d, Degree(g, i), M2(g));
      if key(j) != b {
        assert d == 0.0;
      }
    }
    SumSub(n, j => if key(j) == b then ExcessOf(g)(i, j) else 0.0,
           j => if key(j) == b then B(g)(i, j) else 0.0, ExpectedFrom(g, groups, i, b));
    SumRatio(n, ExpectedFrom(g, groups, i, b), GroupDegrees(g, groups, b), Degree(g, i), M2(g));
    AggregateDegree(next, g, groups, b);
    RatioLinear(Degree(next, b), 0.0, Degree(g, i), M2(g));
  }

  lemma ExcessBlock(next: Level, g: Level, groups: Partition, a: nat, b: nat)
    requires Aggregates(next, g, groups) && a < |next| && b < |next| && M2(g) != 0.0
    ensures Excess(next, a, b) == BlockSum(|g|, ExcessOf(g), groups)(a, b)
  {
    hide Ratio, Degree, M2, RowBlock, BlockSum;
    var n, E := |g|, ExcessOf(g);
    AggregateWeight(next, g, groups);
    BlockByRow(n, E, groups, a, b);
    BlockByRow(n, B(g), groups, a, b);
    var expected := (i: int) => Ratio(GroupDegrees(g, groups, a)(i), Degree(next, b), M2(g));
    forall i | 0 <= i < n
      ensures MemberRows(n, E, groups, a, b)(i) == MemberRows(n, B(g), groups, a, b)(i) - expected(i)
    {
      var d := GroupDegrees(g, groups, a)(i);
      RatioLinear(d, d, Degree(next, b), M2(g));
      if GroupOf(groups)(i) == a {
        ExcessRow(next, g, groups, i, b);
      } else {
        assert d == 0.0;
      }
    }
    SumSub(n, MemberRows(n, E, groups, a, b), MemberRows(n, B(g), groups, a, b), expected);
    SumRatio(n, expected, GroupDegrees(g, groups, a), Degree(next, b), M2(g));
    AggregateDegree(next, g, groups, a);
  }

  // Every partition of the aggregated level has the modularity of the
  // partition it induces on the level below.
  lemma AggregateModularity(next: Level, g: Level, groups: Partition, p: Partition)
    requires Aggregates(next, g, groups) && |p| == |next|
    ensures Modularity(next, p) == Modularity(g, Compose(p, groups))
  {
    hide Excess, M2, BlockSum;
    AggregateWeight(next, g, groups);
    if M2(g) != 0.0 {
      var n, count, E, q := |g|, |next|, ExcessOf(g), Compose(p, groups);
      var C: (int, int) -> bool := (a, b) => Same(p, a, b);
      forall a, b | 0 <= a < count && 0 <= b < count
        ensures Within(next, p)(a, b) == Where(C, BlockSum(n, E, groups))(a, b)
      {
        ExcessBlock(next, g, groups, a, b);
      }
      Sum2Ext(count, Within(next, p), Where(C, BlockSum(n, E, groups)));
      BlockTotal(n, count, C, E, groups);
      forall i, j | 0 <= i < n && 0 <= j < n
        ensures Where(ByGroup(C, groups), E)(i, j) == Within(g, q)(i, j)
      {
        assert GroupOf(groups)(i) == groups[i] && GroupOf(groups)(j) == groups[j];
        assert ByGroup(C, groups)(i, j) == Same(q, i, j);
      }
      Sum2Ext(n, Where(ByGroup(C, groups), E), Within(g, q));
    }
  }

  // The entries of row i that are summed into the pair (a, b).
  ghost function Feeds(groups: Partition, i: int, a: int, b: int): int -> bool {
    j => 0 <= i < |groups| && i <= j < |groups| && Key(groups[i], groups[j]) == (a, b)
  }

  ghost function Fed(g: Level, groups: Partition, a: int, b: int): int -> real {
    i => if 0 <= i < |g| then Picked(g[i], Feeds(groups, i, a, b)) else 0.0
  }

  ghost function Half(g: Level, groups: Partition, a: int, b: int): (int, int) -> real {
    (i, j) => if Feeds(groups, i, a, b)(j) then A(g, i, j) else 0.0
  }

  ghost function Transpose(P: (int, int) -> real): (int, int) -> real { (i, j) => P(j, i) }

  ghost function Plus(P: (int, int) -> real, Q: (int, int) -> real): (int, int) -> real { (i, j) => P(i, j) + Q(i, j) }

  lemma Sum2Transpose(n: nat, P: (int, int) -> real)
    ensures Sum2(n, Transpose(P)) == Sum2(n, P)
  {
    SumSwap(n, n, P);
    forall b | 0 <= b < n { SumExt(n, Col(P, b), Row(Transpose(P), b)); }
    SumExt(n, Cols(n, P), Rows(n, Transpose(P)));
  }

  lemma Sum2Plus(n: nat, P: (int, int) -> real, Q: (int, int) -> real)
    ensures Sum2(n, Plus(P, Q)) == Sum2(n, P) + Sum2(n, Q)
  {
    forall a | 0 <= a < n { SumAdd(n, Row(Plus(P, Q), a), Row(P, a), Row(Q, a)); }
    SumAdd(n, Rows(n, Plus(P, Q)), Rows(n, P), Rows(n, Q));
  }

  lemma FedIsHalf(g: Level, groups: Partition, a: int, b: int)
    requires ValidLevel(g) && |groups| == |g|
    ensures Sum(|g|, Fed(g, groups, a, b)) == Sum2(|g|, Half(g, groups, a, b))
  {
    var n := |g|;
    forall i | 0 <= i < n
      ensures Fed(g, groups, a, b)(i) == Rows(n, Half(g, groups, a, b))(i)
    {
      assert ValidRow(n, g[i]);
      PickedByNode(n, g[i], Feeds(groups, i, a, b));
      SumExt(n, ListedIf(g[i], Feeds(groups, i, a, b)), Row(Half(g, groups, a, b), i));
    }
    SumExt(n, Fed(g, groups, a, b), Rows(n, Half(g, groups, a, b)));
  }

  lemma HalfEntry(g: Level, groups: Partition, a: int, b: int, i: nat, j: nat)
    requires ValidLevel(g) && |groups| == |g| && i < |g| && j < |g| && a <= b
    ensures var P, Q := Block(B(g), groups, a, b), Block(B(g), groups, b, a);
      Half(g, groups, a, b)(i, j) + Half(g, groups, a, b)(j, i) == P(i, j) + if a == b then 0.0 else Q(i, j)
  {
    assert A(g, i, j) == A(g, j, i);
    assert Feeds(groups, i, a, b)(j) == (i <= j && Key(groups[i], groups[j]) == (a, b));
    assert Feeds(groups, j, a, b)(i) == (j <= i && Key(groups[j], groups[i]) == (a, b));
    var key := Key(groups[i], groups[j]);
    assert Half(g, groups, a, b)(i, j) == if i <= j && key == (a, b) then A(g, i, j) else 0.0;
    assert Half(g, groups, a, b)(j, i) == if j <= i && key == (a, b) then A(g, i, j) else 0.0;
    assert GroupOf(groups)(i) == groups[i] && GroupOf(groups)(j) == groups[j];
    assert B(g)(i, j) == if i == j then 2.0 * A(g, i, j) else A(g, i, j);
  }

  // Listing each pair of nodes once and self loops once gives the block sum
  // of the doubled-diagonal matrix: once between groups, half within one.
  lemma HalfIsBlock(g: Level, groups: Partition, a: int, b: int)
    requires ValidLevel(g) && |groups| == |g| && a <= b
    ensures (if a == b then 2.0 else 1.0) * Sum2(|g|, Half(g, groups, a, b)) == BlockSum(|g|, B(g), groups)(a, b)
    ensures BlockSum(|g|, B(g), groups)(a, b) == BlockSum(|g|, B(g), groups)(b, a)
  {
    hide A;
    var n, H, P, Q := |g|, Half(g, groups, a, b), Block(B(g), groups, a, b), Block(B(g), groups, b, a);
    Sum2Transpose(n, H);
    Sum2Plus(n, H, Transpose(H));
    Sum2Transpose(n, P);
    assert forall i, j :: B(g)(i, j) == B(g)(j, i);
    Sum2Ext(n, Transpose(P), Q);
    forall i: nat, j: nat | i < n && j < n { HalfEntry(g, groups, a, b, i, j); }
    if a == b {
      Sum2Ext(n, Plus(H, Transpose(H)), P);
    } else {
      Sum2Plus(n, P, Q);
      Sum2Ext(n, Plus(H, Transpose(H)), Plus(P, Q));
    }
  }

  // Some entry of g leads between the two groups of the key.
  ghost predicate Linked(g: Level, groups: Partition, key: (int, int)) {
    exists i, k :: 0 <= i < |g| == |groups| && 0 <= k < |g[i]| && g[i][k].to < |g|
      && Key(groups[i], groups[g[i][k].to]) == key
  }

  // What rows before i and the first k entries of row i have for pair (a, b).
  ghost function Collected(g: Level, groups: Partition, i: nat, k: nat, a: int, b: int): real
    requires i <= |g| && (i < |g| ==> k <= |g[i]|)
  {
    Sum(i, Fed(g, groups, a, b)) + if i < |g| then Picked(g[i][..k], Feeds(groups, i, a, b)) else 0.0
  }

  ghost predicate PairsSoFar(g: Level, groups: Partition, count: nat, pairs: Pairs, i: nat, k: nat)
    requires i <= |g| && (i < |g| ==> k <= |g[i]|)
  {
    && ValidPairs(pairs, count)
    && (forall key :: key in pairs ==> Linked(g, groups, key) && (PositiveWeights(g) ==> pairs[key] > 0.0))
    && (forall a, b :: a <= b ==> PairWeight(pairs, a, b) == Collected(g, groups, i, k, a, b))
  }

  lemma CollectEntry(g: Level, groups: Partition, i: nat, k: nat, a: int, b: int)
    requires i < |g| == |groups| && k < |g[i]| && g[i][k].to < |g|
    ensures Collected(g, groups, i, k + 1, a, b) == Collected(g, groups, i, k, a, b)
      + if i <= g[i][k].to && Key(groups[i], groups[g[i][k].to]) == (a, b) then g[i][k].w else 0.0
  {
    PickedSnoc(g[i], k, Feeds(groups, i, a, b));
  }

  lemma EntryLinks(g: Level, groups: Partition, i: nat, k: nat)
    requires i < |g| == |groups| && k < |g[i]| && g[i][k].to < |g|
    ensures var key := Key(groups[i], groups[g[i][k].to]); Linked(g, groups, key)
  {
  }

  lemma AddEntry(g: Level, groups: Partition, count: nat, was: Pairs, pairs: Pairs, i: nat, k: nat)
    requires ValidLevel(g) && IsGrouping(groups, |g|, count) && i < |g| && k < |g[i]|
    requires PairsSoFar(g, groups, count, was, i, k) && g[i][k].to < |g|
    requires var e := g[i][k]; var key := Key(groups[i], groups[e.to]);
      pairs == if i <= e.to then was[key := PairWeight(was, key.0, key.1) + e.w] else was
    ensures PairsSoFar(g, groups, count, pairs, i, k + 1)
  {
    hide Collected, Linked;
    assert ValidRow(|g|, g[i]);
    var e := g[i][k];
    var key := Key(groups[i], groups[e.to]);
    EntryLinks(g, groups, i, k);
    assert Key(key.0, key.1) == key && PairWeight(was, key.0, key.1) >= 0.0;
    forall a, b | a <= b
      ensures PairWeight(pairs, a, b) == Collected(g, groups, i, k + 1, a, b)
    {
      CollectEntry(g, groups, i, k, a, b);
      assert Key(a, b) == (a, b);
      assert PairWeight(was, a, b) == Collected(g, groups, i, k, a, b);
    }
  }

  lemma EndRow(g: Level, groups: Partition, count: nat, pairs: Pairs, i: nat)
    requires i < |g| && PairsSoFar(g, groups, count, pairs, i, |g[i]|)
    ensures PairsSoFar(g, groups, count, pairs, i + 1, 0)
  {
    assert g[i][..|g[i]|] == g[i];
    forall a, b | a <= b
      ensures Collected(g, groups, i, |g[i]|, a, b) == Collected(g, groups, i + 1, 0, a, b)
    {
    }
  }

  lemma NothingCollected(g: Level, groups: Partition, count: nat)
    ensures PairsSoFar(g, groups, count, map[], 0, 0)
  {
  }

  lemma PairsDone(g: Level, groups: Partition, count: nat, pairs: Pairs)
    requires PairsSoFar(g, groups, count, pairs, |g|, 0)
    ensures ValidPairs(pairs, count)
  {
  }

  lemma Aggregated(next: Level, g: Level, groups: Partition, pairs: Pairs)
    requires ValidLevel(g) && IsGrouping(groups, |g|, |next|) && PairsSoFar(g, groups, |next|, pairs, |g|, 0)
    requires forall a, b :: 0 <= a < |next| ==> A(next, a, b) == PairWeight(pairs, a, b)
    ensures Aggregates(next, g, groups)
    ensures ValidPairs(pairs, |next|) && forall key :: key in pairs ==> Linked(g, groups, key)
    ensures forall key :: key in pairs && PositiveWeights(g) ==> pairs[key] > 0.0
  {
    hide A, BlockSum, Linked;
    forall a, b | 0 <= a < |next| && 0 <= b < |next|
      ensures B(next)(a, b) == BlockSum(|g|, B(g), groups)(a, b)
    {
      var k := Key(a, b);
      HalfIsBlock(g, groups, k.0, k.1);
      FedIsHalf(g, groups, k.0, k.1);
      assert PairWeight(pairs, a, b) == PairWeight(pairs, k.0, k.1) == Collected(g, groups, |g|, 0, k.0, k.1);
    }
  }

  // The next level is determined by this one and the groups.
  lemma AggregateIsUnique(next: Level, other: Level, g: Level, groups: Partition)
    requires IsCanonical(next) && IsCanonical(other) && |next| == |other|
    requires Aggregates(next, g, groups) && Aggregates(other, g, groups)
    ensures next == other
  {
    hide A, BlockSum;
    forall a, b | 0 <= a < |next| && 0 <= b < |next|
      ensures A(next, a, b) == A(other, a, b)
    {
      assert B(next)(a, b) == B(other)(a, b);
    }
    CanonicalIsUnique(next, other);
  }

  // One node per group; weights between groups are summed, weights inside a
  // group become its self loop.
  method Aggregate(g: Level, groups: Partition, count: nat) returns (next: Level)
    requires ValidLevel(g) && IsGrouping(groups, |g|, count)
    ensures |next| == count && ValidLevel(next) && Aggregates(next, g, groups)
    ensures forall a, p :: 0 <= a < |next| && 0 <= p < |next[a]| ==> Linked(g, groups, Key(a, next[a][p].to))
    ensures PositiveWeights(g) ==> IsCanonical(next)
  {
    hide Linked, Aggregates, PairsSoFar;
    var pairs: Pairs := map[];
    var n := |g|;
    NothingCollected(g, groups, count);
    for i := 0 to n
      invariant PairsSoFar(g, groups, count, pairs, i, 0)
    {
      var row := g[i];
      assert ValidRow(n, row);
      for k := 0 to |row|
        invariant PairsSoFar(g, groups, count, pairs, i, k)
      {
        var e := row[k];
        ghost var was := pairs;
        if i <= e.to {
          var key := Key(groups[i], groups[e.to]);
          pairs := pairs[key := PairWeight(pairs, key.0, key.1) + e.w];
        }
        AddEntry(g, groups, count, was, pairs, i, k);
      }
      EndRow(g, groups, count, pairs, i);
    }
    assert ValidPairs(pairs, count) by { PairsDone(g, groups, count, pairs); }
    next := RowsFromPairs(count, pairs);
    Aggregated(next, g, groups, pairs);
  }
}
