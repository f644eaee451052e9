// The entity graph as an undirected weighted graph over its sorted names.
module Undirected {
  import opened Levels
  import opened Adjacency
  import opened Sorting
  import opened Types

  // The weight a relation adds between entities a and b.
  function WeightBetween(r: Relation, a: string, b: string): real {
    if (r.from == a && r.to == b) || (r.from == b && r.to == a) then r.kind.Weight() else 0.0
  }

  // Each pair's weight is the sum of its relations' weights, in either direction.
  function PairTotal(rels: seq<Relation>, a: string, b: string): real {
    if rels == [] then 0.0
    else PairTotal(rels[..|rels| - 1], a, b) + WeightBetween(rels[|rels| - 1], a, b)
  }

  // g is the undirected graph of the relations over the named nodes:
  // relations with unknown endpoints and self relations do not count.
  ghost predicate IsUndirected(g: Level, names: seq<string>, rels: seq<Relation>) {
    && IsCanonical(g) && |g| == |names|
    && (forall i, j :: 0 <= i < |names| && 0 <= j < |names| && i != j ==>
         A(g, i, j) == PairTotal(rels, names[i], names[j]))
    && (forall i, p :: 0 <= i < |g| && 0 <= p < |g[i]| ==> g[i][p].to != i)
  }

  method IndexNames(names: seq<string>) returns (index: map<string, nat>)
    requires Distinct(names)
    ensures Indexes(index, names)
  {
    index := map[];
    for i := 0 to |names|
      invariant forall k :: 0 <= k < i ==> names[k] in index && index[names[k]] == k
      invariant forall n :: n in index ==> index[n] < i && names[index[n]] == n
    {
      index := index[names[i] := i];
    }
  }

  ghost predicate PairsOf(pairs: Pairs, names: seq<string>, rels: seq<Relation>) {
    && ValidPairs(pairs, |names|)
    && (forall k :: k in pairs ==> k.0 != k.1 && pairs[k] > 0.0)
    && (forall i, j :: 0 <= i < j < |names| ==> PairWeight(pairs, i, j) == PairTotal(rels, names[i], names[j]))
  }

  ghost predicate Indexes(index: map<string, nat>, names: seq<string>) {
    && (forall i :: 0 <= i < |names| ==> names[i] in index && index[names[i]] == i)
    && (forall n :: n in index ==> index[n] < |names| && names[index[n]] == n)
  }

  function AddPair(pairs: Pairs, index: map<string, nat>, r: Relation): Pairs {
    if r.from in index && r.to in index && index[r.from] != index[r.to] then
      var key := Key(index[r.from], index[r.to]);
      pairs[key := PairWeight(pairs, key.0, key.1) + r.kind.Weight()]
    else
      pairs
  }

  lemma AddRelation(names: seq<string>, index: map<string, nat>, rels: seq<Relation>, r: Relation, pairs: Pairs)
    requires Indexes(index, names) && PairsOf(pairs, names, rels)
    ensures PairsOf(AddPair(pairs, index, r), names, rels + [r])
  {
    var all := rels + [r];
    assert all[..|all| - 1] == rels;
    forall i, j | 0 <= i < j < |names|
      ensures PairWeight(AddPair(pairs, index, r), i, j) == PairTotal(all, names[i], names[j])
    {
      assert PairWeight(pairs, i, j) == PairTotal(rels, names[i], names[j]);
      assert index[names[i]] == i && index[names[j]] == j;
    }
  }

  method CollectPairs(names: seq<string>, index: map<string, nat>, rels: seq<Relation>) returns (pairs: Pairs)
    requires Indexes(index, names)
    ensures PairsOf(pairs, names, rels)
  {
    pairs := map[];
    for k := 0 to |rels|
      invariant PairsOf(pairs, names, rels[..k])
    {
      AddRelation(names, index, rels[..k], rels[k], pairs);
      assert rels[..k + 1] == rels[..k] + [rels[k]];
      pairs := AddPair(pairs, index, rels[k]);
    }
    assert rels[..|rels|] == rels;
  }

  lemma {:induction false} PairTotalSymmetric(rels: seq<Relation>, a: string, b: string)
    ensures PairTotal(rels, a, b) == PairTotal(rels, b, a)
  {
    if rels != [] {
      PairTotalSymmetric(rels[..|rels| - 1], a, b);
    }
  }

  method BuildUndirected(names: seq<string>, rels: seq<Relation>) returns (g: Level)
    requires Distinct(names)
    ensures IsUndirected(g, names, rels)
  {
    var index := IndexNames(names);
    var pairs := CollectPairs(names, index, rels);
    g := RowsFromPairs(|names|, pairs);
    forall i, j | 0 <= i < |names| && 0 <= j < |names| && i != j
      ensures A(g, i, j) == PairTotal(rels, names[i], names[j])
    {
      PairTotalSymmetric(rels, names[i], names[j]);
      assert PairWeight(pairs, i, j) == PairWeight(pairs, j, i);
    }
    forall i, p | 0 <= i < |g| && 0 <= p < |g[i]|
      ensures g[i][p].to != i
    {
      assert Key(i, g[i][p].to) in pairs;
    }
  }

  lemma {:induction false} PairTotalWithout(rels: seq<Relation>, k: nat, a: string, b: string)
    requires k < |rels|
    ensures PairTotal(rels, a, b) == PairTotal(rels[..k] + rels[k + 1..], a, b) + WeightBetween(rels[k], a, b)
  {
    hide WeightBetween;
    var rest := rels[..|rels| - 1];
    if k == |rest| {
      assert rels[..k] + rels[k + 1..] == rest;
    } else {
      PairTotalWithout(rest, k, a, b);
      var less := rels[..k] + rels[k + 1..];
      assert less[..|less| - 1] == rest[..k] + rest[k + 1..] && less[|less| - 1] == rels[|rels| - 1];
      assert rest[k] == rels[k];
    }
  }

  // The weight between two entities does not depend on the order of the
  // relations.
  lemma {:induction false} PairTotalOfAny(rels: seq<Relation>, other: seq<Relation>, a: string, b: string)
    requires Distinct(rels) && Distinct(other) && forall r :: r in rels <==> r in other
    ensures PairTotal(rels, a, b) == PairTotal(other, a, b)
    decreases |rels|
  {
    hide WeightBetween;
    assert forall k :: 0 <= k < |other| ==> other[k] in rels;
    if rels != [] {
      var rest, last := rels[..|rels| - 1], rels[|rels| - 1];
      assert last in rels && last in other;
      var k :| 0 <= k < |other| && other[k] == last;
      var less := other[..k] + other[k + 1..];
      SameWithoutLast(rels, other, k);
      PairTotalOfAny(rest, less, a, b);
      PairTotalWithout(other, k, a, b);
    }
  }

  lemma SameWithoutLast(rels: seq<Relation>, other: seq<Relation>, k: nat)
    requires Distinct(rels) && Distinct(other) && forall r :: r in rels <==> r in other
    requires rels != [] && k < |other| && other[k] == rels[|rels| - 1]
    ensures var less := other[..k] + other[k + 1..];
      Distinct(less) && forall r :: r in rels[..|rels| - 1] <==> r in less
  {
    var rest, less := rels[..|rels| - 1], other[..k] + other[k + 1..];
    assert rels == rest + [other[k]] && other == other[..k] + [other[k]] + other[k + 1..];
    forall r
      ensures r in rest <==> r in less
    {
      assert r in rest ==> r in rels && r != other[k];
      assert r in less ==> r in other && r != other[k];
    }
  }

  // The undirected graph is determined by the names and the set of relations.
  lemma UndirectedIsUnique(g: Level, h: Level, names: seq<string>, rels: seq<Relation>, other: seq<Relation>)
    requires IsUndirected(g, names, rels) && IsUndirected(h, names, other)
    requires Distinct(rels) && Distinct(other) && forall r :: r in rels <==> r in other
    ensures g == h
  {
    forall i, j | 0 <= i < |g| && 0 <= j < |g|
      ensures A(g, i, j) == A(h, i, j)
    {
      if i == j {
        UnlistedIsZero(g[i], i);
        UnlistedIsZero(h[i], i);
      } else {
        PairTotalOfAny(rels, other, names[i], names[j]);
      }
    }
    CanonicalIsUnique(g, h);
  }
}
