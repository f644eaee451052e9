// Building symmetric adjacency lists from a map of weighted node pairs.
module Adjacency {
  import opened Levels

  type Pairs = map<(int, int), real>

  // An unordered pair, smaller node first.
  function Key(i: int, j: int): (int, int) {
    if i <= j then (i, j) else (j, i)
  }

  function PairWeight(pairs: Pairs, i: int, j: int): real {
    if Key(i, j) in pairs then pairs[Key(i, j)] else 0.0
  }

  ghost predicate ValidPairs(pairs: Pairs, n: nat) {
    forall k :: k in pairs ==> 0 <= k.0 <= k.1 < n && pairs[k] >= 0.0
  }

  // Pair k is listed before pair (a, b) in key order.
  ghost predicate Before(k: (int, int), a: int, b: int) {
    k.0 < a || (k.0 == a && k.1 < b)
  }

  // Neighbours are listed in ascending order.
  ghost predicate Ascending(row: seq<Link>) {
    forall p, q :: 0 <= p < q < |row| ==> row[p].to < row[q].to
  }

  // No weight is zero, and neighbours ascend: the weights determine the lists.
  ghost predicate IsCanonical(g: Level) {
    ValidLevel(g) && PositiveWeights(g) && forall i :: 0 <= i < |g| ==> Ascending(g[i])
  }

  // In a row without repeated neighbours the listed weight is the entry's.
  lemma {:induction false} SingleEntry(n: nat, row: seq<Link>, p: nat)
    requires ValidRow(n, row) && p < |row|
    ensures Listed(row, row[p].to) == row[p].w
  {
    var rest := row[..|row| - 1];
    if p < |rest| {
      SingleEntry(n, rest, p);
    } else {
      UnlistedIsZero(rest, row[p].to);
    }
  }

  lemma PositiveIfListed(n: nat, row: seq<Link>, j: int)
    requires ValidRow(n, row) && forall p :: 0 <= p < |row| ==> row[p].w > 0.0
    ensures Listed(row, j) > 0.0 <==> exists p :: 0 <= p < |row| && row[p].to == j
    ensures Listed(row, j) >= 0.0
  {
    if p :| 0 <= p < |row| && row[p].to == j {
      SingleEntry(n, row, p);
    } else {
      UnlistedIsZero(row, j);
    }
  }

  lemma LastIsSame(n: nat, r: seq<Link>, s: seq<Link>)
    requires ValidRow(n, r) && ValidRow(n, s) && Ascending(r) && Ascending(s) && r != [] && s != []
    requires (forall p :: 0 <= p < |r| ==> r[p].w > 0.0) && forall p :: 0 <= p < |s| ==> s[p].w > 0.0
    requires forall j :: Listed(r, j) == Listed(s, j)
    ensures r[|r| - 1] == s[|s| - 1]
  {
    PositiveIfListed(n, r, r[|r| - 1].to);
    PositiveIfListed(n, s, r[|r| - 1].to);
    PositiveIfListed(n, r, s[|s| - 1].to);
    PositiveIfListed(n, s, s[|s| - 1].to);
    SingleEntry(n, r, |r| - 1);
    SingleEntry(n, s, |s| - 1);
    hide Listed;
    assert r[|r| - 1].to <= s[|s| - 1].to && s[|s| - 1].to <= r[|r| - 1].to;
  }

  // A row is determined by the weights it lists.
  lemma {:induction false} RowIsUnique(n: nat, r: seq<Link>, s: seq<Link>)
    requires ValidRow(n, r) && ValidRow(n, s) && Ascending(r) && Ascending(s)
    requires (forall p :: 0 <= p < |r| ==> r[p].w > 0.0) && forall p :: 0 <= p < |s| ==> s[p].w > 0.0
    requires forall j :: Listed(r, j) == Listed(s, j)
    ensures r == s
  {
    if r == [] || s == [] {
      if r != [] {
        PositiveIfListed(n, r, r[0].to);
        PositiveIfListed(n, s, r[0].to);
      }
      if s != [] {
        PositiveIfListed(n, s, s[0].to);
        PositiveIfListed(n, r, s[0].to);
      }
    } else {
      LastIsSame(n, r, s);
      var before, before' := r[..|r| - 1], s[..|s| - 1];
      forall j
        ensures Listed(before, j) == Listed(before', j)
      {
        assert Listed(r, j) == Listed(s, j);
      }
      RowIsUnique(n, before, before');
      assert r == before + [r[|r| - 1]] && s == before' + [s[|s| - 1]];
    }
  }

  lemma CanonicalIsUnique(g: Level, h: Level)
    requires IsCanonical(g) && IsCanonical(h) && |g| == |h|
    requires forall i, j :: 0 <= i < |g| && 0 <= j < |g| ==> A(g, i, j) == A(h, i, j)
    ensures g == h
  {
    forall i | 0 <= i < |g|
      ensures g[i] == h[i]
    {
      forall j
        ensures Listed(g[i], j) == Listed(h[i], j)
      {
        if 0 <= j < |g| {
          assert A(g, i, j) == A(h, i, j);
        } else {
          UnlistedIsZero(g[i], j);
          UnlistedIsZero(h[i], j);
        }
      }
      RowIsUnique(|g|, g[i], h[i]);
    }
  }

  ghost predicate IsEntry(e: Link, pairs: Pairs, i: nat) {
    Key(i, e.to) in pairs && e.w == pairs[Key(i, e.to)]
  }

  ghost predicate RowSoFar(row: seq<Link>, pairs: Pairs, n: nat, i: nat, a: int, b: int) {
    && ValidRow(n, row) && Ascending(row)
    && (forall p :: 0 <= p < |row| ==> IsEntry(row[p], pairs, i) && Before(Key(i, row[p].to), a, b))
    && (forall j :: Listed(row, j) == if Before(Key(i, j), a, b) then PairWeight(pairs, i, j) else 0.0)
  }

  ghost predicate RowsSoFar(rows: Level, pairs: Pairs, n: nat, a: int, b: int) {
    |rows| == n && forall i :: 0 <= i < n ==> RowSoFar(rows[i], pairs, n, i, a, b)
  }

  lemma Push(row: seq<Link>, pairs: Pairs, n: nat, i: nat, a: int, b: int, to: nat)
    requires RowSoFar(row, pairs, n, i, a, b) && ValidPairs(pairs, n)
    requires Key(i, to) == (a, b) && (a, b) in pairs && to < n
    ensures RowSoFar(row + [Link(to, pairs[(a, b)])], pairs, n, i, a, b + 1)
  {
    var row' := row + [Link(to, pairs[(a, b)])];
    assert row'[..|row|] == row;
    forall j
      ensures Listed(row', j) == if Before(Key(i, j), a, b + 1) then PairWeight(pairs, i, j) else 0.0
    {
      PickedSnoc(row', |row|, Only(j));
      assert row'[..|row| + 1] == row';
    }
  }

  lemma Skip(row: seq<Link>, pairs: Pairs, n: nat, i: nat, a: int, b: int)
    requires RowSoFar(row, pairs, n, i, a, b)
    requires (i != a && i != b) || (a, b) !in pairs
    requires a <= b
    ensures RowSoFar(row, pairs, n, i, a, b + 1)
  {
  }

  lemma NextRow(row: seq<Link>, pairs: Pairs, n: nat, i: nat, a: int)
    requires RowSoFar(row, pairs, n, i, a, n) && ValidPairs(pairs, n)
    ensures RowSoFar(row, pairs, n, i, a + 1, a + 1)
  {
  }

  // One row per node; every pair is listed at both its ends, a self loop
  // once. Pairs are visited in key order.
  method RowsFromPairs(n: nat, pairs: Pairs) returns (rows: Level)
    requires ValidPairs(pairs, n)
    ensures ValidLevel(rows) && |rows| == n
    ensures forall i, j :: 0 <= i < n ==> A(rows, i, j) == PairWeight(pairs, i, j)
    ensures forall i, p :: 0 <= i < n && 0 <= p < |rows[i]| ==> Key(i, rows[i][p].to) in pairs
    ensures (forall k :: k in pairs ==> pairs[k] > 0.0) ==> IsCanonical(rows)
  {
    hide RowSoFar;
    rows := seq(n, i => []);
    InitialRows(pairs, n);
    for a := 0 to n
      invariant RowsSoFar(rows, pairs, n, a, a)
    {
      for b := a to n
        invariant RowsSoFar(rows, pairs, n, a, b)
      {
        ghost var was := rows;
        if (a, b) in pairs {
          rows := rows[a := rows[a] + [Link(b, pairs[(a, b)])]];
          if a != b {
            rows := rows[b := rows[b] + [Link(a, pairs[(a, b)])]];
          }
        }
        forall i | 0 <= i < n
          ensures RowSoFar(rows[i], pairs, n, i, a, b + 1)
        {
          if (a, b) in pairs && i == a {
            Push(was[i], pairs, n, i, a, b, b);
          } else if (a, b) in pairs && i == b {
            Push(was[i], pairs, n, i, a, b, a);
          } else {
            Skip(was[i], pairs, n, i, a, b);
          }
        }
      }
      forall i | 0 <= i < n { NextRow(rows[i], pairs, n, i, a); }
    }
    RowsDone(rows, pairs, n);
  }

  lemma InitialRows(pairs: Pairs, n: nat)
    requires ValidPairs(pairs, n)
    ensures forall i: nat :: RowSoFar([], pairs, n, i, 0, 0)
  {
    forall i: nat
      ensures RowSoFar([], pairs, n, i, 0, 0)
    {
      forall j { UnlistedIsZero([], j); }
    }
  }

  lemma RowsDone(rows: Level, pairs: Pairs, n: nat)
    requires RowsSoFar(rows, pairs, n, n, n) && ValidPairs(pairs, n)
    ensures ValidLevel(rows)
    ensures forall i, j :: 0 <= i < n ==> A(rows, i, j) == PairWeight(pairs, i, j)
    ensures forall i, p :: 0 <= i < n && 0 <= p < |rows[i]| ==> Key(i, rows[i][p].to) in pairs
    ensures (forall k :: k in pairs ==> pairs[k] > 0.0) ==> IsCanonical(rows)
  {
    forall i, p | 0 <= i < n && 0 <= p < |rows[i]|
      ensures IsEntry(rows[i][p], pairs, i)
    {
      assert RowSoFar(rows[i], pairs, n, i, n, n);
    }
    forall i, j
      ensures A(rows, i, j) == PairWeight(pairs, i, j)
    {
    }
    forall i, j
      ensures A(rows, i, j) == A(rows, j, i)
    {
      assert A(rows, i, j) == PairWeight(pairs, i, j) && A(rows, j, i) == PairWeight(pairs, j, i);
    }
  }
}
