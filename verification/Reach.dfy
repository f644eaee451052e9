// Distances in a graph given by its adjacency relation, and what a
// breadth-first search knows between two steps.
module Reach {
  import opened Sorting

  // v is at most d steps from c.
  ghost predicate Within<V(!new)>(adj: (V, V) -> bool, c: V, v: V, d: nat) {
    if d == 0 then v == c
    else Within(adj, c, v, d - 1) || exists u :: Within(adj, c, u, d - 1) && adj(u, v)
  }

  // The node before the last step, or the last one itself if it is nearer.
  lemma StepBefore<V(!new)>(adj: (V, V) -> bool, c: V, v: V, d: nat) returns (u: V)
    requires d > 0 && Within(adj, c, v, d)
    ensures Within(adj, c, u, d - 1) && (u == v || adj(u, v))
  {
    if Within(adj, c, v, d - 1) {
      u := v;
    } else {
      u :| Within(adj, c, u, d - 1) && adj(u, v);
    }
  }

  lemma NoStep<V(!new)>(adj: (V, V) -> bool, c: V, v: V)
    ensures Within(adj, c, v, 0) <==> v == c
  {
  }

  ghost predicate IsWalk<V(!new)>(adj: (V, V) -> bool, w: seq<V>) {
    forall k :: 0 < k < |w| ==> adj(w[k - 1], w[k])
  }

  ghost predicate Joins<V(!new)>(adj: (V, V) -> bool, w: seq<V>, c: V, v: V) {
    IsWalk(adj, w) && |w| > 0 && w[0] == c && w[|w| - 1] == v
  }

  // Being within d steps is being joined by a walk of at most d steps.
  lemma {:induction false} WithinIsWalk<V(!new)>(adj: (V, V) -> bool, c: V, v: V, d: nat)
    ensures Within(adj, c, v, d) <==> exists w :: Joins(adj, w, c, v) && |w| <= d + 1
  {
    if Within(adj, c, v, d) {
      if v == c {
        assert Joins(adj, [c], c, v);
      } else if Within(adj, c, v, d - 1) {
        WithinIsWalk(adj, c, v, d - 1);
      } else {
        var u :| Within(adj, c, u, d - 1) && adj(u, v);
        WithinIsWalk(adj, c, u, d - 1);
        var w :| Joins(adj, w, c, u) && |w| <= d;
        assert Joins(adj, w + [v], c, v);
      }
    }
    if w :| Joins(adj, w, c, v) && |w| <= d + 1 {
      WalkIsWithin(adj, w, c, v);
      WithinMonotone(adj, c, v, |w| - 1, d);
    }
  }

  lemma {:induction false} WalkIsWithin<V(!new)>(adj: (V, V) -> bool, w: seq<V>, c: V, v: V)
    requires Joins(adj, w, c, v)
    ensures Within(adj, c, v, |w| - 1)
    decreases |w|
  {
    if |w| > 1 {
      var init := w[..|w| - 1];
      WalkIsWithin(adj, init, c, init[|init| - 1]);
    }
  }

  lemma {:induction false} WithinMonotone<V(!new)>(adj: (V, V) -> bool, c: V, v: V, d: nat, e: nat)
    requires Within(adj, c, v, d) && d <= e
    ensures Within(adj, c, v, e)
  {
    if d < e {
      WithinMonotone(adj, c, v, d, e - 1);
    }
  }

  // The length of the shortest walk from c to v.
  ghost predicate IsDistance<V(!new)>(adj: (V, V) -> bool, c: V, v: V, d: nat) {
    Within(adj, c, v, d) && (d > 0 ==> !Within(adj, c, v, d - 1))
  }

  lemma DistanceIsLeast<V(!new)>(adj: (V, V) -> bool, c: V, v: V, d: nat, e: nat)
    requires IsDistance(adj, c, v, d)
    ensures Within(adj, c, v, e) <==> d <= e
  {
    if d <= e {
      WithinMonotone(adj, c, v, d, e);
    } else if Within(adj, c, v, e) {
      WithinMonotone(adj, c, v, e, d - 1);
    }
  }

  // Everything found lies at its recorded distance, at most the limit, and
  // nothing nearer was missed.
  ghost predicate Found<V(!new)>(adj: (V, V) -> bool, c: V, limit: nat, dist: map<V, nat>) {
    && c in dist
    && (forall v :: v in dist ==> IsDistance(adj, c, v, dist[v]) && dist[v] <= limit)
    && (forall u, v :: v in dist && dist[v] > 0 && Within(adj, c, u, dist[v] - 1) ==> u in dist)
  }

  // The queue is in order of distance and spans at most two layers.
  ghost predicate IsFrontier<V(!new)>(dist: map<V, nat>, queue: seq<V>) {
    && Distinct(queue)
    && (forall k :: 0 <= k < |queue| ==> queue[k] in dist)
    && (forall j, k :: 0 <= j < k < |queue| ==> dist[queue[j]] <= dist[queue[k]] <= dist[queue[0]] + 1)
  }

  // All neighbours of what left the queue below the limit are found.
  ghost predicate Closed<V(!new)>(adj: (V, V) -> bool, limit: nat, dist: map<V, nat>, queue: seq<V>) {
    forall v, w :: v in dist && v !in queue && dist[v] < limit && adj(v, w) ==> w in dist
  }

  ghost predicate BfsState<V(!new)>(adj: (V, V) -> bool, c: V, limit: nat, dist: map<V, nat>, queue: seq<V>,
                             full: bool) {
    Found(adj, c, limit, dist) && IsFrontier(dist, queue) && (full || Closed(adj, limit, dist, queue))
  }

  lemma BfsInit<V(!new)>(adj: (V, V) -> bool, c: V, limit: nat)
    ensures BfsState(adj, c, limit, map[c := 0], [c], false)
  {
  }

  lemma ExpandedNeighbour<V(!new)>(adj: (V, V) -> bool, c: V, limit: nat, dist: map<V, nat>, queue: seq<V>, x: V, u: V,
                                   d: nat)
    requires BfsState(adj, c, limit, dist, queue, false) && x in dist && adj(x, u) && d > 0
    requires d <= if queue == [] then limit else dist[queue[0]]
    requires Within(adj, c, x, d - 1)
    ensures u in dist
  {
    DistanceIsLeast(adj, c, x, dist[x], d - 1);
    hide Within, IsDistance;
    assert x !in queue;
  }

  // Up to the distance of the queue's head, or up to the limit when the queue
  // is empty, everything is found.
  lemma {:induction false} NearIsFound<V(!new)>(adj: (V, V) -> bool, c: V, limit: nat, dist: map<V, nat>,
                                         queue: seq<V>, u: V, d: nat)
    requires BfsState(adj, c, limit, dist, queue, false)
    requires d <= if queue == [] then limit else dist[queue[0]]
    requires Within(adj, c, u, d)
    ensures u in dist
    decreases d
  {
    NoStep(adj, c, u);
    if d > 0 {
      var x := StepBefore(adj, c, u, d);
      NearIsFound(adj, c, limit, dist, queue, x, d - 1);
      if x != u {
        ExpandedNeighbour(adj, c, limit, dist, queue, x, u, d);
      }
    }
  }

  ghost function Extend<V>(dist: map<V, nat>, more: seq<V>, d: nat): map<V, nat> {
    map v | v in dist.Keys + (set k | 0 <= k < |more| :: more[k]) :: if v in dist then dist[v] else d
  }

  // Neighbours of v not found before, each once.
  ghost predicate AreNew<V(!new)>(adj: (V, V) -> bool, dist: map<V, nat>, v: V, more: seq<V>) {
    Distinct(more) && forall k :: 0 <= k < |more| ==> adj(v, more[k]) && more[k] !in dist
  }

  lemma NewDistance<V(!new)>(adj: (V, V) -> bool, c: V, limit: nat, dist: map<V, nat>, queue: seq<V>, w: V)
    requires BfsState(adj, c, limit, dist, queue, false) && queue != []
    requires adj(queue[0], w) && w !in dist
    ensures IsDistance(adj, c, w, dist[queue[0]] + 1)
  {
    var v := queue[0];
    assert Within(adj, c, v, dist[v]);
    if Within(adj, c, w, dist[v]) {
      NearIsFound(adj, c, limit, dist, queue, w, dist[v]);
    }
  }

  lemma ExpandFound<V(!new)>(adj: (V, V) -> bool, c: V, limit: nat, dist: map<V, nat>, queue: seq<V>, more: seq<V>)
    requires BfsState(adj, c, limit, dist, queue, false) && queue != []
    requires AreNew(adj, dist, queue[0], more) && dist[queue[0]] < limit
    ensures Found(adj, c, limit, Extend(dist, more, dist[queue[0]] + 1))
  {
    hide Within, IsDistance, Closed;
    var d := dist[queue[0]];
    var next := Extend(dist, more, d + 1);
    forall v | v in next
      ensures IsDistance(adj, c, v, next[v]) && next[v] <= limit
    {
      if v !in dist {
        NewDistance(adj, c, limit, dist, queue, v);
      }
    }
    forall u, v | v in next && next[v] > 0 && Within(adj, c, u, next[v] - 1)
      ensures u in next
    {
      if v !in dist {
        NearIsFound(adj, c, limit, dist, queue, u, d);
      }
    }
  }

  // The head of the queue is expanded: new neighbours join the queue, all of
  // them unless the search is full.
  lemma BfsExpand<V(!new)>(adj: (V, V) -> bool, c: V, limit: nat, dist: map<V, nat>, queue: seq<V>, more: seq<V>,
                    full: bool, full': bool)
    requires BfsState(adj, c, limit, dist, queue, full) && queue != []
    requires AreNew(adj, dist, queue[0], more) && dist[queue[0]] < limit
    requires (full ==> more == [] && full')
    requires full' || forall w :: adj(queue[0], w) ==> w in dist || w in more
    ensures BfsState(adj, c, limit, Extend(dist, more, dist[queue[0]] + 1), queue[1..] + more, full')
  {
    var v, next, rest := queue[0], Extend(dist, more, dist[queue[0]] + 1), queue[1..] + more;
    assert queue == [v] + queue[1..];
    if full {
      assert next == dist && rest == queue[1..];
    } else {
      ExpandFound(adj, c, limit, dist, queue, more);
    }
    assert IsFrontier(next, rest) by { ExpandFrontier(dist, queue, more); }
  }

  lemma ExpandFrontier<V(!new)>(dist: map<V, nat>, queue: seq<V>, more: seq<V>)
    requires IsFrontier(dist, queue) && queue != []
    requires Distinct(more) && forall k :: 0 <= k < |more| ==> more[k] !in dist
    ensures IsFrontier(Extend(dist, more, dist[queue[0]] + 1), queue[1..] + more)
  {
  }

  // A node at the limit is not expanded.
  lemma BfsSkip<V(!new)>(adj: (V, V) -> bool, c: V, limit: nat, dist: map<V, nat>, queue: seq<V>, full: bool)
    requires BfsState(adj, c, limit, dist, queue, full) && queue != [] && dist[queue[0]] >= limit
    ensures BfsState(adj, c, limit, dist, queue[1..], full)
  {
    assert queue == [queue[0]] + queue[1..];
  }

  // When the queue runs empty, exactly what is within the limit is found.
  lemma BfsDone<V(!new)>(adj: (V, V) -> bool, c: V, limit: nat, dist: map<V, nat>)
    requires BfsState(adj, c, limit, dist, [], false)
    ensures forall v :: v in dist <==> Within(adj, c, v, limit)
  {
    forall v
      ensures v in dist <==> Within(adj, c, v, limit)
    {
      if v in dist {
        DistanceIsLeast(adj, c, v, dist[v], limit);
      }
      if Within(adj, c, v, limit) {
        NearIsFound(adj, c, limit, dist, [], v, limit);
      }
    }
  }
}
