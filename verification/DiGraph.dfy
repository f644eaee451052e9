// The directed multigraph under the entity graph: dense node indices, and
// removal that moves the last node into the hole.
module DiGraph {
  import opened Types
  import opened Sorting

  datatype Edge = Edge(src: nat, dst: nat, kind: RelationType, context: string)

  datatype Graph = Graph(nodes: seq<string>, edges: seq<Edge>)

  predicate Parallel(a: Edge, b: Edge) {
    a.src == b.src && a.dst == b.dst && a.kind == b.kind
  }

  predicate SameTriple(a: Relation, b: Relation) {
    a.from == b.from && a.to == b.to && a.kind == b.kind
  }

  ghost predicate NoParallel(edges: seq<Edge>) {
    forall i, j :: 0 <= i < j < |edges| ==> !Parallel(edges[i], edges[j])
  }

  ghost predicate EndsBelow(edges: seq<Edge>, n: nat) {
    forall i :: 0 <= i < |edges| ==> edges[i].src < n && edges[i].dst < n
  }

  // Names are unique, edges have both ends, and no two edges agree on both
  // ends and the kind.
  ghost predicate ValidGraph(g: Graph) {
    Distinct(g.nodes) && EndsBelow(g.edges, |g.nodes|) && NoParallel(g.edges)
  }

  // An edge by the names of its ends.
  function Named(g: Graph, e: Edge): Relation
    requires e.src < |g.nodes| && e.dst < |g.nodes|
  {
    Relation(g.nodes[e.src], g.nodes[e.dst], e.kind, e.context)
  }

  // The abstract content of the graph: its relations by name.
  ghost function Relations(g: Graph): set<Relation>
    requires EndsBelow(g.edges, |g.nodes|)
  {
    set i | 0 <= i < |g.edges| :: Named(g, g.edges[i])
  }

  lemma NamedIsInjective(g: Graph, e: Edge, f: Edge)
    requires Distinct(g.nodes)
    requires e.src < |g.nodes| && e.dst < |g.nodes| && f.src < |g.nodes| && f.dst < |g.nodes|
    ensures SameTriple(Named(g, e), Named(g, f)) <==> Parallel(e, f)
  {
  }

  // At most one relation per (from, to, kind).
  ghost predicate OnePerTriple(rels: set<Relation>) {
    forall r, s :: r in rels && s in rels && SameTriple(r, s) ==> r == s
  }

  lemma RelationsAreUnique(g: Graph)
    requires ValidGraph(g)
    ensures OnePerTriple(Relations(g))
  {
    forall r, s | r in Relations(g) && s in Relations(g) && SameTriple(r, s)
      ensures r == s
    {
      var i :| 0 <= i < |g.edges| && r == Named(g, g.edges[i]);
      var j :| 0 <= j < |g.edges| && s == Named(g, g.edges[j]);
      NamedIsInjective(g, g.edges[i], g.edges[j]);
      assert i == j || i < j || j < i;
    }
  }

  function AddNode(g: Graph, name: string): Graph {
    g.(nodes := g.nodes + [name])
  }

  lemma AddNodeKeepsRelations(g: Graph, name: string)
    requires ValidGraph(g) && name !in g.nodes
    ensures ValidGraph(AddNode(g, name)) && Relations(AddNode(g, name)) == Relations(g)
  {
    var h := AddNode(g, name);
    assert forall i :: 0 <= i < |g.edges| ==> Named(h, h.edges[i]) == Named(g, g.edges[i]);
  }

  // Adding a relation, replacing the one with the same ends and kind.
  ghost function Upsert(rels: set<Relation>, r: Relation): set<Relation> {
    (set s | s in rels && !SameTriple(s, r)) + {r}
  }

  function FindParallel(edges: seq<Edge>, e: Edge): (i: nat)
    ensures i <= |edges|
    ensures i < |edges| ==> Parallel(edges[i], e)
    ensures forall k :: 0 <= k < i ==> !Parallel(edges[k], e)
  {
    if edges == [] then 0
    else if Parallel(edges[0], e) then 0
    else 1 + FindParallel(edges[1..], e)
  }

  // Update the context of the edge parallel to e, or add e.
  function PutEdge(g: Graph, e: Edge): Graph {
    var i := FindParallel(g.edges, e);
    if i < |g.edges| then g.(edges := g.edges[i := e]) else g.(edges := g.edges + [e])
  }

  lemma PutEdgeValid(g: Graph, e: Edge)
    requires ValidGraph(g) && e.src < |g.nodes| && e.dst < |g.nodes|
    ensures ValidGraph(PutEdge(g, e))
  {
  }

  lemma PutEdgeChanges(g: Graph, e: Edge)
    requires ValidGraph(g) && e.src < |g.nodes| && e.dst < |g.nodes|
    ensures var h, i := PutEdge(g, e), FindParallel(g.edges, e);
      && h.nodes == g.nodes && i < |h.edges| && h.edges[i] == e && |g.edges| <= |h.edges| <= |g.edges| + 1
      && (|h.edges| > |g.edges| ==> i == |g.edges|)
      && (forall k :: 0 <= k < |g.edges| && k != i ==> h.edges[k] == g.edges[k])
      && (forall k :: 0 <= k < |g.edges| ==> (SameTriple(Named(g, g.edges[k]), Named(g, e)) <==> k == i))
  {
    var i := FindParallel(g.edges, e);
    forall k | 0 <= k < |g.edges|
      ensures SameTriple(Named(g, g.edges[k]), Named(g, e)) <==> k == i
    {
      NamedIsInjective(g, g.edges[k], e);
    }
  }

  // Two edge lists over the same nodes that agree except at i.
  ghost predicate AgreeExcept(g: Graph, h: Graph, i: nat) {
    && h.nodes == g.nodes && EndsBelow(g.edges, |g.nodes|) && EndsBelow(h.edges, |g.nodes|)
    && |g.edges| <= |h.edges| && i < |h.edges|
    && (|h.edges| > |g.edges| ==> i == |g.edges| && |h.edges| == i + 1)
    && (forall k :: 0 <= k < |g.edges| && k != i ==> h.edges[k] == g.edges[k])
  }

  lemma AgreeingRelations(g: Graph, h: Graph, i: nat, r: Relation)
    requires AgreeExcept(g, h, i)
    ensures r in Relations(h) <==>
      r == Named(h, h.edges[i]) || exists k :: 0 <= k < |g.edges| && k != i && r == Named(g, g.edges[k])
  {
    hide Named;
    SameNodesSameNames(g, h);
    if r in Relations(h) {
      var k :| 0 <= k < |h.edges| && r == Named(h, h.edges[k]);
      assert k != i ==> k < |g.edges| && h.edges[k] == g.edges[k];
    }
    if k :| 0 <= k < |g.edges| && k != i && r == Named(g, g.edges[k]) {
      assert h.edges[k] == g.edges[k];
    }
  }

  lemma PutEdgeUpserts(g: Graph, e: Edge)
    requires ValidGraph(g) && e.src < |g.nodes| && e.dst < |g.nodes|
    ensures ValidGraph(PutEdge(g, e))
    ensures Relations(PutEdge(g, e)) == Upsert(Relations(g), Named(g, e))
  {
    PutEdgeValid(g, e);
    PutEdgeChanges(g, e);
    var h, i := PutEdge(g, e), FindParallel(g.edges, e);
    hide Named, SameTriple, NoParallel, PutEdge, FindParallel, Distinct;
    SameNodesSameNames(g, h);
    assert AgreeExcept(g, h, i);
    hide AgreeExcept;
    forall r
      ensures r in Relations(h) <==> r in Upsert(Relations(g), Named(g, e))
    {
      AgreeingRelations(g, h, i, r);
    }
  }

  lemma SameNodesSameNames(g: Graph, h: Graph)
    requires g.nodes == h.nodes
    ensures forall f: Edge :: f.src < |g.nodes| && f.dst < |g.nodes| ==> Named(h, f) == Named(g, f)
  {
  }

  // The index of a node after node a is removed from n nodes.
  function Moved(i: nat, a: nat, n: nat): nat {
    if i + 1 == n then a else i
  }

  function MoveEdge(e: Edge, a: nat, n: nat): Edge {
    Edge(Moved(e.src, a, n), Moved(e.dst, a, n), e.kind, e.context)
  }

  predicate Touches(e: Edge, a: nat) { e.src == a || e.dst == a }

  function DropNodeEdges(edges: seq<Edge>, a: nat, n: nat): seq<Edge> {
    if edges == [] then []
    else
      var last := edges[|edges| - 1];
      DropNodeEdges(edges[..|edges| - 1], a, n) + if Touches(last, a) then [] else [MoveEdge(last, a, n)]
  }

  // Drop node a and its edges; the last node takes its index.
  function RemoveNode(g: Graph, a: nat): Graph
    requires a < |g.nodes|
  {
    var n := |g.nodes|;
    Graph(g.nodes[a := g.nodes[n - 1]][..n - 1], DropNodeEdges(g.edges, a, n))
  }

  lemma {:induction false} DroppedEdges(edges: seq<Edge>, a: nat, n: nat)
    ensures forall f :: f in DropNodeEdges(edges, a, n) <==>
      exists i :: 0 <= i < |edges| && !Touches(edges[i], a) && f == MoveEdge(edges[i], a, n)
  {
    if edges != [] {
      var rest, last := edges[..|edges| - 1], edges[|edges| - 1];
      DroppedEdges(rest, a, n);
      forall f
        ensures f in DropNodeEdges(edges, a, n) <==>
          exists i :: 0 <= i < |edges| && !Touches(edges[i], a) && f == MoveEdge(edges[i], a, n)
      {
        if f in DropNodeEdges(rest, a, n) {
          var i :| 0 <= i < |rest| && !Touches(rest[i], a) && f == MoveEdge(rest[i], a, n);
          assert edges[i] == rest[i];
        }
      }
    }
  }

  lemma {:induction false} DroppedKeepsNoParallel(edges: seq<Edge>, a: nat, n: nat)
    requires a < n && EndsBelow(edges, n) && NoParallel(edges)
    ensures NoParallel(DropNodeEdges(edges, a, n)) && EndsBelow(DropNodeEdges(edges, a, n), n - 1)
  {
    if edges != [] {
      var rest, last := edges[..|edges| - 1], edges[|edges| - 1];
      DroppedKeepsNoParallel(rest, a, n);
      DroppedEdges(rest, a, n);
      var kept := DropNodeEdges(rest, a, n);
      forall k | 0 <= k < |kept| && !Touches(last, a)
        ensures !Parallel(kept[k], MoveEdge(last, a, n))
      {
        assert kept[k] in kept;
        var i :| 0 <= i < |rest| && !Touches(rest[i], a) && kept[k] == MoveEdge(rest[i], a, n);
        assert !Parallel(edges[i], last);
      }
    }
  }

  lemma RemoveNodeNodes(g: Graph, a: nat)
    requires Distinct(g.nodes) && a < |g.nodes|
    ensures Distinct(RemoveNode(g, a).nodes)
    ensures forall x :: x in RemoveNode(g, a).nodes <==> x in g.nodes && x != g.nodes[a]
    ensures forall i :: 0 <= i < |g.nodes| && i != a ==>
      Moved(i, a, |g.nodes|) < |g.nodes| - 1 && RemoveNode(g, a).nodes[Moved(i, a, |g.nodes|)] == g.nodes[i]
  {
    var h, n := RemoveNode(g, a), |g.nodes|;
    forall x | x in g.nodes && x != g.nodes[a]
      ensures x in h.nodes
    {
      var i :| 0 <= i < n && g.nodes[i] == x;
      assert h.nodes[Moved(i, a, n)] == x;
    }
  }

  lemma MovedEdgeKeepsNames(g: Graph, a: nat, e: Edge)
    requires Distinct(g.nodes) && a < |g.nodes| && !Touches(e, a) && e.src < |g.nodes| && e.dst < |g.nodes|
    ensures var f := MoveEdge(e, a, |g.nodes|);
      && f.src < |RemoveNode(g, a).nodes| && f.dst < |RemoveNode(g, a).nodes|
      && Named(RemoveNode(g, a), f) == Named(g, e)
      && Named(g, e).from != g.nodes[a] && Named(g, e).to != g.nodes[a]
  {
    RemoveNodeNodes(g, a);
  }

  // By name, removal takes away exactly the removed node and its relations.
  lemma RemoveNodeRelations(g: Graph, a: nat)
    requires ValidGraph(g) && a < |g.nodes|
    ensures ValidGraph(RemoveNode(g, a))
    ensures forall x :: x in RemoveNode(g, a).nodes <==> x in g.nodes && x != g.nodes[a]
    ensures Relations(RemoveNode(g, a)) == Without(Relations(g), g.nodes[a])
  {
    var h, n := RemoveNode(g, a), |g.nodes|;
    RemoveNodeNodes(g, a);
    DroppedKeepsNoParallel(g.edges, a, n);
    DroppedEdges(g.edges, a, n);
    hide Named, MoveEdge, DropNodeEdges, NoParallel, Distinct;
    forall r | r in Relations(h)
      ensures r in Without(Relations(g), g.nodes[a])
    {
      var k :| 0 <= k < |h.edges| && r == Named(h, h.edges[k]);
      assert h.edges[k] in h.edges;
      var i :| 0 <= i < |g.edges| && !Touches(g.edges[i], a) && h.edges[k] == MoveEdge(g.edges[i], a, n);
      MovedEdgeKeepsNames(g, a, g.edges[i]);
    }
    forall r | r in Without(Relations(g), g.nodes[a])
      ensures r in Relations(h)
    {
      var i :| 0 <= i < |g.edges| && r == Named(g, g.edges[i]);
      assert !Touches(g.edges[i], a) by { TouchesByName(g, g.edges[i], a); }
      MovedEdgeKeepsNames(g, a, g.edges[i]);
      var f := MoveEdge(g.edges[i], a, n);
      assert f in h.edges;
      var k :| 0 <= k < |h.edges| && h.edges[k] == f;
    }
  }

  lemma TouchesByName(g: Graph, e: Edge, a: nat)
    requires Distinct(g.nodes) && e.src < |g.nodes| && e.dst < |g.nodes| && a < |g.nodes|
    ensures Touches(e, a) <==> Named(g, e).from == g.nodes[a] || Named(g, e).to == g.nodes[a]
  {
  }

  ghost function Without(rels: set<Relation>, name: string): set<Relation> {
    set r | r in rels && r.from != name && r.to != name
  }

  // The edges that keep selects, most recent first, as adjacency lists hold them.
  function Select(edges: seq<Edge>, keep: Edge -> bool): seq<Edge> {
    if edges == [] then []
    else
      var last := edges[|edges| - 1];
      (if keep(last) then [last] else []) + Select(edges[..|edges| - 1], keep)
  }

  lemma {:induction false} SelectedMembers(edges: seq<Edge>, keep: Edge -> bool)
    ensures forall e :: e in Select(edges, keep) <==> e in edges && keep(e)
  {
    if edges != [] {
      var rest, last := edges[..|edges| - 1], edges[|edges| - 1];
      SelectedMembers(rest, keep);
      assert edges == rest + [last];
    }
  }

  lemma {:induction false} Selected(edges: seq<Edge>, keep: Edge -> bool)
    ensures forall e :: e in Select(edges, keep) <==> e in edges && keep(e)
    ensures NoParallel(edges) ==> NoParallel(Select(edges, keep))
  {
    SelectedMembers(edges, keep);
    if edges != [] && NoParallel(edges) {
      var rest, last := edges[..|edges| - 1], edges[|edges| - 1];
      Selected(rest, keep);
      var s := Select(rest, keep);
      forall k | 0 <= k < |s|
        ensures !Parallel(last, s[k])
      {
        assert s[k] in rest;
        var i :| 0 <= i < |rest| && rest[i] == s[k];
        assert !Parallel(edges[i], last);
      }
    }
  }

  function NamedAll(g: Graph, edges: seq<Edge>): (r: seq<Relation>)
    requires EndsBelow(edges, |g.nodes|)
    ensures |r| == |edges| && forall i :: 0 <= i < |r| ==> r[i] == Named(g, edges[i])
  {
    seq(|edges|, i requires 0 <= i < |edges| => Named(g, edges[i]))
  }

  // The edges at node n: outgoing first, then incoming, a self loop once.
  function EdgesAt(g: Graph, n: nat): seq<Edge> {
    Select(g.edges, (e: Edge) => e.src == n) + Select(g.edges, (e: Edge) => e.dst == n && e.src != n)
  }

  // s is the edges at these places, later ones first.
  ghost predicate IsAt(edges: seq<Edge>, s: seq<Edge>, at: seq<nat>) {
    && |at| == |s| && (forall k :: 0 <= k < |s| ==> at[k] < |edges| && s[k] == edges[at[k]])
    && forall j, k :: 0 <= j < k < |s| ==> at[j] > at[k]
  }

  ghost predicate RecentFirst(edges: seq<Edge>, s: seq<Edge>) {
    exists at :: IsAt(edges, s, at)
  }

  lemma {:induction false} SelectedRecentFirst(edges: seq<Edge>, keep: Edge -> bool) returns (at: seq<nat>)
    ensures IsAt(edges, Select(edges, keep), at)
  {
    at := [];
    if edges != [] {
      var rest, last := edges[..|edges| - 1], edges[|edges| - 1];
      at := SelectedRecentFirst(rest, keep);
      var s := Select(rest, keep);
      assert Select(edges, keep) == (if keep(last) then [last] else []) + s;
      hide Select, IsAt;
      assert edges == rest + [last] && [] + s == s;
      LaterIsFirst(rest, last, s, at);
      StaysAt(rest, last, s, at);
      if keep(last) {
        at := [|rest|] + at;
      }
    }
  }

  lemma StaysAt(rest: seq<Edge>, last: Edge, s: seq<Edge>, at: seq<nat>)
    requires IsAt(rest, s, at)
    ensures IsAt(rest + [last], s, at)
  {
  }

  lemma LaterIsFirst(rest: seq<Edge>, last: Edge, s: seq<Edge>, at: seq<nat>)
    requires IsAt(rest, s, at)
    ensures IsAt(rest + [last], [last] + s, [|rest|] + at)
  {
  }

  // The edges at node n: those out of it, then those into it, later ones first.
  ghost predicate OutThenIn(g: Graph, n: nat, at: seq<Edge>) {
    exists k :: 0 <= k <= |at|
      && RecentFirst(g.edges, at[..k]) && RecentFirst(g.edges, at[k..])
      && (forall j :: 0 <= j < k ==> at[j].src == n) && (forall j :: k <= j < |at| ==> at[j].dst == n)
  }

  // The relations at node n, named in that order.
  ghost predicate ListsOutThenIn(g: Graph, n: nat, at: seq<Relation>) {
    exists edges :: OutThenIn(g, n, edges) && EndsBelow(edges, |g.nodes|) && at == NamedAll(g, edges)
  }

  lemma PartsAreOutThenIn(g: Graph, n: nat, out: Edge -> bool, into: Edge -> bool)
    requires (forall e :: out(e) ==> e.src == n) && forall e :: into(e) ==> e.dst == n
    ensures OutThenIn(g, n, Select(g.edges, out) + Select(g.edges, into))
  {
    var first, second := Select(g.edges, out), Select(g.edges, into);
    var at := SelectedRecentFirst(g.edges, out);
    assert RecentFirst(g.edges, first);
    at := SelectedRecentFirst(g.edges, into);
    assert RecentFirst(g.edges, second);
    SelectedMembers(g.edges, out);
    SelectedMembers(g.edges, into);
    hide RecentFirst, Select, OutThenIn, IsAt;
    forall j | 0 <= j < |first|
      ensures first[j].src == n
    {
      assert first[j] in first;
    }
    forall j | 0 <= j < |second|
      ensures second[j].dst == n
    {
      assert second[j] in second;
    }
    JoinedOutThenIn(g, n, first, second);
  }

  lemma JoinedOutThenIn(g: Graph, n: nat, first: seq<Edge>, second: seq<Edge>)
    requires RecentFirst(g.edges, first) && RecentFirst(g.edges, second)
    requires forall j :: 0 <= j < |first| ==> first[j].src == n
    requires forall j :: 0 <= j < |second| ==> second[j].dst == n
    ensures OutThenIn(g, n, first + second)
  {
    hide RecentFirst;
    var all := first + second;
    assert all[..|first|] == first && all[|first|..] == second;
  }

  lemma EdgesAreOutThenIn(g: Graph, n: nat)
    ensures OutThenIn(g, n, EdgesAt(g, n)) && OutThenIn(g, n, EdgesOutAndIn(g, n))
  {
    PartsAreOutThenIn(g, n, (e: Edge) => e.src == n, (e: Edge) => e.dst == n && e.src != n);
    PartsAreOutThenIn(g, n, (e: Edge) => e.src == n, (e: Edge) => e.dst == n);
    hide OutThenIn, Select;
  }

  lemma EdgesAtNode(g: Graph, n: nat)
    requires ValidGraph(g)
    ensures forall e :: e in EdgesAt(g, n) <==> e in g.edges && Touches(e, n)
    ensures EndsBelow(EdgesAt(g, n), |g.nodes|) && NoParallel(EdgesAt(g, n))
  {
    Selected(g.edges, (e: Edge) => e.src == n);
    Selected(g.edges, (e: Edge) => e.dst == n && e.src != n);
    var out, inc, all := Select(g.edges, (e: Edge) => e.src == n),
      Select(g.edges, (e: Edge) => e.dst == n && e.src != n), EdgesAt(g, n);
    forall i | 0 <= i < |all|
      ensures all[i].src < |g.nodes| && all[i].dst < |g.nodes|
    {
      assert all[i] in all;
    }
    forall i, j | 0 <= i < |out| && 0 <= j < |inc|
      ensures !Parallel(out[i], inc[j])
    {
      assert out[i] in out && inc[j] in inc;
    }
  }

  ghost predicate DistinctTriples(s: seq<Relation>) {
    forall i, j :: 0 <= i < j < |s| ==> !SameTriple(s[i], s[j])
  }

  // The edges stay where they are, up to their contexts; at most one is added,
  // at the end.
  ghost predicate KeepsEdges(g: Graph, h: Graph) {
    && |g.edges| <= |h.edges| <= |g.edges| + 1
    && forall i :: 0 <= i < |g.edges| ==> Parallel(g.edges[i], h.edges[i])
  }

  lemma PutEdgeKeepsEdges(g: Graph, e: Edge)
    ensures KeepsEdges(g, PutEdge(g, e))
  {
  }

  // The names of all edges touching a node are all relations of its name.
  lemma NamedTouching(g: Graph, edges: seq<Edge>, n: nat)
    requires Distinct(g.nodes) && EndsBelow(g.edges, |g.nodes|) && n < |g.nodes| && EndsBelow(edges, |g.nodes|)
    requires forall e :: e in edges <==> e in g.edges && Touches(e, n)
    ensures forall r :: r in NamedAll(g, edges) <==>
      r in Relations(g) && (r.from == g.nodes[n] || r.to == g.nodes[n])
  {
    var at := NamedAll(g, edges);
    hide Named, Touches;
    forall r | r in at
      ensures r in Relations(g) && (r.from == g.nodes[n] || r.to == g.nodes[n])
    {
      var i :| 0 <= i < |at| && at[i] == r;
      assert edges[i] in edges;
      TouchesByName(g, edges[i], n);
    }
    forall r | r in Relations(g) && (r.from == g.nodes[n] || r.to == g.nodes[n])
      ensures r in at
    {
      var k :| 0 <= k < |g.edges| && r == Named(g, g.edges[k]);
      TouchesByName(g, g.edges[k], n);
      assert g.edges[k] in edges;
      var i :| 0 <= i < |edges| && edges[i] == g.edges[k];
      assert at[i] == r;
    }
  }

  // The relations at a node, each once.
  lemma RelationsAtNode(g: Graph, n: nat)
    requires ValidGraph(g) && n < |g.nodes|
    ensures EndsBelow(EdgesAt(g, n), |g.nodes|)
    ensures DistinctTriples(NamedAll(g, EdgesAt(g, n)))
    ensures forall r :: r in NamedAll(g, EdgesAt(g, n)) <==>
      r in Relations(g) && (r.from == g.nodes[n] || r.to == g.nodes[n])
  {
    EdgesAtNode(g, n);
    var edges := EdgesAt(g, n);
    var at := NamedAll(g, edges);
    forall i, j | 0 <= i < j < |at|
      ensures !SameTriple(at[i], at[j])
    {
      NamedIsInjective(g, edges[i], edges[j]);
    }
    hide Named, NoParallel, DistinctTriples, EdgesAt, Touches, Relations;
    NamedTouching(g, edges, n);
  }

  // The edges out of node n, then the edges into it: a self loop twice.
  function EdgesOutAndIn(g: Graph, n: nat): seq<Edge> {
    Select(g.edges, (e: Edge) => e.src == n) + Select(g.edges, (e: Edge) => e.dst == n)
  }

  lemma EdgesOutAndInTouch(g: Graph, n: nat)
    requires EndsBelow(g.edges, |g.nodes|)
    ensures forall e :: e in EdgesOutAndIn(g, n) <==> e in g.edges && Touches(e, n)
    ensures EndsBelow(EdgesOutAndIn(g, n), |g.nodes|)
  {
    Selected(g.edges, (e: Edge) => e.src == n);
    Selected(g.edges, (e: Edge) => e.dst == n);
    var edges := EdgesOutAndIn(g, n);
    assert forall i :: 0 <= i < |edges| ==> edges[i] in edges && edges[i] in g.edges;
  }

  lemma RelationsOutAndIn(g: Graph, n: nat)
    requires ValidGraph(g) && n < |g.nodes|
    ensures EndsBelow(EdgesOutAndIn(g, n), |g.nodes|)
    ensures forall r :: r in NamedAll(g, EdgesOutAndIn(g, n)) <==>
      r in Relations(g) && (r.from == g.nodes[n] || r.to == g.nodes[n])
  {
    EdgesOutAndInTouch(g, n);
    hide EdgesOutAndIn, Touches, Relations;
    NamedTouching(g, EdgesOutAndIn(g, n), n);
  }
}
