// The stored form of an entity graph: sorted by name, independent of node
// indices, and what loading it gives back.
module Storage {
  import opened Types
  import opened Sorting
  import opened Strings
  import opened DiGraph
  import opened Names
  import opened Mentions
  import opened GraphState
  import opened Rebuild
  import opened Roots
  import opened Classes
  import opened Merging
  import opened Outcome
  import opened Grouping
  import opened EntityGraph

  datatype StoredGraph = StoredGraph(nodes: seq<string>, edges: seq<Relation>)
  datatype Stored = Stored(entities: Entities, mentions: MentionLists, graph: StoredGraph)

  // Edges are ordered by source, target, kind.
  predicate EdgeLess(r: Relation, s: Relation) {
    if r.from != s.from then StrLess(r.from, s.from)
    else if r.to != s.to then StrLess(r.to, s.to)
    else r.kind.Rank() < s.kind.Rank()
  }

  // By source, then by target, then by kind as declared.
  ghost predicate InKeyOrder(r: Relation, s: Relation) {
    && (r.from == s.from || StrLess(r.from, s.from))
    && (r.from == s.from ==> r.to == s.to || StrLess(r.to, s.to))
    && (r.from == s.from && r.to == s.to ==> r.kind.Rank() < s.kind.Rank())
  }

  lemma EdgeLessIsKeyOrder()
    ensures forall r, s :: EdgeLess(r, s) ==> InKeyOrder(r, s)
  {
  }

  function SerializeGraph(g: Graph): StoredGraph
    requires EndsBelow(g.edges, |g.nodes|)
  {
    StoredGraph(Sort(StrLess, g.nodes), Sort(EdgeLess, NamedAll(g, g.edges)))
  }

  function Serialize(g: SimpleEntityGraph): Stored
    reads g
    requires g.Structured()
  {
    Stored(g.entities, g.mentions, SerializeGraph(g.graph))
  }

  lemma RankIsInjective(k: RelationType, l: RelationType)
    requires k.Rank() == l.Rank()
    ensures k == l
  {
  }

  lemma EdgeLessIsOrder()
    ensures forall r :: !EdgeLess(r, r)
    ensures forall r, s, t :: EdgeLess(r, s) && EdgeLess(s, t) ==> EdgeLess(r, t)
    ensures forall r, s :: EdgeLess(r, s) || EdgeLess(s, r) || SameTriple(r, s)
  {
    StrLessIsOrder();
    hide StrLess;
    forall k: RelationType, l: RelationType | k.Rank() == l.Rank() { RankIsInjective(k, l); }
  }

  ghost function SetOf(s: seq<Relation>): set<Relation> {
    set r | r in s
  }

  lemma AllNamed(g: Graph)
    requires ValidGraph(g)
    ensures SetOf(NamedAll(g, g.edges)) == Relations(g)
    ensures DistinctTriples(NamedAll(g, g.edges))
  {
    var all := NamedAll(g, g.edges);
    forall r | r in Relations(g)
      ensures r in all
    {
      var k :| 0 <= k < |g.edges| && r == Named(g, g.edges[k]);
      assert all[k] == r;
    }
    forall i, j | 0 <= i < j < |all|
      ensures !SameTriple(all[i], all[j])
    {
      NamedIsInjective(g, g.edges[i], g.edges[j]);
    }
  }

  lemma TriplesAreOrdered(s: seq<Relation>)
    requires DistinctTriples(s)
    ensures OrdersAll(EdgeLess, s) && Distinct(s)
  {
    EdgeLessIsOrder();
    hide EdgeLess;
    forall r, t | r in s && t in s && r != t
      ensures !SameTriple(r, t)
    {
      var i :| 0 <= i < |s| && s[i] == r;
      var j :| 0 <= j < |s| && s[j] == t;
      assert i < j || j < i;
    }
  }

  // The stored form lists every node and every relation once, in order.
  lemma SerializedIsSorted(g: Graph)
    requires ValidGraph(g)
    ensures var d := SerializeGraph(g);
      && SortedBy(StrLess, d.nodes) && (forall x :: x in d.nodes <==> x in g.nodes)
      && SortedBy(EdgeLess, d.edges) && SetOf(d.edges) == Relations(g)
      && (forall i, j :: 0 <= i < j < |d.edges| ==> InKeyOrder(d.edges[i], d.edges[j]))
  {
    StrLessIsOrder();
    EdgeLessIsKeyOrder();
    hide StrLess, EdgeLess, InKeyOrder, Relations, DistinctTriples, NoParallel, EndsBelow;
    SortSorts(StrLess, g.nodes);
    SortElements(StrLess, g.nodes);
    var all := NamedAll(g, g.edges);
    AllNamed(g);
    TriplesAreOrdered(all);
    SortSorts(EdgeLess, all);
    SortElements(EdgeLess, all);
  }

  // Two graphs are stored alike exactly when they have the same nodes and
  // relations, whatever order of insertions and removals built them.
  lemma StoredFormIsCanonical(g: Graph, h: Graph)
    requires ValidGraph(g) && ValidGraph(h)
    ensures SerializeGraph(g) == SerializeGraph(h) <==>
      (forall x :: x in g.nodes <==> x in h.nodes) && Relations(g) == Relations(h)
  {
    SerializedIsSorted(g);
    SerializedIsSorted(h);
    if (forall x :: x in g.nodes <==> x in h.nodes) && Relations(g) == Relations(h) {
      hide StrLess, EdgeLess, Relations, NoParallel, EndsBelow, SortedBy, Sort, Distinct;
      StrLessIsOrder();
      EdgeLessIsOrder();
      var d, e := SerializeGraph(g), SerializeGraph(h);
      SortedUnique(StrLess, d.nodes, e.nodes);
      forall r
        ensures r in d.edges <==> r in e.edges
      {
        assert r in SetOf(d.edges) <==> r in SetOf(e.edges);
      }
      SortedUnique(EdgeLess, d.edges, e.edges);
    }
  }

  // The edges whose ends are both nodes.
  function KnownEdges(nodes: seq<string>, edges: seq<Relation>): seq<Relation> {
    if edges == [] then []
    else
      var rest, last := KnownEdges(nodes, edges[..|edges| - 1]), edges[|edges| - 1];
      if last.from in nodes && last.to in nodes then rest + [last] else rest
  }

  lemma {:induction false} AllEdgesKnown(nodes: seq<string>, edges: seq<Relation>)
    requires forall r :: r in edges ==> r.from in nodes && r.to in nodes
    ensures KnownEdges(nodes, edges) == edges
  {
    if edges != [] {
      var rest, last := edges[..|edges| - 1], edges[|edges| - 1];
      AllEdgesKnown(nodes, rest);
      assert last in edges && edges == rest + [last];
    }
  }

  // Any stored graph can be read; edges with an unknown end are dropped.
  method DeserializeGraph(d: StoredGraph) returns (g: Graph)
    ensures g.nodes == d.nodes && EndsBelow(g.edges, |g.nodes|)
    ensures NamedAll(g, g.edges) == ReadEdges(d)
  {
    g := Graph([], []);
    var nodeOf: NodeOf := map[];
    for k := 0 to |d.nodes|
      invariant g == Graph(d.nodes[..k], [])
      invariant forall x :: x in nodeOf <==> x in d.nodes[..k]
      invariant forall x :: x in nodeOf ==> nodeOf[x] < k && d.nodes[nodeOf[x]] == x
    {
      g := AddNode(g, d.nodes[k]);
      nodeOf := nodeOf[d.nodes[k] := k];
    }
    assert d.edges[..0] == [];
    for k := 0 to |d.edges|
      invariant g.nodes == d.nodes && EndsBelow(g.edges, |g.nodes|)
      invariant NamedAll(g, g.edges) == KnownEdges(d.nodes, d.edges[..k])
    {
      var r := d.edges[k];
      assert d.edges[..k + 1][..k] == d.edges[..k];
      if r.from in nodeOf && r.to in nodeOf {
        var h := Graph(g.nodes, g.edges + [Edge(nodeOf[r.from], nodeOf[r.to], r.kind, r.context)]);
        assert NamedAll(h, h.edges) == NamedAll(g, g.edges) + [r];
        g := h;
      }
    }
    assert d.edges[..|d.edges|] == d.edges;
  }

  // The stored edges that are read.
  function ReadEdges(d: StoredGraph): seq<Relation> {
    KnownEdges(d.nodes, d.edges)
  }

  // Stored data that fits together: one node per entity, and one edge per
  // triple between nodes; edges with unknown ends may be there.
  ghost predicate Fits(d: Stored) {
    && WellNamed(d.entities) && MentionsKnown(d.entities, d.mentions)
    && Distinct(d.graph.nodes) && AreNodes(d.graph.nodes, d.entities)
    && DistinctTriples(ReadEdges(d.graph))
  }

  lemma LoadedIsValid(d: StoredGraph, g: Graph)
    requires Distinct(d.nodes) && DistinctTriples(ReadEdges(d))
    requires g.nodes == d.nodes && EndsBelow(g.edges, |g.nodes|)
    requires NamedAll(g, g.edges) == ReadEdges(d)
    ensures ValidGraph(g) && Relations(g) == SetOf(ReadEdges(d))
  {
    hide ReadEdges;
    forall i, j | 0 <= i < j < |g.edges|
      ensures !Parallel(g.edges[i], g.edges[j])
    {
      assert ReadEdges(d)[i] == Named(g, g.edges[i]) && ReadEdges(d)[j] == Named(g, g.edges[j]);
      NamedIsInjective(g, g.edges[i], g.edges[j]);
    }
    AllNamed(g);
  }

  // What a graph stores fits together.
  lemma StoredFits(entities: Entities, mentions: MentionLists, g: Graph, nodeOf: NodeOf, nameOf: NameOf,
                   index: AliasIndex)
    requires IsStructured(entities, mentions, g, nodeOf, nameOf, index)
    ensures Fits(Stored(entities, mentions, SerializeGraph(g)))
    ensures SetOf(ReadEdges(SerializeGraph(g))) == Relations(g)
  {
    var d := SerializeGraph(g);
    SerializedIsSorted(g);
    KnownEnds(entities, mentions, g, nodeOf, nameOf, index);
    hide SerializeGraph, IndexesNodes, Relations, NoParallel, StrLess, EdgeLess, WellNamed, MentionsKnown, NoDangling;
    StrLessIsOrder();
    EdgeLessIsOrder();
    SortedIsDistinct(StrLess, d.nodes);
    forall r | r in d.edges
      ensures r.from in d.nodes && r.to in d.nodes
    {
      assert r in SetOf(d.edges);
    }
    forall i, j | 0 <= i < j < |d.edges|
      ensures !SameTriple(d.edges[i], d.edges[j])
    {
      assert d.edges[i] in SetOf(d.edges) && d.edges[j] in SetOf(d.edges);
      assert EdgeLess(d.edges[i], d.edges[j]);
    }
    AllEdgesKnown(d.nodes, d.edges);
  }

  // Load a stored graph, rebuilding both index maps and the alias index.
  method Deserialize(d: Stored, now: Time) returns (g: SimpleEntityGraph, ghost m: Reps, ghost order: seq<string>)
    requires Fits(d)
    ensures fresh(g) && g.Structured()
    // The outcome is determined by what was stored.
    ensures InMentionOrder(d.entities, order)
    ensures g.StateWith(m) == Rebuilt(d.entities, d.mentions, SetOf(ReadEdges(d.graph)), order)
    // Only connected entities come together, and nothing of them is lost;
    // every name still refers to some entity.
    ensures OnlyLinked(d.entities, m) && MergedClasses(d.entities, m, g.entities)
    ensures AllSpan(d.entities, m, g.entities)
    ensures IsQuotient(SetOf(ReadEdges(d.graph)), m, g.Rels()) && MergedMentions(d.mentions, m, g.mentions)
    ensures forall n, x :: n in d.entities && IsNameOf(d.entities[n], x) ==> g.Resolve(x).Some?
    // Where each group connected by shared keys has one root, it becomes one
    // entity, the earliest; just then the remaining entities are those that
    // no earlier one shares a key with.
    ensures SingleRoots(d.entities) ==>
      g.Valid() && g.entities.Keys == Firsts(d.entities) && IntoEarliest(d.entities, m)
    ensures g.Valid() && g.entities.Keys == Stayers(d.entities) <==> SingleRoots(d.entities)
    // Where no alias has the key of another entity's own name, each group
    // becomes one entity, and all of them become their earliest exactly if
    // the names are listed so that the earliest comes last.
    ensures OwnKeysApart(d.entities) ==>
      && g.Valid() && OnePerGroup(d.entities, m)
      && (g.entities.Keys == Firsts(d.entities) <==> FirstComesLast(d.entities))
    // Entities without conflicting names come back as they were stored.
    ensures forall exact: AliasIndex :: AliasExact(d.entities, exact) ==>
      && g.entities == d.entities && g.mentions == d.mentions
      && g.Rels() == SetOf(ReadEdges(d.graph)) && g.aliasIndex == exact
    // Entities stored without aliases become one per key.
    ensures NoAliases(d.entities) ==> g.Valid() && AreRepresentatives(d.entities, m)
  {
    hide AliasExact, NoAliases, AreRepresentatives, MergedClasses, AllSpan, IsQuotient, MergedMentions, OnlyLinked,
      WellNamed, MentionsKnown, AreNodes, Relations, ReadEdges, DistinctTriples, NoParallel, EndsBelow, Distinct, SetOf,
      IndexesNodes, SingleRoots, IntoEarliest, Stayers, InMentionOrder, Rebuilt, Firsts, OwnKeysApart, OnePerGroup,
      FirstComesLast, IsNameOf, ResolveIn;
    var graph := DeserializeGraph(d.graph);
    LoadedIsValid(d.graph, graph);
    var nodeOf, nameOf := IndexNodes(graph.nodes);
    g := new SimpleEntityGraph();
    g.entities, g.mentions, g.graph := d.entities, d.mentions, graph;
    g.entityToNode, g.nodeToEntity, g.aliasIndex := nodeOf, nameOf, map[];
    assert NoDangling(g.entities, map[]);
    m, order := g.RebuildAliasIndex(now);
  }

  method IndexNodes(nodes: seq<string>) returns (nodeOf: NodeOf, nameOf: NameOf)
    requires Distinct(nodes)
    ensures IndexesNodes(nodes, nodeOf, nameOf)
  {
    nodeOf, nameOf := map[], map[];
    for k := 0 to |nodes|
      invariant IndexesNodes(nodes[..k], nodeOf, nameOf)
    {
      assert nodes[..k + 1] == nodes[..k] + [nodes[k]];
      AddKeepsIndexes(nodes[..k], nodeOf, nameOf, nodes[k]);
      nodeOf, nameOf := nodeOf[nodes[k] := k], nameOf[k := nodes[k]];
    }
    assert nodes[..|nodes|] == nodes;
  }

  // Storing and loading gives the same graph: entities, mentions, relations
  // and what every name refers to.
  method StoreAndLoad(g: SimpleEntityGraph, now: Time) returns (h: SimpleEntityGraph)
    requires g.Valid()
    ensures fresh(h) && h.Valid()
    ensures h.entities == g.entities && h.mentions == g.mentions && h.Rels() == g.Rels()
    ensures h.aliasIndex == g.aliasIndex && forall name :: h.Resolve(name) == g.Resolve(name)
    ensures Serialize(h) == Serialize(g)
  {
    hide IsStructured, Fits, AliasExact, Relations, ResolveIn, SerializeGraph, SetOf;
    StoredFits(g.entities, g.mentions, g.graph, g.entityToNode, g.nodeToEntity, g.aliasIndex);
    ghost var m, order;
    h, m, order := Deserialize(Serialize(g), now);
    SameContentSameForm(g.entities, g.mentions, g.graph, g.entityToNode, g.nodeToEntity, g.aliasIndex,
      h.graph, h.entityToNode, h.nodeToEntity, h.aliasIndex);
  }

  lemma SameContentSameForm(entities: Entities, mentions: MentionLists,
                            g: Graph, nodeOf: NodeOf, nameOf: NameOf, index: AliasIndex,
                            h: Graph, nodeOf': NodeOf, nameOf': NameOf, index': AliasIndex)
    requires IsStructured(entities, mentions, g, nodeOf, nameOf, index)
    requires IsStructured(entities, mentions, h, nodeOf', nameOf', index')
    requires Relations(g) == Relations(h)
    ensures SerializeGraph(g) == SerializeGraph(h)
  {
    hide SerializeGraph, IndexesNodes, Relations, WellNamed, MentionsKnown, NoDangling, Distinct, EndsBelow, NoParallel;
    StoredFormIsCanonical(g, h);
  }
}
