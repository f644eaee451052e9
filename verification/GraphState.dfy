// What the state of an entity graph must satisfy, and how each operation's
// update of it keeps that.
module GraphState {
  import opened Types
  import opened Sorting
  import opened DiGraph
  import opened Names
  import opened Quotient
  import opened Mentions

  type NodeOf = map<string, nat>
  type NameOf = map<nat, string>

  // The two index maps are mutual inverses over exactly the nodes.
  ghost predicate IndexesNodes(nodes: seq<string>, nodeOf: NodeOf, nameOf: NameOf) {
    && (forall x :: x in nodeOf <==> x in nodes)
    && (forall x :: x in nodeOf ==> nodeOf[x] < |nodes| && nodes[nodeOf[x]] == x)
    && (forall i: nat :: i in nameOf <==> i < |nodes|)
    && (forall i: nat :: i in nameOf ==> nameOf[i] == nodes[i])
  }

  // What every operation keeps, the alias index aside: one node per entity,
  // matching index maps, at most one edge per triple, mention lists without
  // repeats for known entities, and no index entry for an unknown entity.
  ghost predicate IsStructured(entities: Entities, mentions: MentionLists, graph: Graph, nodeOf: NodeOf, nameOf: NameOf,
                               index: AliasIndex)
  {
    && ValidGraph(graph) && IndexesNodes(graph.nodes, nodeOf, nameOf)
    && AreNodes(graph.nodes, entities)
    && WellNamed(entities) && MentionsKnown(entities, mentions) && NoDangling(entities, index)
  }

  ghost predicate AreNodes(nodes: seq<string>, entities: Entities) {
    forall x :: x in nodes <==> x in entities
  }

  ghost predicate MentionsKnown(entities: Entities, mentions: MentionLists) {
    forall n :: n in mentions ==> n in entities && Distinct(mentions[n])
  }

  lemma NodeIndexIsInverse(nodes: seq<string>, nodeOf: NodeOf, nameOf: NameOf)
    requires Distinct(nodes) && IndexesNodes(nodes, nodeOf, nameOf)
    ensures forall i: nat :: i < |nodes| ==> i in nameOf && nameOf[i] in nodeOf && nodeOf[nameOf[i]] == i
    ensures forall x :: x in nodeOf ==> nodeOf[x] in nameOf && nameOf[nodeOf[x]] == x
  {
  }

  // The index maps as removal patches them: entries of the removed node go,
  // and the node that moved into the hole is re-entered.
  function PatchNodeOf(nodes: seq<string>, nodeOf: NodeOf, name: string, a: nat): NodeOf {
    if a < |nodes| then (nodeOf - {name})[nodes[a] := a] else nodeOf - {name}
  }

  function PatchNameOf(nodes: seq<string>, nodeOf: NodeOf, nameOf: NameOf, a: nat): NameOf {
    if a < |nodes| then
      var rest := nameOf - {a};
      (if nodes[a] in nodeOf then rest - {nodeOf[nodes[a]]} else rest)[a := nodes[a]]
    else
      nameOf - {a}
  }

  lemma PatchedNodeOf(g: Graph, nodeOf: NodeOf, nameOf: NameOf, a: nat)
    requires Distinct(g.nodes) && IndexesNodes(g.nodes, nodeOf, nameOf) && a < |g.nodes|
    ensures var nodes := RemoveNode(g, a).nodes; var patched := PatchNodeOf(nodes, nodeOf, g.nodes[a], a);
      && (forall x :: x in patched <==> x in nodes)
      && (forall x :: x in patched ==> patched[x] < |nodes| && nodes[patched[x]] == x)
  {
    var n, nodes := |g.nodes|, RemoveNode(g, a).nodes;
    RemoveNodeNodes(g, a);
    hide RemoveNode;
    var patched := PatchNodeOf(nodes, nodeOf, g.nodes[a], a);
    forall x | x in nodes
      ensures x in patched && patched[x] == Moved(nodeOf[x], a, n) && nodes[patched[x]] == x
    {
      assert nodeOf[x] != a;
    }
  }

  lemma PatchedNameOf(g: Graph, nodeOf: NodeOf, nameOf: NameOf, a: nat)
    requires Distinct(g.nodes) && IndexesNodes(g.nodes, nodeOf, nameOf) && a < |g.nodes|
    ensures var nodes := RemoveNode(g, a).nodes; var patched := PatchNameOf(nodes, nodeOf - {g.nodes[a]}, nameOf, a);
      && (forall i: nat :: i in patched <==> i < |nodes|)
      && (forall i: nat :: i in patched ==> patched[i] == nodes[i])
  {
    var n, nodes := |g.nodes|, RemoveNode(g, a).nodes;
    if a < |nodes| {
      assert nodes[a] == g.nodes[n - 1] && nodeOf[g.nodes[n - 1]] == n - 1;
      assert nodes[a] in nodeOf - {g.nodes[a]};
    }
  }

  lemma RemovalKeepsIndexes(g: Graph, nodeOf: NodeOf, nameOf: NameOf, a: nat)
    requires Distinct(g.nodes) && IndexesNodes(g.nodes, nodeOf, nameOf) && a < |g.nodes|
    ensures var nodes, name := RemoveNode(g, a).nodes, g.nodes[a];
      IndexesNodes(nodes, PatchNodeOf(nodes, nodeOf, name, a), PatchNameOf(nodes, nodeOf - {name}, nameOf, a))
  {
    PatchedNodeOf(g, nodeOf, nameOf, a);
    PatchedNameOf(g, nodeOf, nameOf, a);
    hide RemoveNode, PatchNodeOf, PatchNameOf, Distinct;
  }

  lemma RemovalKeepsMaps(entities: Entities, mentions: MentionLists, index: AliasIndex, name: string)
    requires WellNamed(entities) && NoDangling(entities, index) && MentionsKnown(entities, mentions)
    ensures WellNamed(entities - {name}) && NoDangling(entities - {name}, DropTarget(index, name))
    ensures MentionsKnown(entities - {name}, mentions - {name})
  {
  }

  lemma RemovalKeepsStructure(entities: Entities, mentions: MentionLists, g: Graph, nodeOf: NodeOf, nameOf: NameOf,
                              index: AliasIndex, a: nat)
    requires IsStructured(entities, mentions, g, nodeOf, nameOf, index) && a < |g.nodes|
    ensures var h, name := RemoveNode(g, a), g.nodes[a];
      && IsStructured(entities - {name}, mentions - {name}, h, PatchNodeOf(h.nodes, nodeOf, name, a),
           PatchNameOf(h.nodes, nodeOf - {name}, nameOf, a), DropTarget(index, name))
      && Relations(h) == Without(Relations(g), name)
  {
    RemoveNodeRelations(g, a);
    RemovalKeepsIndexes(g, nodeOf, nameOf, a);
    RemovalKeepsMaps(entities, mentions, index, g.nodes[a]);
    assert AreNodes(RemoveNode(g, a).nodes, entities - {g.nodes[a]});
    hide RemoveNode, WellNamed, NoDangling, DropTarget, MentionsKnown, AreNodes, PatchNodeOf, PatchNameOf, IndexesNodes,
      Relations, NoParallel, Distinct, Without;
  }

  function DropTarget(index: AliasIndex, name: string): AliasIndex {
    map k | k in index && index[k] != name :: index[k]
  }

  lemma WithoutUnknown(g: Graph, name: string)
    requires ValidGraph(g) && name !in g.nodes
    ensures Without(Relations(g), name) == Relations(g)
  {
    forall r | r in Relations(g)
      ensures r.from != name && r.to != name
    {
      var i :| 0 <= i < |g.edges| && r == Named(g, g.edges[i]);
    }
  }

  lemma RemovalKeepsExact(entities: Entities, index: AliasIndex, name: string)
    requires AliasExact(entities, index)
    ensures AliasExact(entities - {name}, DropTarget(index, name))
  {
    forall k | k in DropTarget(index, name)
      ensures IsKeyOf(entities - {name}, index[k], k)
    {
      assert IsKeyOf(entities, index[k], k);
      var x :| IsNameOf(entities[index[k]], x) && EntityKey(x) == k;
      assert IsNameOf((entities - {name})[index[k]], x);
    }
  }

  lemma SubtractUnknown(entities: Entities, mentions: MentionLists, index: AliasIndex, name: string)
    requires MentionsKnown(entities, mentions) && NoDangling(entities, index) && name !in entities
    ensures entities - {name} == entities && mentions - {name} == mentions && DropTarget(index, name) == index
  {
  }

  lemma RemovingUnknown(entities: Entities, mentions: MentionLists, g: Graph, nodeOf: NodeOf, nameOf: NameOf,
                        index: AliasIndex, name: string)
    requires IsStructured(entities, mentions, g, nodeOf, nameOf, index) && name !in nodeOf
    ensures entities - {name} == entities && mentions - {name} == mentions && DropTarget(index, name) == index
    ensures Without(Relations(g), name) == Relations(g)
  {
    WithoutUnknown(g, name);
    hide ValidGraph, WellNamed, Without, Relations, NoDangling, MentionsKnown, DropTarget;
    SubtractUnknown(entities, mentions, index, name);
  }

  lemma NodeIsEntity(entities: Entities, mentions: MentionLists, g: Graph, nodeOf: NodeOf, nameOf: NameOf,
                     index: AliasIndex, name: string)
    requires IsStructured(entities, mentions, g, nodeOf, nameOf, index)
    ensures name in nodeOf <==> name in entities
    ensures name in nodeOf ==> nodeOf[name] < |g.nodes| && g.nodes[nodeOf[name]] == name
    ensures EndsBelow(g.edges, |g.nodes|)
  {
  }

  function EnsureEntity(entities: Entities, c: string, kind: EntityType, now: Time): Entities {
    if c in entities then entities else entities[c := Fresh(c, kind, now, "")]
  }

  function EnsureKey(entities: Entities, index: AliasIndex, c: string): AliasIndex {
    if c in entities then index else index[EntityKey(c) := c]
  }

  // A name that is not an entity's is unknown to the index too.
  lemma CanonicalKnown(entities: Entities, index: AliasIndex, mentions: MentionLists, g: Graph, nodeOf: NodeOf,
                       nameOf: NameOf, written: string)
    requires IsStructured(entities, mentions, g, nodeOf, nameOf, index)
    ensures WellNamed(entities)
    ensures var c := Canonical(entities, index, written);
      && (c in entities ==> ResolveIn(entities, index, written) == Some(c))
      && (c !in entities ==> c == written && EntityKey(c) !in index)
      && Canonical(entities, index, c) == c
  {
    hide ValidGraph, IndexesNodes, AreNodes, MentionsKnown, EntityKey;
  }

  lemma TouchKeepsStructure(entities: Entities, mentions: MentionLists, g: Graph, nodeOf: NodeOf, nameOf: NameOf,
                            index: AliasIndex, c: string, written: string, now: Time, description: string)
    requires IsStructured(entities, mentions, g, nodeOf, nameOf, index) && c in entities
    ensures var touched := Touch(entities[c], written, now, description);
      IsStructured(entities[c := touched], mentions, g, nodeOf, nameOf, index)
  {
    hide ValidGraph, IndexesNodes;
  }

  lemma AddKeepsStructure(entities: Entities, mentions: MentionLists, g: Graph, nodeOf: NodeOf, nameOf: NameOf,
                          index: AliasIndex, e: EntityData)
    requires IsStructured(entities, mentions, g, nodeOf, nameOf, index)
    requires e.name !in entities && e.aliases == [] && EntityKey(e.name) !in index
    ensures IsStructured(entities[e.name := e], mentions, AddNode(g, e.name), nodeOf[e.name := |g.nodes|],
      nameOf[|g.nodes| := e.name], index[EntityKey(e.name) := e.name])
    ensures Relations(AddNode(g, e.name)) == Relations(g)
  {
    AddKeepsMaps(entities, mentions, g.nodes, index, e);
    AddNodeKeepsRelations(g, e.name);
    AddKeepsIndexes(g.nodes, nodeOf, nameOf, e.name);
    hide ValidGraph, Relations, IndexesNodes, EntityKey, AreNodes, WellNamed, MentionsKnown, NoDangling;
  }

  lemma AddKeepsMaps(entities: Entities, mentions: MentionLists, nodes: seq<string>, index: AliasIndex, e: EntityData)
    requires AreNodes(nodes, entities) && WellNamed(entities)
    requires MentionsKnown(entities, mentions) && NoDangling(entities, index)
    requires e.name !in entities && e.aliases == []
    ensures e.name !in nodes && AreNodes(nodes + [e.name], entities[e.name := e])
    ensures WellNamed(entities[e.name := e]) && MentionsKnown(entities[e.name := e], mentions)
    ensures NoDangling(entities[e.name := e], index[EntityKey(e.name) := e.name])
  {
    hide EntityKey;
  }

  lemma AddKeepsIndexes(nodes: seq<string>, nodeOf: NodeOf, nameOf: NameOf, name: string)
    requires IndexesNodes(nodes, nodeOf, nameOf) && name !in nodes
    ensures IndexesNodes(nodes + [name], nodeOf[name := |nodes|], nameOf[|nodes| := name])
  {
  }

  lemma DistinctNodes(entities: Entities, mentions: MentionLists, g: Graph, nodeOf: NodeOf, nameOf: NameOf,
                      index: AliasIndex, a: nat, b: nat)
    requires IsStructured(entities, mentions, g, nodeOf, nameOf, index) && a < |g.nodes| && b < |g.nodes|
    ensures a == b <==> g.nodes[a] == g.nodes[b]
  {
  }

  lemma ConnectKeepsStructure(entities: Entities, mentions: MentionLists, g: Graph, nodeOf: NodeOf, nameOf: NameOf,
                              index: AliasIndex, e: Edge)
    requires IsStructured(entities, mentions, g, nodeOf, nameOf, index) && e.src < |g.nodes| && e.dst < |g.nodes|
    ensures IsStructured(entities, mentions, PutEdge(g, e), nodeOf, nameOf, index)
    ensures Relations(PutEdge(g, e)) == Upsert(Relations(g), Named(g, e))
  {
    PutEdgeUpserts(g, e);
    assert PutEdge(g, e).nodes == g.nodes;
    hide ValidGraph, Relations, Upsert, PutEdge;
  }

  lemma UpsertNothing(rels: set<Relation>, more: seq<Relation>, a: string, i: string)
    ensures UpsertAll(rels, RenamedList(more[..0], a, i)) == rels
  {
  }

  lemma ReconnectStep(rels: set<Relation>, more: seq<Relation>, k: nat, a: string, i: string)
    requires k < |more|
    ensures var r := Rename(more[k], a, i); var before := UpsertAll(rels, RenamedList(more[..k], a, i));
      UpsertAll(rels, RenamedList(more[..k + 1], a, i)) == if r.from != r.to then Upsert(before, r) else before
  {
    var list, r := RenamedList(more[..k], a, i), Rename(more[k], a, i);
    assert more[..k + 1][..k] == more[..k];
    assert (list + [r])[..|list|] == list && list + [] == list;
  }

  lemma ResolvedKnown(entities: Entities, index: AliasIndex, mentions: MentionLists, g: Graph, nodeOf: NodeOf,
                      nameOf: NameOf, written: string)
    requires IsStructured(entities, mentions, g, nodeOf, nameOf, index)
    ensures WellNamed(entities)
    ensures ResolveIn(entities, index, written).Some? ==> ResolveIn(entities, index, written).value in entities
  {
  }

  lemma EntityRelations(entities: Entities, mentions: MentionLists, g: Graph, nodeOf: NodeOf, nameOf: NameOf,
                        index: AliasIndex, a: string)
    requires IsStructured(entities, mentions, g, nodeOf, nameOf, index) && a in nodeOf
    ensures EndsBelow(EdgesAt(g, nodeOf[a]), |g.nodes|)
    ensures var at := NamedAll(g, EdgesAt(g, nodeOf[a]));
      && DistinctTriples(at)
      && (forall r :: r in at <==> r in Relations(g) && TouchesName(r, a))
      && (forall r :: r in at ==> r.from in entities && r.to in entities)
  {
    RelationsAtNode(g, nodeOf[a]);
    RelationEnds(g);
    assert g.nodes[nodeOf[a]] == a;
    hide ValidGraph, IndexesNodes, Relations, DistinctTriples, NoParallel, Distinct, EdgesAt, WellNamed, NoDangling,
      MentionsKnown;
  }

  // The relations touching an entity, outgoing ones first.
  ghost function RelationsOf(g: Graph, nodeOf: NodeOf, name: string): seq<Relation> {
    if name in nodeOf && EndsBelow(EdgesAt(g, nodeOf[name]), |g.nodes|) then NamedAll(g, EdgesAt(g, nodeOf[name]))
    else []
  }

  lemma EntityRelationsOutAndIn(entities: Entities, mentions: MentionLists, g: Graph, nodeOf: NodeOf, nameOf: NameOf,
                                index: AliasIndex, a: string)
    requires IsStructured(entities, mentions, g, nodeOf, nameOf, index) && a in entities
    ensures a in nodeOf && EndsBelow(EdgesOutAndIn(g, nodeOf[a]), |g.nodes|)
    ensures forall r :: r in NamedAll(g, EdgesOutAndIn(g, nodeOf[a])) <==> r in Relations(g) && TouchesName(r, a)
  {
    NodeIsEntity(entities, mentions, g, nodeOf, nameOf, index, a);
    hide Relations, EdgesOutAndIn;
    RelationsOutAndIn(g, nodeOf[a]);
  }

  lemma RelationEnds(g: Graph)
    requires EndsBelow(g.edges, |g.nodes|)
    ensures forall r :: r in Relations(g) ==> r.from in g.nodes && r.to in g.nodes
  {
    forall r | r in Relations(g)
      ensures r.from in g.nodes && r.to in g.nodes
    {
      var k :| 0 <= k < |g.edges| && r == Named(g, g.edges[k]);
    }
  }

  // Enter every name under its key.
  function EnterAll(index: AliasIndex, names: seq<string>, i: string): AliasIndex {
    if names == [] then index
    else EnterAll(index, names[..|names| - 1], i)[EntityKey(names[|names| - 1]) := i]
  }

  lemma {:induction false} Entered(index: AliasIndex, names: seq<string>, i: string)
    ensures forall k :: k in EnterAll(index, names, i) <==> k in index || HasKey(names, k)
    ensures forall k :: k in EnterAll(index, names, i) ==>
      EnterAll(index, names, i)[k] == if HasKey(names, k) then i else index[k]
  {
    hide EntityKey;
    if names != [] {
      var rest, last := names[..|names| - 1], names[|names| - 1];
      Entered(index, rest, i);
      forall k
        ensures HasKey(names, k) <==> HasKey(rest, k) || EntityKey(last) == k
      {
        assert forall x :: x in names <==> x in rest || x == last;
      }
    }
  }

  ghost predicate HasKey(names: seq<string>, k: string) {
    exists x :: x in names && EntityKey(x) == k
  }

  lemma EnteredAll(entities: Entities, before: AliasIndex, a: string, i: string)
    requires i in entities && entities[i].name == i
    ensures Redirected(entities, EnterAll(DropTarget(before, a), [i] + entities[i].aliases, i), i, before, a)
  {
    hide EntityKey;
    var names := [i] + entities[i].aliases;
    Entered(DropTarget(before, a), names, i);
    assert forall x :: x in names <==> IsNameOf(entities[i], x);
    assert forall k :: HasKey(names, k) <==> exists x :: IsNameOf(entities[i], x) && EntityKey(x) == k;
  }

  lemma MovedMentions(m: MentionLists, a: string, i: string)
    ensures MoveMentions(m, a, i) ==
      if ListOf(m, a) == [] then m - {a} else (m - {a})[i := AppendNew(ListOf(m - {a}, i), ListOf(m, a))]
  {
  }

  lemma AbsorbKeepsWellNamed(entities: Entities, gone: EntityData, i: string)
    requires WellNamed(entities) && i in entities
    ensures WellNamed(entities[i := Absorb(entities[i], gone)])
  {
    AbsorbedNames(entities[i], gone);
    hide Absorb;
    assert Absorb(entities[i], gone).name == i by { AbsorbKeepsName(entities[i], gone); }
  }

  lemma AbsorbKeepsName(target: EntityData, gone: EntityData)
    ensures Absorb(target, gone).name == target.name
  {
  }

  lemma AbsorbKeepsMentions(entities: Entities, mentions: MentionLists, moved: seq<Uuid>, i: string)
    requires MentionsKnown(entities, mentions) && i in entities
    ensures MentionsKnown(entities, mentions[i := AppendNew(ListOf(mentions, i), moved)])
  {
    AppendedIds(ListOf(mentions, i), moved);
  }

  lemma AbsorbKeepsStructure(entities: Entities, mentions: MentionLists, g: Graph, nodeOf: NodeOf, nameOf: NameOf,
                             index: AliasIndex, gone: EntityData, moved: seq<Uuid>, i: string)
    requires IsStructured(entities, mentions, g, nodeOf, nameOf, index) && i in entities
    ensures var e := Absorb(entities[i], gone);
      var mentions' := if moved == [] then mentions else mentions[i := AppendNew(ListOf(mentions, i), moved)];
      IsStructured(entities[i := e], mentions', g, nodeOf, nameOf, EnterAll(index, [i] + e.aliases, i))
  {
    AbsorbKeepsWellNamed(entities, gone, i);
    AbsorbKeepsMentions(entities, mentions, moved, i);
    Entered(index, [i] + Absorb(entities[i], gone).aliases, i);
    hide ValidGraph, IndexesNodes, AppendNew, EnterAll, HasKey, WellNamed, Absorb, Distinct;
  }

  lemma MentionKeepsStructure(entities: Entities, mentions: MentionLists, g: Graph, nodeOf: NodeOf, nameOf: NameOf,
                              index: AliasIndex, name: string, id: Uuid)
    requires IsStructured(entities, mentions, g, nodeOf, nameOf, index) && ResolveIn(entities, index, name).Some?
    ensures var c := ResolveIn(entities, index, name).value;
      IsStructured(entities, Mention(mentions, c, id), g, nodeOf, nameOf, index)
  {
    hide ValidGraph, IndexesNodes, WellNamed;
  }

  lemma NoMentionsKeepStructure(entities: Entities, mentions: MentionLists, g: Graph, nodeOf: NodeOf, nameOf: NameOf,
                                index: AliasIndex)
    requires IsStructured(entities, mentions, g, nodeOf, nameOf, index)
    ensures IsStructured(entities, map[], g, nodeOf, nameOf, index)
  {
  }

  // Nothing known is forgotten: entities, what names resolve to, relations.
  ghost predicate Grows(entities: Entities, index: AliasIndex, rels: set<Relation>,
                        entities': Entities, index': AliasIndex, rels': set<Relation>)
  {
    && (forall n :: n in entities ==> n in entities')
    && (forall k :: k in index ==> k in index' && index'[k] == index[k])
    && (forall from, to, kind :: HasTriple(rels, from, to, kind) ==> HasTriple(rels', from, to, kind))
  }

  // The relation holds between the entities its ends refer to, unless its
  // ends are two spellings of one entity.
  ghost predicate IsRecorded(entities: Entities, index: AliasIndex, rels: set<Relation>, r: Relation) {
    && ResolveIn(entities, index, r.from).Some? && ResolveIn(entities, index, r.to).Some?
    && var f, t := ResolveIn(entities, index, r.from).value, ResolveIn(entities, index, r.to).value;
       f != t || r.from == r.to ==> HasTriple(rels, f, t, r.kind)
  }

  lemma UpsertKeepsTriples(rels: set<Relation>, r: Relation)
    ensures HasTriple(Upsert(rels, r), r.from, r.to, r.kind)
    ensures forall from, to, kind :: HasTriple(rels, from, to, kind) ==> HasTriple(Upsert(rels, r), from, to, kind)
  {
    assert r in Upsert(rels, r);
    forall from, to, kind | HasTriple(rels, from, to, kind)
      ensures HasTriple(Upsert(rels, r), from, to, kind)
    {
      var s :| s in rels && s.from == from && s.to == to && s.kind == kind;
      if !SameTriple(s, r) {
        assert s in Upsert(rels, r);
      }
    }
  }

  // In an exact index, growth keeps what a known name resolves to.
  lemma GrowthKeepsResolution(entities: Entities, index: AliasIndex, rels: set<Relation>,
                              entities': Entities, index': AliasIndex, rels': set<Relation>, name: string)
    requires WellNamed(entities) && AliasExact(entities, index) && WellNamed(entities') && AliasExact(entities', index')
    requires Grows(entities, index, rels, entities', index', rels')
    ensures ResolveIn(entities, index, name).Some? ==>
      ResolveIn(entities', index', name) == ResolveIn(entities, index, name)
  {
    ResolveByKey(entities, index, name);
    ResolveByKey(entities', index', name);
  }

  lemma GrowthKeepsRecorded(entities: Entities, index: AliasIndex, rels: set<Relation>,
                            entities': Entities, index': AliasIndex, rels': set<Relation>, r: Relation)
    requires WellNamed(entities) && AliasExact(entities, index) && WellNamed(entities') && AliasExact(entities', index')
    requires Grows(entities, index, rels, entities', index', rels') && IsRecorded(entities, index, rels, r)
    ensures IsRecorded(entities', index', rels', r)
  {
    GrowthKeepsResolution(entities, index, rels, entities', index', rels', r.from);
    GrowthKeepsResolution(entities, index, rels, entities', index', rels', r.to);
  }

  lemma EnsuredResolves(entities: Entities, index: AliasIndex, name: string, now: Time)
    requires WellNamed(entities) && AliasExact(entities, index)
    ensures var c := Canonical(entities, index, name);
      var entities', index' := EnsureEntity(entities, c, Concept, now), EnsureKey(entities, index, c);
      && WellNamed(entities') && AliasExact(entities', index')
      && (forall n :: n in entities ==> n in entities')
      && (forall k :: k in index ==> k in index' && index'[k] == index[k])
      && ResolveIn(entities', index', name) == Some(c) && c in entities'
  {
    var c := Canonical(entities, index, name);
    ResolveByKey(entities, index, name);
    assert EntityKey(name) in index ==> IsKeyOf(entities, index[EntityKey(name)], EntityKey(name));
    if c in entities {
      assert IsNameOf(entities[c], c);
    } else {
      FreshKeepsExact(entities, index, Fresh(c, Concept, now, ""));
    }
  }

  // Both ends of a relation resolve once their entities are ensured.
  lemma EndsResolve(entities: Entities, index: AliasIndex, rels: set<Relation>, r: Relation, now: Time)
    requires WellNamed(entities) && AliasExact(entities, index)
    ensures var f := Canonical(entities, index, r.from);
      var entities1, index1 := EnsureEntity(entities, f, Concept, now), EnsureKey(entities, index, f);
      var t := Canonical(entities1, index1, r.to);
      var entities2, index2 := EnsureEntity(entities1, t, Concept, now), EnsureKey(entities1, index1, t);
      && Grows(entities, index, rels, entities2, index2, rels)
      && ResolveIn(entities2, index2, r.from) == Some(f) && ResolveIn(entities2, index2, r.to) == Some(t)
  {
    var f := Canonical(entities, index, r.from);
    EnsuredResolves(entities, index, r.from, now);
    var entities1, index1 := EnsureEntity(entities, f, Concept, now), EnsureKey(entities, index, f);
    var t := Canonical(entities1, index1, r.to);
    EnsuredResolves(entities1, index1, r.to, now);
    var entities2, index2 := EnsureEntity(entities1, t, Concept, now), EnsureKey(entities1, index1, t);
    hide Canonical, EnsureEntity, EnsureKey, AliasExact, WellNamed, HasTriple, EntityKey, ResolveIn;
    GrowsByNames(entities1, index1, entities2, index2, rels);
    GrowsByNames(entities, index, entities1, index1, rels);
    hide Grows;
    GrowthKeepsResolution(entities1, index1, rels, entities2, index2, rels, r.from);
    GrowsThrough(entities, index, rels, entities1, index1, rels, entities2, index2, rels);
  }

  lemma GrowsByNames(entities: Entities, index: AliasIndex, entities': Entities, index': AliasIndex,
                     rels: set<Relation>)
    requires forall n :: n in entities ==> n in entities'
    requires forall k :: k in index ==> k in index' && index'[k] == index[k]
    ensures Grows(entities, index, rels, entities', index', rels)
  {
  }

  lemma GrowsKeeps(entities: Entities, index: AliasIndex, rels: set<Relation>,
                   entities': Entities, index': AliasIndex, rels': set<Relation>)
    requires Grows(entities, index, rels, entities', index', rels')
    ensures forall n :: n in entities ==> n in entities'
    ensures forall k :: k in index ==> k in index' && index'[k] == index[k]
  {
  }

  // Adding a relation records it and forgets nothing.
  lemma AddedIsRecorded(entities: Entities, index: AliasIndex, rels: set<Relation>, r: Relation, now: Time)
    requires WellNamed(entities) && AliasExact(entities, index)
    ensures var f := Canonical(entities, index, r.from);
      var entities1, index1 := EnsureEntity(entities, f, Concept, now), EnsureKey(entities, index, f);
      var t := Canonical(entities1, index1, r.to);
      var entities2, index2 := EnsureEntity(entities1, t, Concept, now), EnsureKey(entities1, index1, t);
      var rels2 := if f == t && r.from != r.to then rels else Upsert(rels, Relation(f, t, r.kind, r.context));
      Grows(entities, index, rels, entities2, index2, rels2) && IsRecorded(entities2, index2, rels2, r)
  {
    hide Canonical, EnsureEntity, EnsureKey, AliasExact, WellNamed, Upsert, HasTriple, EntityKey, ResolveIn;
    EndsResolve(entities, index, rels, r, now);
    var f := Canonical(entities, index, r.from);
    var t := Canonical(EnsureEntity(entities, f, Concept, now), EnsureKey(entities, index, f), r.to);
    UpsertKeepsTriples(rels, Relation(f, t, r.kind, r.context));
  }

  // One mention recorded: of the entity the name refers to, or of a new one.
  function Recorded(entities: Entities, index: AliasIndex, written: string, kind: EntityType, at: Time,
                    description: string):
    (Entities, AliasIndex)
  {
    var c := Canonical(entities, index, written);
    var e := if c in entities then Touch(entities[c], written, at, description) else Fresh(c, kind, at, description);
    (entities[c := e], EnsureKey(entities, index, c))
  }

  function RecordAll(entities: Entities, index: AliasIndex, created: seq<(string, EntityType)>, at: Time,
                     description: string):
    (Entities, AliasIndex)
  {
    if created == [] then (entities, index)
    else
      var (e, i) := RecordAll(entities, index, created[..|created| - 1], at, description);
      Recorded(e, i, created[|created| - 1].0, created[|created| - 1].1, at, description)
  }

  // One relation recorded between the entities its ends refer to, created if
  // unknown; nothing between two spellings of one entity.
  ghost function Related(entities: Entities, index: AliasIndex, rels: set<Relation>, r: Relation, now: Time):
    (Entities, AliasIndex, set<Relation>)
  {
    var f := Canonical(entities, index, r.from);
    var entities1, index1 := EnsureEntity(entities, f, Concept, now), EnsureKey(entities, index, f);
    var t := Canonical(entities1, index1, r.to);
    (EnsureEntity(entities1, t, Concept, now), EnsureKey(entities1, index1, t),
     if f == t && r.from != r.to then rels else Upsert(rels, Relation(f, t, r.kind, r.context)))
  }

  ghost function RelateAll(entities: Entities, index: AliasIndex, rels: set<Relation>, more: seq<Relation>, now: Time):
    (Entities, AliasIndex, set<Relation>)
  {
    if more == [] then (entities, index, rels)
    else
      var (e, i, r) := RelateAll(entities, index, rels, more[..|more| - 1], now);
      Related(e, i, r, more[|more| - 1], now)
  }

  // The entities an update creates: the typed ones as given, else the
  // untyped names as concepts.
  function CreatedPairs(u: Update): seq<(string, EntityType)> {
    if |u.typedEntities| > 0 then u.typedEntities
    else seq(|u.createsEntities|, k requires 0 <= k < |u.createsEntities| => (u.createsEntities[k], Concept))
  }

  function CreatedNote(u: Update): string {
    (if |u.typedEntities| == 0 then "From update: " else "Provided by caller: ") + u.title
  }

  lemma KnownNames(entities: Entities, mentions: MentionLists, g: Graph, nodeOf: NodeOf, nameOf: NameOf,
                   index: AliasIndex)
    requires IsStructured(entities, mentions, g, nodeOf, nameOf, index)
    ensures WellNamed(entities) && NoDangling(entities, index)
  {
  }

  lemma GrowsNot(entities: Entities, index: AliasIndex, rels: set<Relation>)
    ensures Grows(entities, index, rels, entities, index, rels)
  {
  }

  lemma GrowsThrough(e0: Entities, i0: AliasIndex, r0: set<Relation>, e1: Entities, i1: AliasIndex, r1: set<Relation>,
                     e2: Entities, i2: AliasIndex, r2: set<Relation>)
    requires Grows(e0, i0, r0, e1, i1, r1) && Grows(e1, i1, r1, e2, i2, r2)
    ensures Grows(e0, i0, r0, e2, i2, r2)
  {
  }

  // Recording a mention forgets nothing and makes the name known.
  lemma MentionedResolves(e0: Entities, i0: AliasIndex, rels: set<Relation>, e1: Entities, i1: AliasIndex,
                          written: string)
    requires WellNamed(e0) && AliasExact(e0, i0) && WellNamed(e1) && AliasExact(e1, i1)
    requires var c := Canonical(e0, i0, written); e1.Keys == e0.Keys + {c} && i1 == EnsureKey(e0, i0, c)
    ensures Grows(e0, i0, rels, e1, i1, rels) && ResolveIn(e1, i1, written) == Some(Canonical(e0, i0, written))
  {
    var c := Canonical(e0, i0, written);
    ResolveByKey(e0, i0, written);
    ResolveByKey(e1, i1, written);
    assert EntityKey(written) in i0 ==> IsKeyOf(e0, i0[EntityKey(written)], EntityKey(written));
    assert c in e1 && (c in e0 || c == written);
    if c !in e0 {
      assert IsNameOf(e1[c], c);
    }
  }

  lemma KnownEnds(entities: Entities, mentions: MentionLists, g: Graph, nodeOf: NodeOf, nameOf: NameOf,
                  index: AliasIndex)
    requires IsStructured(entities, mentions, g, nodeOf, nameOf, index)
    ensures forall r :: r in Relations(g) ==> r.from in entities && r.to in entities
    ensures OnePerTriple(Relations(g))
  {
    RelationEnds(g);
    RelationsAreUnique(g);
  }

  lemma StructuredParts(entities: Entities, mentions: MentionLists, g: Graph, nodeOf: NodeOf, nameOf: NameOf,
                        index: AliasIndex)
    requires IsStructured(entities, mentions, g, nodeOf, nameOf, index)
    ensures WellNamed(entities) && MentionsKnown(entities, mentions)
    ensures EndsBelow(g.edges, |g.nodes|) && OnePerTriple(Relations(g))
  {
    RelationsAreUnique(g);
  }
}
