// The mutable entity graph: entities, their relations over dense node
// indices, both index maps, the alias index and the mention lists.
module EntityGraph {
  import opened Types
  import opened Sorting
  import opened DiGraph
  import opened Names
  import opened Quotient
  import opened Mentions
  import opened GraphState
  import opened Recording
  import opened Rebuild
  import opened Roots
  import opened Classes
  import opened Merging
  import opened Outcome
  import opened Grouping

  class SimpleEntityGraph {
    var entities: Entities
    var mentions: MentionLists
    var graph: Graph
    var entityToNode: NodeOf
    var nodeToEntity: NameOf
    var aliasIndex: AliasIndex

    ghost predicate Structured()
      reads this
    {
      IsStructured(entities, mentions, graph, entityToNode, nodeToEntity, aliasIndex)
    }

    // The full invariant: the alias index is exact as well.
    ghost predicate Valid()
      reads this
    {
      Structured() && AliasExact(entities, aliasIndex)
    }

    ghost function Rels(): set<Relation>
      reads this
      requires Structured()
    {
      Relations(graph)
    }

    constructor ()
      ensures Valid() && entities == map[] && mentions == map[] && Rels() == {}
    {
      entities, mentions, graph := map[], map[], Graph([], []);
      entityToNode, nodeToEntity, aliasIndex := map[], map[], map[];
    }

    method Clear()
      modifies this
      ensures Valid() && entities == map[] && mentions == map[] && Rels() == {}
    {
      entities, mentions, graph := map[], map[], Graph([], []);
      entityToNode, nodeToEntity, aliasIndex := map[], map[], map[];
    }

    // The name of the entity that name refers to.
    function Resolve(name: string): Option<string>
      reads this
    {
      ResolveIn(entities, aliasIndex, name)
    }

    method RemoveEntity(name: string) returns (removed: bool)
      requires Structured()
      modifies this
      ensures Structured()
      ensures removed <==> name in old(entities)
      ensures entities == old(entities) - {name} && mentions == old(mentions) - {name}
      ensures Rels() == Without(old(Rels()), name)
      ensures aliasIndex == DropTarget(old(aliasIndex), name)
      ensures old(Valid()) ==> Valid()
    {
      hide IsStructured, AliasExact;
      NodeIsEntity(entities, mentions, graph, entityToNode, nodeToEntity, aliasIndex, name);
      if name !in entityToNode {
        RemovingUnknown(entities, mentions, graph, entityToNode, nodeToEntity, aliasIndex, name);
        return false;
      }
      var a := entityToNode[name];
      RemovalKeepsStructure(entities, mentions, graph, entityToNode, nodeToEntity, aliasIndex, a);
      if AliasExact(entities, aliasIndex) {
        RemovalKeepsExact(entities, aliasIndex, name);
      }
      graph := RemoveNode(graph, a);
      entityToNode := entityToNode - {name};
      nodeToEntity := nodeToEntity - {a};
      if a < |graph.nodes| {
        var swapped := graph.nodes[a];
        if swapped in entityToNode {
          nodeToEntity := nodeToEntity - {entityToNode[swapped]};
        }
        entityToNode := entityToNode[swapped := a];
        nodeToEntity := nodeToEntity[a := swapped];
      }
      entities := entities - {name};
      mentions := mentions - {name};
      aliasIndex := DropTarget(aliasIndex, name);
      removed := true;
    }

    // Count a mention of a known entity and note the spelling.
    method TouchEntity(name: string, written: string, now: Time, description: string)
      requires Structured() && name in entities && Resolve(written) == Some(name)
      modifies this`entities
      ensures Structured()
      ensures entities == old(entities)[name := Touch(old(entities)[name], written, now, description)]
      ensures old(Valid()) ==> Valid()
    {
      hide IsStructured, AliasExact, Touch;
      assert WellNamed(entities) by {
        CanonicalKnown(entities, aliasIndex, mentions, graph, entityToNode, nodeToEntity, written);
      }
      TouchKeepsStructure(entities, mentions, graph, entityToNode, nodeToEntity, aliasIndex, name, written, now,
        description);
      if AliasExact(entities, aliasIndex) {
        TouchKeepsExact(entities, aliasIndex, name, written, now, description);
      }
      entities := entities[name := Touch(entities[name], written, now, description)];
    }

    // Add an entity and its node, and index its name.
    method CreateEntity(e: EntityData)
      requires Structured() && e.name !in entities && e.aliases == [] && EntityKey(e.name) !in aliasIndex
      modifies this
      ensures Structured()
      ensures entities == old(entities)[e.name := e] && aliasIndex == old(aliasIndex)[EntityKey(e.name) := e.name]
      ensures mentions == old(mentions) && Rels() == old(Rels())
      ensures old(graph).nodes <= graph.nodes && graph.edges == old(graph).edges
      ensures old(Valid()) ==> Valid()
    {
      hide IsStructured, AliasExact, EntityKey;
      AddKeepsStructure(entities, mentions, graph, entityToNode, nodeToEntity, aliasIndex, e);
      if AliasExact(entities, aliasIndex) {
        assert WellNamed(entities) by {
          CanonicalKnown(entities, aliasIndex, mentions, graph, entityToNode, nodeToEntity, e.name);
        }
        FreshKeepsExact(entities, aliasIndex, e);
      }
      entities := entities[e.name := e];
      var node := |graph.nodes|;
      graph := AddNode(graph, e.name);
      entityToNode := entityToNode[e.name := node];
      nodeToEntity := nodeToEntity[node := e.name];
      aliasIndex := aliasIndex[EntityKey(e.name) := e.name];
    }

    // Record a mention: of the entity the name refers to, or of a new one.
    method AddOrUpdateEntity(written: string, kind: EntityType, now: Time, description: string)
      requires Structured()
      modifies this
      ensures Structured()
      ensures var c := Canonical(old(entities), old(aliasIndex), written);
        && entities == old(entities)[c :=
             if c in old(entities) then Touch(old(entities)[c], written, now, description)
               else Fresh(c, kind, now, description)]
        && aliasIndex == EnsureKey(old(entities), old(aliasIndex), c)
      // The entity the name refers to, or a new one of that name.
      ensures RecordsOne(old(entities), entities, Canonical(old(entities), old(aliasIndex), written), (written, kind),
        now, description)
      ensures mentions == old(mentions) && Rels() == old(Rels())
      ensures old(graph).nodes <= graph.nodes && graph.edges == old(graph).edges
      ensures old(Valid()) ==> Valid()
    {
      hide IsStructured, AliasExact, EntityKey;
      var name := Canonical(entities, aliasIndex, written);
      CanonicalKnown(entities, aliasIndex, mentions, graph, entityToNode, nodeToEntity, written);
      if name in entities {
        TouchEntity(name, written, now, description);
      } else {
        CreateEntity(Fresh(name, kind, now, description));
      }
    }

    // The node of the entity the name refers to, which is created if unknown.
    method GetOrCreateNode(written: string, kind: EntityType, now: Time) returns (node: nat)
      requires Structured()
      modifies this
      ensures Structured()
      ensures var c := Canonical(old(entities), old(aliasIndex), written);
        && entities == EnsureEntity(old(entities), c, kind, now)
        && aliasIndex == EnsureKey(old(entities), old(aliasIndex), c)
        && node < |graph.nodes| && graph.nodes[node] == c
      ensures forall n :: n in old(entities) ==> n in entities && entities[n] == old(entities)[n]
      ensures forall n :: n in entities && n !in old(entities) ==> n == written
      ensures forall n :: n in entities && n !in old(entities) ==> IsFresh(entities[n], n, kind, now, "")
      ensures mentions == old(mentions) && Rels() == old(Rels())
      ensures old(graph).nodes <= graph.nodes && graph.edges == old(graph).edges
      ensures old(Valid()) ==> Valid()
    {
      hide IsStructured, AliasExact;
      var name := Canonical(entities, aliasIndex, written);
      CanonicalKnown(entities, aliasIndex, mentions, graph, entityToNode, nodeToEntity, written);
      NodeIsEntity(entities, mentions, graph, entityToNode, nodeToEntity, aliasIndex, name);
      if name in entityToNode {
        return entityToNode[name];
      }
      AddOrUpdateEntity(name, kind, now, "");
      NodeIsEntity(entities, mentions, graph, entityToNode, nodeToEntity, aliasIndex, name);
      node := entityToNode[name];
    }

    // Add a relation between the entities the names refer to, idempotent on
    // (from, to, kind). Two spellings of one entity are not a relation.
    method AddRelationship(r: Relation, now: Time)
      requires Structured()
      modifies this
      ensures Structured()
      ensures var f := Canonical(old(entities), old(aliasIndex), r.from);
        var entities1 := EnsureEntity(old(entities), f, Concept, now);
        var index1 := EnsureKey(old(entities), old(aliasIndex), f);
        var t := Canonical(entities1, index1, r.to);
        && entities == EnsureEntity(entities1, t, Concept, now)
        && aliasIndex == EnsureKey(entities1, index1, t)
        && Rels() ==
             if f == t && r.from != r.to then old(Rels()) else Upsert(old(Rels()), Relation(f, t, r.kind, r.context))
      // Unknown ends become concepts; no entity changes.
      ensures forall c :: c in old(entities) ==> c in entities && entities[c] == old(entities)[c]
      ensures forall c :: c in entities && c !in old(entities) ==>
        (c == r.from || c == r.to) && IsFresh(entities[c], c, Concept, now, "")
      ensures mentions == old(mentions) && KeepsEdges(old(graph), graph)
      ensures old(Valid()) ==> Valid()
    {
      hide IsStructured, AliasExact, EnsureEntity, EnsureKey, Canonical, Upsert, Relations, IsFresh, PutEdge;
      var fromNode := GetOrCreateNode(r.from, Concept, now);
      ghost var nodes1 := graph.nodes;
      var toNode := GetOrCreateNode(r.to, Concept, now);
      assert graph.nodes[fromNode] == nodes1[fromNode];
      DistinctNodes(entities, mentions, graph, entityToNode, nodeToEntity, aliasIndex, fromNode, toNode);
      if fromNode == toNode && r.from != r.to {
        return;
      }
      var e := Edge(fromNode, toNode, r.kind, r.context);
      ConnectKeepsStructure(entities, mentions, graph, entityToNode, nodeToEntity, aliasIndex, e);
      PutEdgeKeepsEdges(graph, e);
      graph := PutEdge(graph, e);
    }

    // Add a merged entity's relations to the entity it was merged into.
    method Reconnect(rels: seq<Relation>, a: string, i: string, now: Time)
      requires Structured() && a !in entities && i in entities
      requires forall r :: r in rels ==> (r.from == a || r.from in entities) && (r.to == a || r.to in entities)
      modifies this
      ensures Structured()
      ensures entities == old(entities) && aliasIndex == old(aliasIndex) && mentions == old(mentions)
      ensures Rels() == UpsertAll(old(Rels()), RenamedList(rels, a, i))
    {
      hide IsStructured, AliasExact, Upsert, UpsertAll, RenamedList, Relations, EntityKey;
      UpsertNothing(Rels(), rels, a, i);
      for k := 0 to |rels|
        invariant Structured()
        invariant entities == old(entities) && aliasIndex == old(aliasIndex) && mentions == old(mentions)
        invariant Rels() == UpsertAll(old(Rels()), RenamedList(rels[..k], a, i))
      {
        var r := Rename(rels[k], a, i);
        ReconnectStep(old(Rels()), rels, k, a, i);
        assert rels[k] in rels;
        if r.from != r.to {
          AddRelationship(r, now);
        }
      }
      assert rels[..|rels|] == rels;
    }

    // All relations touching the entity, outgoing ones first, a self loop once.
    method RelationshipsOf(name: string) returns (at: seq<Relation>)
      requires Structured()
      ensures DistinctTriples(at) && forall r :: r in at <==> r in Rels() && TouchesName(r, name)
      ensures forall r :: r in at ==> r.from in entities && r.to in entities
      // Outgoing ones first, later ones before earlier ones.
      ensures name in entityToNode ==> ListsOutThenIn(graph, entityToNode[name], at)
      ensures at == RelationsOf(graph, entityToNode, name)
    {
      NodeIsEntity(entities, mentions, graph, entityToNode, nodeToEntity, aliasIndex, name);
      KnownEnds(entities, mentions, graph, entityToNode, nodeToEntity, aliasIndex);
      if name !in entityToNode {
        return [];
      }
      hide IsStructured, Relations, DistinctTriples, OutThenIn, EdgesAt;
      EdgesAreOutThenIn(graph, entityToNode[name]);
      EntityRelations(entities, mentions, graph, entityToNode, nodeToEntity, aliasIndex, name);
      at := NamedAll(graph, EdgesAt(graph, entityToNode[name]));
    }

    // The relations out of the entity, then those into it.
    method RelationsOutAndIn(name: string) returns (at: seq<Relation>)
      requires Structured() && name in entities
      ensures forall r :: r in at <==> r in Rels() && TouchesName(r, name)
      ensures name in entityToNode && ListsOutThenIn(graph, entityToNode[name], at)
    {
      EdgesAreOutThenIn(graph, entityToNode[name]);
      EntityRelationsOutAndIn(entities, mentions, graph, entityToNode, nodeToEntity, aliasIndex, name);
      hide IsStructured, Relations, EdgesOutAndIn, OutThenIn;
      at := NamedAll(graph, EdgesOutAndIn(graph, entityToNode[name]));
    }

    // The target's counts, names and mentions after a merge.
    method AbsorbEntity(gone: EntityData, moved: seq<Uuid>, i: string)
      requires Structured() && i in entities
      modifies this`entities, this`aliasIndex, this`mentions
      ensures Structured()
      ensures entities == old(entities)[i := Absorb(old(entities)[i], gone)]
      ensures aliasIndex == EnterAll(old(aliasIndex), [i] + entities[i].aliases, i)
      ensures mentions ==
        if moved == [] then old(mentions) else old(mentions)[i := AppendNew(ListOf(old(mentions), i), moved)]
    {
      hide IsStructured, Absorb, EnterAll;
      AbsorbKeepsStructure(entities, mentions, graph, entityToNode, nodeToEntity, aliasIndex, gone, moved, i);
      entities := entities[i := Absorb(entities[i], gone)];
      aliasIndex := EnterAll(aliasIndex, [i] + entities[i].aliases, i);
      if moved != [] {
        mentions := mentions[i := AppendNew(ListOf(mentions, i), moved)];
      }
    }

    // Whether merging the two names does anything: both known, not one entity.
    ghost predicate CanMerge(alias: string, into: string)
      reads this
    {
      Resolve(alias).Some? && Resolve(into).Some? && Resolve(alias) != Resolve(into)
    }

    // Fold the entity alias refers to into the one into refers to.
    method MergeEntities(alias: string, into: string, now: Time) returns (merged: bool)
      requires Structured()
      modifies this
      ensures Structured()
      ensures merged <==> old(CanMerge(alias, into))
      ensures !merged ==> unchanged(this)
      ensures merged ==>
        var a, i := old(Resolve(alias)).value, old(Resolve(into)).value;
        && a in old(entities) && i in old(entities) && a != i
        && entities == AbsorbInto(old(entities), a, i)
        && entities.Keys == old(entities).Keys - {a} && TakesOver(entities[i], old(entities)[i], old(entities)[a])
        && (forall n :: n in entities && n != i ==> entities[n] == old(entities)[n])
        && mentions == MoveMentions(old(mentions), a, i)
        && Rels() == Merged(old(Rels()), a, i)
        && aliasIndex == MergedIndex(old(entities), old(aliasIndex), a, i)
        && Redirected(entities, aliasIndex, i, old(aliasIndex), a)
      ensures old(Valid()) ==> Valid()
    {
      hide IsStructured, AliasExact, Absorb, Redirected, Merged, RenamedList, UpsertAll, MoveMentions, Relations,
        EntityKey, EnterAll, DropTarget;
      var resolvedAlias, resolvedInto := Resolve(alias), Resolve(into);
      if resolvedAlias.None? || resolvedInto.None? || resolvedAlias == resolvedInto {
        return false;
      }
      var a, i := resolvedAlias.value, resolvedInto.value;
      ResolvedKnown(entities, aliasIndex, mentions, graph, entityToNode, nodeToEntity, alias);
      ResolvedKnown(entities, aliasIndex, mentions, graph, entityToNode, nodeToEntity, into);
      var gone := entities[a];
      var relations := RelationshipsOf(a);
      var moved := ListOf(mentions, a);
      MergeIsQuotient(Rels(), relations, a, i);
      ghost var removed := RemoveEntity(a);
      AbsorbEntity(gone, moved, i);
      assert entities == AbsorbInto(old(entities), a, i);
      MergeTakesOver(old(entities), a, i);
      assert Redirected(entities, aliasIndex, i, old(aliasIndex), a) by {
        ResolvedKnown(entities, aliasIndex, mentions, graph, entityToNode, nodeToEntity, i);
        EnteredAll(entities, old(aliasIndex), a, i);
      }
      assert mentions == MoveMentions(old(mentions), a, i) by {
        MovedMentions(old(mentions), a, i);
      }
      if AliasExact(old(entities), old(aliasIndex)) {
        AbsorbKeepsExact(old(entities), old(aliasIndex), a, i, aliasIndex);
      }
      Reconnect(relations, a, i, now);
      return true;
    }

    // Link the update to every known entity it mentions, once per entity.
    method LinkMentions(u: Update)
      requires Structured()
      modifies this`mentions
      ensures Structured()
      ensures mentions == LinkUpdate(old(mentions), entities, aliasIndex, u)
      ensures LinksTo(old(mentions), mentions, entities, aliasIndex, u)
    {
      hide IsStructured, EntityKey, MentionedNames, LinksTo;
      LinkUpdateLinks(mentions, entities, aliasIndex, u);
      var names := MentionedNames(u);
      var linked: set<string> := {};
      for k := 0 to |names|
        invariant Structured()
        invariant mentions == MentionAll(old(mentions), entities, aliasIndex, names[..k], u.id)
        invariant forall c :: c in linked ==> u.id in ListOf(mentions, c)
      {
        assert names[..k + 1][..k] == names[..k];
        match Resolve(names[k]) {
          case None =>
          case Some(canonical) =>
            MentionKeepsStructure(entities, mentions, graph, entityToNode, nodeToEntity, aliasIndex, names[k], u.id);
            if canonical !in linked {
              linked := linked + {canonical};
              var ids := ListOf(mentions, canonical);
              if u.id !in ids {
                mentions := mentions[canonical := ids + [u.id]];
              } else {
                mentions := mentions[canonical := ids];
              }
            } else {
              assert mentions[canonical := mentions[canonical]] == mentions;
            }
        }
      }
      assert names[..|names|] == names;
    }

    // Rebuild all mention lists from the updates, oldest first.
    method RelinkMentions(updates: seq<Update>)
      requires Structured()
      modifies this`mentions
      ensures Structured()
      ensures mentions == LinkAll(map[], entities, aliasIndex, updates)
      // Every entity has the records that mention it, in the order of their
      // first mention.
      ensures forall c, id :: id in ListOf(mentions, c) <==> MentionedIn(entities, aliasIndex, updates, c, id)
      ensures forall c, p, q :: 0 <= p < q < |ListOf(mentions, c)| ==>
        MentionedBefore(entities, aliasIndex, updates, c, ListOf(mentions, c)[p], ListOf(mentions, c)[q])
    {
      hide IsStructured, MentionedIn, MentionedBefore;
      LinkedInOrder(entities, aliasIndex, updates);
      NoMentionsKeepStructure(entities, mentions, graph, entityToNode, nodeToEntity, aliasIndex);
      mentions := map[];
      for n := 0 to |updates|
        invariant Structured()
        invariant mentions == LinkAll(map[], entities, aliasIndex, updates[..n])
      {
        var u := updates[n];
        assert updates[..n + 1][..n] == updates[..n];
        RelinkUpdate(u);
      }
      assert updates[..|updates|] == updates;
    }

    // The inner loop of relinking: no set of linked names, but a look at the
    // last id before searching the list.
    method RelinkUpdate(u: Update)
      requires Structured()
      modifies this`mentions
      ensures Structured()
      ensures mentions == LinkUpdate(old(mentions), entities, aliasIndex, u)
    {
      hide IsStructured, EntityKey, MentionedNames;
      var names := MentionedNames(u);
      for k := 0 to |names|
        invariant Structured()
        invariant mentions == MentionAll(old(mentions), entities, aliasIndex, names[..k], u.id)
      {
        assert names[..k + 1][..k] == names[..k];
        match Resolve(names[k]) {
          case None =>
          case Some(canonical) =>
            MentionKeepsStructure(entities, mentions, graph, entityToNode, nodeToEntity, aliasIndex, names[k], u.id);
            var ids := ListOf(mentions, canonical);
            if (|ids| == 0 || ids[|ids| - 1] != u.id) && u.id !in ids {
              ids := ids + [u.id];
            }
            mentions := mentions[canonical := ids];
        }
      }
      assert names[..|names|] == names;
    }

    // Record the entities an update creates.
    method AddEntitiesOf(u: Update)
      requires Valid()
      modifies this
      ensures Valid()
      ensures Grows(old(entities), old(aliasIndex), old(Rels()), entities, aliasIndex, Rels())
      ensures (entities, aliasIndex) == RecordAll(old(entities), old(aliasIndex), CreatedPairs(u), u.timestamp,
        CreatedNote(u))
      ensures AreRecords(old(entities), entities, aliasIndex, CreatedPairs(u), u.timestamp, CreatedNote(u))
      ensures AllNamed(entities, aliasIndex, CreatedPairs(u))
      ensures mentions == old(mentions) && Rels() == old(Rels())
    {
      hide AliasExact, EntityKey, Relations, IsStructured, CreatedNote, CreatedPairs, Touch, Fresh, Canonical,
        EnsureKey, ResolveIn, AreRecords, RecordsOne, NoDangling, StillNamed, WellNamed, AllNamed, Grows;
      KnownNames(entities, mentions, graph, entityToNode, nodeToEntity, aliasIndex);
      var created, note := CreatedPairs(u), CreatedNote(u);
      CreatedIs(u);
      NothingRecorded(entities, aliasIndex, u.timestamp, note);
      GrowsNot(entities, aliasIndex, Rels());
      for k := 0 to |created|
        invariant Valid()
        invariant Grows(old(entities), old(aliasIndex), old(Rels()), entities, aliasIndex, Rels())
        invariant (entities, aliasIndex) == RecordAll(old(entities), old(aliasIndex), created[..k], u.timestamp, note)
        invariant mentions == old(mentions) && Rels() == old(Rels())
        invariant AreRecords(old(entities), entities, aliasIndex, created[..k], u.timestamp, note)
        invariant AllNamed(entities, aliasIndex, created[..k])
      {
        ghost var e0, i0 := entities, aliasIndex;
        assert created[..k + 1][..k] == created[..k] && created[..k + 1] == created[..k] + [created[k]];
        KnownNames(entities, mentions, graph, entityToNode, nodeToEntity, aliasIndex);
        AddOrUpdateEntity(created[k].0, created[k].1, u.timestamp, note);
        KnownNames(entities, mentions, graph, entityToNode, nodeToEntity, aliasIndex);
        MentionedResolves(e0, i0, Rels(), entities, aliasIndex, created[k].0);
        GrowsThrough(old(entities), old(aliasIndex), Rels(), e0, i0, Rels(), entities, aliasIndex, Rels());
        NamesStay(e0, i0, entities, aliasIndex, Rels(), created[..k]);
        RecordsStep(old(entities), e0, i0, entities, aliasIndex, created[..k], created[k],
          Canonical(e0, i0, created[k].0), u.timestamp, note);
      }
      assert created[..|created|] == created;
    }

    // Record the relations an update creates.
    method AddRelationshipsOf(u: Update, now: Time)
      requires Valid()
      modifies this
      ensures Valid()
      ensures Grows(old(entities), old(aliasIndex), old(Rels()), entities, aliasIndex, Rels())
      ensures (entities, aliasIndex, Rels()) ==
        RelateAll(old(entities), old(aliasIndex), old(Rels()), u.createsRelationships, now)
      ensures forall c :: c in old(entities) ==> c in entities && entities[c] == old(entities)[c]
      ensures forall c :: c in entities && c !in old(entities) ==> IsFresh(entities[c], c, Concept, now, "")
      ensures mentions == old(mentions)
      ensures forall r :: r in u.createsRelationships ==> IsRecorded(entities, aliasIndex, Rels(), r)
    {
      hide AliasExact, EntityKey, Relations, IsStructured, IsRecorded, Grows, EnsureEntity, EnsureKey, Canonical,
        Upsert, IsFresh, WellNamed, NoDangling, ResolveIn;
      var rels := u.createsRelationships;
      GrowsNot(entities, aliasIndex, Rels());
      for k := 0 to |rels|
        invariant Valid()
        invariant Grows(old(entities), old(aliasIndex), old(Rels()), entities, aliasIndex, Rels())
        invariant (entities, aliasIndex, Rels()) == RelateAll(old(entities), old(aliasIndex), old(Rels()), rels[..k],
          now)
        invariant forall c :: c in old(entities) ==> c in entities && entities[c] == old(entities)[c]
        invariant forall c :: c in entities && c !in old(entities) ==> IsFresh(entities[c], c, Concept, now, "")
        invariant mentions == old(mentions)
        invariant forall j :: 0 <= j < k ==> IsRecorded(entities, aliasIndex, Rels(), rels[j])
      {
        ghost var e0, i0, r0 := entities, aliasIndex, Rels();
        assert rels[..k + 1][..k] == rels[..k];
        KnownNames(entities, mentions, graph, entityToNode, nodeToEntity, aliasIndex);
        AddedIsRecorded(entities, aliasIndex, Rels(), rels[k], now);
        AddRelationship(rels[k], now);
        KnownNames(entities, mentions, graph, entityToNode, nodeToEntity, aliasIndex);
        forall j | 0 <= j < k
          ensures IsRecorded(entities, aliasIndex, Rels(), rels[j])
        {
          GrowthKeepsRecorded(e0, i0, r0, entities, aliasIndex, Rels(), rels[j]);
        }
        GrowsThrough(old(entities), old(aliasIndex), old(Rels()), e0, i0, r0, entities, aliasIndex, Rels());
      }
      assert rels[..|rels|] == rels;
    }

    // Add what the update says: its entities, then its relations, then the
    // links. Afterwards all its entities and relations are there, every
    // entity it mentions is linked to it, and nothing is lost.
    method ApplyUpdate(u: Update, now: Time)
      requires Valid()
      modifies this
      ensures Valid()
      ensures var recorded := RecordAll(old(entities), old(aliasIndex), CreatedPairs(u), u.timestamp, CreatedNote(u));
        (entities, aliasIndex, Rels()) == RelateAll(recorded.0, recorded.1, old(Rels()), u.createsRelationships, now)
      ensures Grows(old(entities), old(aliasIndex), old(Rels()), entities, aliasIndex, Rels())
      ensures forall x :: Creates(u, x) ==> Resolve(x).Some?
      ensures AreApplied(old(entities), entities, aliasIndex, u, now)
      ensures forall r :: r in u.createsRelationships ==> IsRecorded(entities, aliasIndex, Rels(), r)
      ensures mentions == LinkUpdate(old(mentions), entities, aliasIndex, u)
      ensures LinksTo(old(mentions), mentions, entities, aliasIndex, u)
    {
      hide AliasExact, EntityKey, Relations, IsStructured, IsRecorded, Grows, LinkUpdate, LinksTo, RecordAll,
        RelateAll, CreatedPairs, CreatedNote, AreRecords, AreApplied, AllNamed, StillNamed, IsFresh, IsCreated, IsNote,
        Creates, NoDangling;
      CreatedIs(u);
      AddEntitiesOf(u);
      ghost var e1, i1, r1 := entities, aliasIndex, Rels();
      KnownNames(entities, mentions, graph, entityToNode, nodeToEntity, aliasIndex);
      AddRelationshipsOf(u, now);
      KnownNames(entities, mentions, graph, entityToNode, nodeToEntity, aliasIndex);
      GrowsThrough(old(entities), old(aliasIndex), old(Rels()), e1, i1, r1, entities, aliasIndex, Rels());
      GrowsByNames(e1, i1, entities, aliasIndex, Rels()) by { GrowsKeeps(e1, i1, r1, entities, aliasIndex, Rels()); }
      NamesStay(e1, i1, entities, aliasIndex, Rels(), CreatedPairs(u));
      CreatedResolve(u, entities, aliasIndex, CreatedPairs(u));
      RecordsApply(old(entities), e1, i1, entities, aliasIndex, u, CreatedPairs(u), CreatedNote(u), now);
      LinkMentions(u);
    }

    // Claim the keys of all names in order of first mention; returns the
    // merges that conflicting claims call for.
    method ClaimKeys(order: seq<string>) returns (merges: seq<(string, string)>)
      requires forall n :: n in order ==> n in entities && entities[n].name == n
      modifies this`aliasIndex
      ensures aliasIndex == ServeAll(AllClaims(entities, order)) && merges == DeferAll(AllClaims(entities, order))
    {
      hide EntityKey, ServeAll, DeferAll;
      aliasIndex, merges := map[], [];
      assert ServeAll([]) == map[] && DeferAll([]) == [] by { NothingServed(); }
      for k := 0 to |order|
        invariant aliasIndex == ServeAll(AllClaims(entities, order[..k])) &&
          merges == DeferAll(AllClaims(entities, order[..k]))
      {
        var name := order[k];
        assert name in order && order[..k + 1][..k] == order[..k];
        var names := NamesOf(entities, name);
        ghost var before, claims := AllClaims(entities, order[..k]), ClaimsOf(name, names);
        assert before + claims[..0] == before;
        for j := 0 to |names|
          invariant aliasIndex == ServeAll(before + claims[..j]) && merges == DeferAll(before + claims[..j])
        {
          var key := EntityKey(names[j]);
          assert before + claims[..j + 1] == (before + claims[..j]) + [claims[j]];
          ServeNext(before + claims[..j], claims[j]);
          if key in aliasIndex {
            if aliasIndex[key] != name {
              merges := merges + [(name, aliasIndex[key])];
            }
          } else {
            aliasIndex := aliasIndex[key := name];
          }
        }
        assert claims[..|names|] == claims;
      }
      assert order[..|order|] == order;
    }

    // What merging changes, with where merged entities went so far.
    ghost function StateWith(m: Reps): State
      reads this
      requires Structured()
    {
      State(entities, mentions, aliasIndex, Rels(), m)
    }

    // Merge as the claims call for.
    method MergeAll(merges: seq<(string, string)>, now: Time) returns (ghost m: Reps)
      requires Structured()
      modifies this
      ensures Structured()
      ensures merges == [] ==> unchanged(this)
      ensures StateWith(m) == MergeFold(old(StateWith(map[])), merges)
    {
      hide IsStructured, MergedIndex, AbsorbInto, MoveMentions, Redirected, Merged, Redirect, Relations, ResolveIn;
      m := map[];
      for k := 0 to |merges|
        invariant Structured()
        invariant k == 0 ==> unchanged(this)
        invariant StateWith(m) == MergeFold(old(StateWith(map[])), merges[..k])
      {
        var (alias, into) := merges[k];
        ghost var a, i := Resolve(alias), Resolve(into);
        assert merges[..k + 1] == merges[..k] + [merges[k]];
        MergeFoldNext(old(StateWith(map[])), merges[..k], merges[k]);
        var done := MergeEntities(alias, into, now);
        if done {
          m := Redirect(m, a.value, i.value);
        }
      }
      assert merges[..|merges|] == merges;
    }

    // Rebuild the alias index from the entities, merging entities whose names
    // share a key into the earliest mentioned one.
    method RebuildAliasIndex(now: Time) returns (ghost m: Reps, ghost order: seq<string>)
      requires IsStructured(entities, mentions, graph, entityToNode, nodeToEntity, map[])
      modifies this
      ensures Structured()
      // The outcome is determined by what was stored.
      ensures InMentionOrder(old(entities), order)
      ensures StateWith(m) == Rebuilt(old(entities), old(mentions), Relations(old(graph)), order)
      // Only connected entities come together, and nothing of them is lost;
      // every name still refers to some entity.
      ensures OnlyLinked(old(entities), m) && MergedClasses(old(entities), m, entities)
      ensures AllSpan(old(entities), m, entities)
      ensures IsQuotient(Relations(old(graph)), m, Rels()) && MergedMentions(old(mentions), m, mentions)
      ensures forall n, x :: n in old(entities) && IsNameOf(old(entities)[n], x) ==> Resolve(x).Some?
      // Where each group connected by shared keys has one root, it becomes one
      // entity, the earliest; just then the remaining entities are those that
      // no earlier one shares a key with.
      ensures SingleRoots(old(entities)) ==>
        Valid() && entities.Keys == Firsts(old(entities)) && IntoEarliest(old(entities), m)
      ensures Valid() && entities.Keys == Stayers(old(entities)) <==> SingleRoots(old(entities))
      // Where no alias has the key of another entity's own name, each group
      // becomes one entity, and all of them become their earliest exactly if
      // the names are listed so that the earliest comes last.
      ensures OwnKeysApart(old(entities)) ==>
        && Valid() && OnePerGroup(old(entities), m)
        && (entities.Keys == Firsts(old(entities)) <==> FirstComesLast(old(entities)))
      // Entities without conflicting names stay as they are.
      ensures forall exact: AliasIndex :: AliasExact(old(entities), exact) ==>
        entities == old(entities) && mentions == old(mentions) && graph == old(graph) && aliasIndex == exact
      // Entities stored without aliases become one per key.
      ensures NoAliases(old(entities)) ==> Valid() && AreRepresentatives(old(entities), m)
    {
      hide AliasExact, EntityKey, MergedClasses, AllSpan, IsQuotient, MergedMentions, OnlyLinked, AreRepresentatives,
        NoAliases, SingleRoots, IntoEarliest, Stayers, ServeAll, DeferAll, AllClaims, IsStructured, InMentionOrder,
        Relations, MergeFold, OwnersHaveKeys, OwnKeysApart, OnePerGroup, FirstComesLast, Firsts, IsKeyOf, IsNameOf,
        Stays, IsEarliest, OnePerTriple, Members, MentionsKnown;
      StructuredParts(entities, mentions, graph, entityToNode, nodeToEntity, map[]);
      ghost var rels := Relations(graph);
      var listed := MentionOrder();
      order := listed;
      OrderMembers(entities, order);
      var merges := ClaimKeys(listed);
      assert Structured() by {
        ServedIsStructured(entities, mentions, graph, entityToNode, nodeToEntity, order);
      }
      forall exact: AliasIndex | AliasExact(entities, exact)
        ensures aliasIndex == exact && merges == []
      {
        ExactIsServed(entities, order, exact);
      }
      m := MergeAll(merges, now);
      RebuildTracks(old(entities), old(mentions), rels, order);
      RebuildExactlyWhen(old(entities), old(mentions), rels, order);
      if OwnKeysApart(old(entities)) {
        GroupingExactlyWhen(old(entities), old(mentions), rels, order);
      }
      forall n, x | n in old(entities) && IsNameOf(old(entities)[n], x)
        ensures Resolve(x).Some?
      {
        NameIsKey(old(entities), n, x);
      }
      if NoAliases(old(entities)) {
        PlainSingleRoots(old(entities));
        PlainRepresentatives(old(entities), m, entities);
      }
    }

    // The entities by first mention, ties by name.
    method MentionOrder() returns (order: seq<string>)
      requires WellNamed(entities)
      ensures InMentionOrder(entities, order) && Distinct(order)
    {
      EarlierIsOrder();
      var pairs := SortedListing(Earlier, set n | n in entities :: (entities[n].firstMentioned, n));
      order := seq(|pairs|, k requires 0 <= k < |pairs| => pairs[k].1);
      ListedInOrder(entities, pairs, order);
    }
  }

  // What a session does to its graph.
  datatype Operation =
    | Apply(u: Update, now: Time)
    | Record(written: string, kind: EntityType, now: Time, description: string)
    | Relate(r: Relation, now: Time)
    | Merge(alias: string, into: string, now: Time)
    | Remove(name: string)

  method Perform(g: SimpleEntityGraph, op: Operation)
    requires g.Valid()
    modifies g
    ensures g.Valid()
  {
    hide IsStructured, AliasExact, EntityKey;
    match op
    case Apply(u, now) => g.ApplyUpdate(u, now);
    case Record(written, kind, now, description) => g.AddOrUpdateEntity(written, kind, now, description);
    case Relate(r, now) => g.AddRelationship(r, now);
    case Merge(alias, into, now) => var merged := g.MergeEntities(alias, into, now);
    case Remove(name) => var removed := g.RemoveEntity(name);
  }

  // After any run every spelling of a name refers to the one entity its key
  // belongs to.
  method Replay(ops: seq<Operation>) returns (g: SimpleEntityGraph)
    ensures fresh(g) && g.Valid()
    ensures forall a, b :: EntityKey(a) == EntityKey(b) ==> g.Resolve(a) == g.Resolve(b)
    ensures forall n, x :: n in g.entities && IsNameOf(g.entities[n], x) ==> g.Resolve(x) == Some(n)
  {
    hide IsStructured, AliasExact, EntityKey, WellNamed, ResolveIn;
    g := new SimpleEntityGraph();
    for k := 0 to |ops|
      invariant fresh(g) && g.Valid()
    {
      Perform(g, ops[k]);
    }
    KnownNames(g.entities, g.mentions, g.graph, g.entityToNode, g.nodeToEntity, g.aliasIndex);
    forall a, b | EntityKey(a) == EntityKey(b)
      ensures g.Resolve(a) == g.Resolve(b)
    {
      SameKeySameEntity(g.entities, g.aliasIndex, a, b);
    }
    forall n, x | n in g.entities && IsNameOf(g.entities[n], x)
      ensures g.Resolve(x) == Some(n)
    {
      NameResolves(g.entities, g.aliasIndex, n, x);
    }
  }

  lemma NameIsKey(entities: Entities, n: string, x: string)
    requires n in entities && IsNameOf(entities[n], x)
    ensures IsKeyOf(entities, n, EntityKey(x))
  {
  }

  lemma NameResolves(entities: Entities, index: AliasIndex, n: string, x: string)
    requires WellNamed(entities) && AliasExact(entities, index) && n in entities && IsNameOf(entities[n], x)
    ensures ResolveIn(entities, index, x) == Some(n)
  {
    ResolveByKey(entities, index, x);
  }
}
