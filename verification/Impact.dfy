// Impact analysis: who depends, directly or through others, on an entity.
module Impact {
  import opened Types
  import opened Sorting
  import opened Strings
  import opened DiGraph
  import opened Names
  import opened Quotient
  import opened GraphState
  import opened EntityGraph
  import opened Reach
  import opened Risks

  datatype ImpactEntry = ImpactEntry(entity: string, dependsOn: string, kind: RelationType, context: string)

  datatype ImpactItem = ImpactItem(entity: string, entityType: Option<EntityType>, via: string, kind: RelationType,
                                   context: string, depth: nat)

  predicate IsDependency(kind: RelationType) {
    kind == DependsOn || kind == RequiredBy || kind == Implements
  }

  // The relation makes b depend on a. A required-by relation makes each of
  // its ends depend on the other.
  predicate Impacts(r: Relation, b: string, a: string) {
    r.from != r.to &&
    ((r.from == b && r.to == a && r.kind in {DependsOn, RequiredBy, Implements}) ||
     (r.from == a && r.to == b && r.kind == RequiredBy))
  }

  ghost predicate Depends(rels: set<Relation>, b: string, a: string) {
    exists r :: r in rels && Impacts(r, b, a)
  }

  // The relation makes b depend on a as its kind is described: whatever is
  // required by b, b depends on, and not the other way round.
  predicate ImpactsAsDescribed(r: Relation, b: string, a: string) {
    r.from != r.to &&
    if r.kind == RequiredBy then r.from == a && r.to == b
    else r.from == b && r.to == a && r.kind in {DependsOn, Implements}
  }

  ghost predicate DependsAsDescribed(rels: set<Relation>, b: string, a: string) {
    exists r :: r in rels && ImpactsAsDescribed(r, b, a)
  }

  // What is required by a queried entity depends on it by some other relation.
  ghost predicate RequiredDependBack(rels: set<Relation>, query: seq<string>) {
    forall r :: r in rels && r.kind == RequiredBy && r.from != r.to && r.to in query ==>
      DependsAsDescribed(rels, r.from, r.to)
  }

  // A required-by relation also makes what is required depend on what
  // requires it, so the two readings of dependency agree on the queried
  // entities exactly when those dependencies are there anyway.
  lemma DescribedExactlyWhen(rels: set<Relation>, query: seq<string>)
    ensures (forall b, a :: a in query ==> (Depends(rels, b, a) <==> DependsAsDescribed(rels, b, a)))
      <==> RequiredDependBack(rels, query)
  {
    forall b, a | DependsAsDescribed(rels, b, a)
      ensures Depends(rels, b, a)
    {
      var r :| r in rels && ImpactsAsDescribed(r, b, a);
      assert Impacts(r, b, a);
    }
    forall r | r in rels && r.kind == RequiredBy && r.from != r.to
      ensures Depends(rels, r.from, r.to)
    {
      assert Impacts(r, r.from, r.to);
    }
    if RequiredDependBack(rels, query) {
      forall b, a | a in query && Depends(rels, b, a)
        ensures DependsAsDescribed(rels, b, a)
      {
        var r :| r in rels && Impacts(r, b, a);
        assert ImpactsAsDescribed(r, b, a) || (r.kind == RequiredBy && r.from == b && r.to == a);
      }
    }
  }

  // Steps from an entity to what depends on it.
  ghost function Dependency(rels: set<Relation>): (string, string) -> bool {
    (a, b) => Depends(rels, b, a)
  }

  // The entry states a relation that makes its entity depend on a queried one.
  ghost predicate IsImpact(rels: set<Relation>, query: seq<string>, e: ImpactEntry) {
    e.dependsOn in query && Shows(rels, e.entity, e.dependsOn, e.kind, e.context)
  }

  ghost predicate Shows(rels: set<Relation>, b: string, a: string, kind: RelationType, context: string) {
    exists r :: r in rels && Impacts(r, b, a) && r.kind == kind && r.context == context
  }

  ghost predicate HasPair(impacts: seq<ImpactEntry>, b: string, a: string) {
    exists k :: 0 <= k < |impacts| && impacts[k].entity == b && impacts[k].dependsOn == a
  }

  ghost predicate DistinctPairs(impacts: seq<ImpactEntry>) {
    forall i, j :: 0 <= i < j < |impacts| ==>
      impacts[i].entity != impacts[j].entity || impacts[i].dependsOn != impacts[j].dependsOn
  }

  // Every dependency on a queried entity found by scanning all relations is
  // listed as a pair, each once, with a relation that shows it.
  ghost predicate IsImpactList(rels: set<Relation>, query: seq<string>, impacts: seq<ImpactEntry>) {
    && DistinctPairs(impacts)
    && (forall e :: e in impacts ==> IsImpact(rels, query, e))
    && (forall b, a :: HasPair(impacts, b, a) <==> a in query && Depends(rels, b, a))
  }

  function ImpactsOf(r: Relation, query: seq<string>): seq<ImpactEntry> {
    if r.from == r.to then []
    else
      (if IsDependency(r.kind) && r.to in query then [ImpactEntry(r.from, r.to, r.kind, r.context)] else []) +
      (if r.kind == RequiredBy && r.from in query then [ImpactEntry(r.to, r.from, r.kind, r.context)] else [])
  }

  lemma ImpactsOfRelation(r: Relation, query: seq<string>, e: ImpactEntry)
    ensures e in ImpactsOf(r, query) <==>
      e.dependsOn in query && Impacts(r, e.entity, e.dependsOn) && e.kind == r.kind && e.context == r.context
    ensures e in ImpactsOf(r, query) ==> TouchesName(r, e.dependsOn)
  {
  }

  // Entries shown by relations at the first k queried entities, and no others.
  ghost predicate Gathered(rels: set<Relation>, query: seq<string>, k: nat, all: seq<ImpactEntry>)
    requires k <= |query|
  {
    && (forall e :: e in all ==> IsImpact(rels, query, e))
    && (forall e :: IsImpact(rels, query, e) && e.dependsOn in query[..k] ==> e in all)
  }

  ghost predicate GatheredAt(rels: set<Relation>, query: seq<string>, at: seq<Relation>, all: seq<ImpactEntry>) {
    && (forall e :: e in all ==> IsImpact(rels, query, e))
    && (forall r, e :: r in at && e in ImpactsOf(r, query) ==> e in all)
  }

  method GatherAt(ghost rels: set<Relation>, query: seq<string>, at: seq<Relation>, all0: seq<ImpactEntry>)
    returns (all: seq<ImpactEntry>)
    requires forall r :: r in at ==> r in rels
    requires forall e :: e in all0 ==> IsImpact(rels, query, e)
    ensures GatheredAt(rels, query, at, all) && forall e :: e in all0 ==> e in all
  {
    hide ImpactsOf, Impacts;
    all := all0;
    for j := 0 to |at|
      invariant GatheredAt(rels, query, at[..j], all) && forall e :: e in all0 ==> e in all
    {
      assert at[..j + 1] == at[..j] + [at[j]];
      forall e { ImpactsOfRelation(at[j], query, e); }
      assert at[j] in at;
      all := all + ImpactsOf(at[j], query);
    }
    assert at[..|at|] == at;
  }

  lemma GatheredNext(rels: set<Relation>, query: seq<string>, k: nat, at: seq<Relation>, before: seq<ImpactEntry>,
                     all: seq<ImpactEntry>)
    requires k < |query| && Gathered(rels, query, k, before) && GatheredAt(rels, query, at, all)
    requires forall e :: e in before ==> e in all
    requires forall r :: r in at <==> r in rels && TouchesName(r, query[k])
    ensures Gathered(rels, query, k + 1, all)
  {
    hide ImpactsOf, Impacts, TouchesName;
    assert query[..k + 1] == query[..k] + [query[k]];
    forall e | IsImpact(rels, query, e) && e.dependsOn in query[..k + 1]
      ensures e in all
    {
      if e.dependsOn !in query[..k] {
        var r :| r in rels && Impacts(r, e.entity, e.dependsOn) && r.kind == e.kind && r.context == e.context;
        ImpactsOfRelation(r, query, e);
        assert e.dependsOn == query[k] && r in at;
      }
    }
  }

  // Keep the first entry of each pair.
  method KeepFirst(all: seq<ImpactEntry>) returns (impacts: seq<ImpactEntry>)
    ensures DistinctPairs(impacts) && forall e :: e in impacts ==> e in all
    ensures forall b, a :: HasPair(impacts, b, a) <==> HasPair(all, b, a)
  {
    impacts := [];
    var seen: set<(string, string)> := {};
    for k := 0 to |all|
      invariant DistinctPairs(impacts) && forall e :: e in impacts ==> e in all
      invariant forall b, a :: (b, a) in seen <==> HasPair(all[..k], b, a)
      invariant forall b, a :: (b, a) in seen <==> HasPair(impacts, b, a)
    {
      var e := all[k];
      PairSnoc(all[..k], e);
      PairSnoc(impacts, e);
      assert all[..k + 1] == all[..k] + [e];
      hide HasPair;
      if (e.entity, e.dependsOn) !in seen {
        assert DistinctPairs(impacts + [e]) by { PairsStayDistinct(impacts, e); }
        seen := seen + {(e.entity, e.dependsOn)};
        impacts := impacts + [e];
      }
    }
    assert all[..|all|] == all;
  }

  lemma PairSnoc(s: seq<ImpactEntry>, e: ImpactEntry)
    ensures forall b, a :: HasPair(s + [e], b, a) <==> HasPair(s, b, a) || (e.entity == b && e.dependsOn == a)
  {
    var t := s + [e];
    forall b, a | HasPair(s, b, a)
      ensures HasPair(t, b, a)
    {
      var k :| 0 <= k < |s| && s[k].entity == b && s[k].dependsOn == a;
      assert t[k] == s[k];
    }
    assert t[|s|] == e;
  }

  lemma PairsStayDistinct(s: seq<ImpactEntry>, e: ImpactEntry)
    requires DistinctPairs(s) && !HasPair(s, e.entity, e.dependsOn)
    ensures DistinctPairs(s + [e])
  {
  }

  lemma PairsShown(rels: set<Relation>, query: seq<string>, all: seq<ImpactEntry>, impacts: seq<ImpactEntry>)
    requires Gathered(rels, query, |query|, all)
    requires DistinctPairs(impacts) && forall e :: e in impacts ==> e in all
    requires forall b, a :: HasPair(impacts, b, a) <==> HasPair(all, b, a)
    ensures IsImpactList(rels, query, impacts)
  {
    hide Impacts, DistinctPairs;
    assert query[..|query|] == query;
    forall b, a
      ensures HasPair(all, b, a) <==> a in query && Depends(rels, b, a)
    {
      if a in query && Depends(rels, b, a) {
        var r :| r in rels && Impacts(r, b, a);
        var e := ImpactEntry(b, a, r.kind, r.context);
        assert IsImpact(rels, query, e);
        var k :| 0 <= k < |all| && all[k] == e;
      }
      if HasPair(all, b, a) {
        var k :| 0 <= k < |all| && all[k].entity == b && all[k].dependsOn == a;
        assert all[k] in all;
      }
    }
  }

  // Walks the edges of the queried entities only.
  method AnalyzeImpact(query: seq<string>, g: SimpleEntityGraph) returns (impacts: seq<ImpactEntry>)
    requires g.Structured()
    ensures IsImpactList(g.Rels(), query, impacts)
    ensures (forall b, a :: HasPair(impacts, b, a) <==> a in query && DependsAsDescribed(g.Rels(), b, a))
      <==> RequiredDependBack(g.Rels(), query)
  {
    hide IsStructured, Relations, IsImpact, Depends, DependsAsDescribed, RequiredDependBack, TouchesName, ImpactsOf,
      GatheredAt, DistinctPairs, HasPair, IsImpactList, DistinctTriples;
    var all: seq<ImpactEntry> := [];
    for k := 0 to |query|
      invariant Gathered(g.Rels(), query, k, all)
    {
      var at := g.RelationshipsOf(query[k]);
      ghost var before := all;
      all := GatherAt(g.Rels(), query, at, all);
      assert Gathered(g.Rels(), query, k + 1, all) by { GatheredNext(g.Rels(), query, k, at, before, all); }
    }
    impacts := KeepFirst(all);
    PairsShown(g.Rels(), query, all, impacts);
    DescribedExactlyWhen(g.Rels(), query);
    PairsListed(g.Rels(), query, impacts);
  }

  lemma PairsListed(rels: set<Relation>, query: seq<string>, impacts: seq<ImpactEntry>)
    requires IsImpactList(rels, query, impacts)
    ensures forall b, a :: HasPair(impacts, b, a) <==> a in query && Depends(rels, b, a)
  {
  }

  // A dependent at its shortest chain, reached over one that is a hop nearer
  // by a relation that shows it.
  ghost predicate IsItem(rels: set<Relation>, entities: Entities, entity: string, item: ImpactItem) {
    && item.depth > 0
    && IsDistance(Dependency(rels), entity, item.entity, item.depth)
    && IsDistance(Dependency(rels), entity, item.via, item.depth - 1)
    && Shows(rels, item.entity, item.via, item.kind, item.context)
    && (item.entity in entities ==> item.entityType == Some(entities[item.entity].kind))
    && (item.entity !in entities ==> item.entityType == None)
  }

  function TypeOf(entities: Entities, name: string): Option<EntityType> {
    if name in entities then Some(entities[name].kind) else None
  }

  ghost predicate Lists(items: seq<ImpactItem>, x: string) {
    exists k :: 0 <= k < |items| && items[k].entity == x
  }

  // Each dependent once, nearest first.
  ghost predicate NearestFirst(items: seq<ImpactItem>) {
    forall i, j :: 0 <= i < j < |items| ==> items[i].entity != items[j].entity && items[i].depth <= items[j].depth
  }

  // Exactly what depends on entity within a number of hops, itself excepted.
  ghost predicate AreDependents(rels: set<Relation>, entities: Entities, entity: string, hops: nat,
                                items: seq<ImpactItem>) {
    && NearestFirst(items)
    && (forall item :: item in items ==> IsItem(rels, entities, entity, item) && item.depth <= hops)
    && (forall x :: Lists(items, x) <==> x != entity && Within(Dependency(rels), entity, x, hops))
  }

  ghost predicate LayerState(rels: set<Relation>, entities: Entities, entity: string, hops: nat, seen: set<string>,
                             frontier: seq<string>, items: seq<ImpactItem>)
  {
    && AreDependents(rels, entities, entity, hops, items)
    && (forall x :: x in seen <==> Within(Dependency(rels), entity, x, hops))
    && (forall x :: x in frontier <==> IsDistance(Dependency(rels), entity, x, hops))
  }

  // The entities of the entries so far join what was seen; each new one is
  // listed with the first entry that names it.
  ghost predicate Visited(entities: Entities, hop: nat, impacts: seq<ImpactEntry>, seen0: set<string>,
                          items0: seq<ImpactItem>,
                          seen: set<string>, next: seq<string>, items: seq<ImpactItem>)
  {
    && (forall x :: x in seen <==> x in seen0 || HasEntity(impacts, x))
    && (forall x :: x in next <==> x in seen && x !in seen0)
    && Distinct(next) && |items| == |items0| + |next| && items0 <= items
    && (forall k :: 0 <= k < |next| ==> items[|items0| + k].entity == next[k])
    && (forall k :: |items0| <= k < |items| ==> ComesFrom(entities, impacts, hop, items[k]))
  }

  ghost predicate ComesFrom(entities: Entities, impacts: seq<ImpactEntry>, hop: nat, item: ImpactItem) {
    exists j :: 0 <= j < |impacts| && item == ItemOf(entities, impacts[j], hop)
  }

  ghost predicate HasEntity(impacts: seq<ImpactEntry>, x: string) {
    exists k :: 0 <= k < |impacts| && impacts[k].entity == x
  }

  function ItemOf(entities: Entities, e: ImpactEntry, hop: nat): ImpactItem {
    ImpactItem(e.entity, TypeOf(entities, e.entity), e.dependsOn, e.kind, e.context, hop)
  }

  lemma ItemEntity(entities: Entities, e: ImpactEntry, hop: nat)
    ensures ItemOf(entities, e, hop).entity == e.entity
  {
  }

  lemma VisitNext(entities: Entities, hop: nat, impacts: seq<ImpactEntry>, e: ImpactEntry, seen0: set<string>,
                  items0: seq<ImpactItem>,
                  seen: set<string>, next: seq<string>, items: seq<ImpactItem>)
    requires Visited(entities, hop, impacts, seen0, items0, seen, next, items)
    ensures e.entity in seen ==> Visited(entities, hop, impacts + [e], seen0, items0, seen, next, items)
    ensures e.entity !in seen ==>
      Visited(entities, hop, impacts + [e], seen0, items0, seen + {e.entity}, next + [e.entity],
        items + [ItemOf(entities, e, hop)])
  {
    hide ItemOf;
    forall x
      ensures HasEntity(impacts + [e], x) <==> HasEntity(impacts, x) || e.entity == x
    {
      if HasEntity(impacts, x) {
        var k :| 0 <= k < |impacts| && impacts[k].entity == x;
        assert (impacts + [e])[k].entity == x;
      }
      assert (impacts + [e])[|impacts|] == e;
    }
    forall item
      ensures ComesFrom(entities, impacts + [e], hop, item) <==>
        ComesFrom(entities, impacts, hop, item) || item == ItemOf(entities, e, hop)
    {
      if ComesFrom(entities, impacts, hop, item) {
        var j :| 0 <= j < |impacts| && item == ItemOf(entities, impacts[j], hop);
        assert (impacts + [e])[j] == impacts[j];
      }
      assert (impacts + [e])[|impacts|] == e;
    }
    assert ItemOf(entities, e, hop).entity == e.entity by { ItemEntity(entities, e, hop); }
    hide HasEntity, ComesFrom;
  }

  method VisitImpacts(entities: Entities, hop: nat, impacts: seq<ImpactEntry>, seen0: set<string>,
                      items0: seq<ImpactItem>)
    returns (seen: set<string>, next: seq<string>, items: seq<ImpactItem>)
    ensures Visited(entities, hop, impacts, seen0, items0, seen, next, items)
  {
    seen, next, items := seen0, [], items0;
    for k := 0 to |impacts|
      invariant Visited(entities, hop, impacts[..k], seen0, items0, seen, next, items)
    {
      var e := impacts[k];
      VisitNext(entities, hop, impacts[..k], e, seen0, items0, seen, next, items);
      assert impacts[..k + 1] == impacts[..k] + [e];
      hide Visited;
      if e.entity !in seen {
        seen := seen + {e.entity};
        next := next + [e.entity];
        items := items + [ItemOf(entities, e, hop)];
      }
    }
    assert impacts[..|impacts|] == impacts;
  }

  lemma EntityMeaning(rels: set<Relation>, query: seq<string>, impacts: seq<ImpactEntry>, x: string)
    requires IsImpactList(rels, query, impacts)
    ensures HasEntity(impacts, x) <==> exists a :: a in query && Depends(rels, x, a)
  {
    hide DistinctPairs, IsImpact, Depends;
    if HasEntity(impacts, x) {
      var k :| 0 <= k < |impacts| && impacts[k].entity == x;
      assert HasPair(impacts, x, impacts[k].dependsOn);
    }
    if a :| a in query && Depends(rels, x, a) {
      assert HasPair(impacts, x, a);
    }
  }

  // One more hop: what the frontier's dependents add.
  lemma LayerStep(rels: set<Relation>, entity: string, hops: nat, seen: set<string>, frontier: seq<string>,
                  impacts: seq<ImpactEntry>, x: string)
    requires forall y :: y in seen <==> Within(Dependency(rels), entity, y, hops)
    requires forall y :: y in frontier <==> IsDistance(Dependency(rels), entity, y, hops)
    requires IsImpactList(rels, frontier, impacts)
    ensures x in seen || HasEntity(impacts, x) <==> Within(Dependency(rels), entity, x, hops + 1)
  {
    var adj := Dependency(rels);
    EntityMeaning(rels, frontier, impacts, x);
    hide IsImpactList, HasEntity, Depends;
    if Within(adj, entity, x, hops + 1) && !Within(adj, entity, x, hops) {
      var u :| Within(adj, entity, u, hops) && adj(u, x);
      assert IsDistance(adj, entity, u, hops) && u in frontier && Depends(rels, x, u);
    }
    if HasEntity(impacts, x) {
      var a :| a in frontier && Depends(rels, x, a);
      assert Within(adj, entity, a, hops) && adj(a, x);
    }
  }

  lemma NewItems(rels: set<Relation>, entities: Entities, entity: string, hops: nat, seen0: set<string>,
                 frontier: seq<string>,
                 items0: seq<ImpactItem>, impacts: seq<ImpactEntry>, seen: set<string>, next: seq<string>,
                 items: seq<ImpactItem>)
    requires LayerState(rels, entities, entity, hops, seen0, frontier, items0) && IsImpactList(rels, frontier, impacts)
    requires Visited(entities, hops + 1, impacts, seen0, items0, seen, next, items)
    ensures forall x :: x in seen <==> Within(Dependency(rels), entity, x, hops + 1)
    ensures forall x :: x in next <==> IsDistance(Dependency(rels), entity, x, hops + 1)
    ensures forall k :: |items0| <= k < |items| ==>
      IsItem(rels, entities, entity, items[k]) && items[k].depth == hops + 1 && items[k].entity == next[k - |items0|]
  {
    forall x { LayerStep(rels, entity, hops, seen0, frontier, impacts, x); }
    hide Within, HasEntity, AreDependents, Distinct, Shows, HasPair, DistinctPairs;
    forall x
      ensures x in next <==> IsDistance(Dependency(rels), entity, x, hops + 1)
    {
    }
    forall k | |items0| <= k < |items|
      ensures IsItem(rels, entities, entity, items[k]) && items[k].depth == hops + 1
      ensures items[k].entity == next[k - |items0|]
    {
      assert ComesFrom(entities, impacts, hops + 1, items[k]);
      var j :| 0 <= j < |impacts| && items[k] == ItemOf(entities, impacts[j], hops + 1);
      assert impacts[j] in impacts && IsImpact(rels, frontier, impacts[j]);
      assert next[k - |items0|] in next;
      assert items[|items0| + (k - |items0|)].entity == next[k - |items0|];
    }
  }

  lemma LayerNext(rels: set<Relation>, entities: Entities, entity: string, hops: nat, seen0: set<string>,
                  frontier: seq<string>,
                  items0: seq<ImpactItem>, impacts: seq<ImpactEntry>, seen: set<string>, next: seq<string>,
                  items: seq<ImpactItem>)
    requires LayerState(rels, entities, entity, hops, seen0, frontier, items0) && IsImpactList(rels, frontier, impacts)
    requires Visited(entities, hops + 1, impacts, seen0, items0, seen, next, items)
    ensures LayerState(rels, entities, entity, hops + 1, seen, next, items)
  {
    NewItems(rels, entities, entity, hops, seen0, frontier, items0, impacts, seen, next, items);
    hide Within, IsDistance, IsItem, IsImpactList, HasEntity, ItemOf;
    NextAreListed(entities, hops + 1, impacts, seen0, items0, seen, next, items);
    assert forall x :: Lists(items0, x) <==> x != entity && x in seen0;
    assert entity in seen0 by { StartIsWithin(rels, entity, hops); }
    ItemsStaySorted(items0, next, items, hops + 1);
    forall item | item in items
      ensures IsItem(rels, entities, entity, item) && item.depth <= hops + 1
    {
      var k :| 0 <= k < |items| && items[k] == item;
      if k < |items0| {
        assert items0[k] == item && item in items0;
      }
    }
  }

  lemma NextAreListed(entities: Entities, hop: nat, impacts: seq<ImpactEntry>, seen0: set<string>,
                      items0: seq<ImpactItem>,
                      seen: set<string>, next: seq<string>, items: seq<ImpactItem>)
    requires Visited(entities, hop, impacts, seen0, items0, seen, next, items)
    ensures forall x :: Lists(items, x) <==> Lists(items0, x) || (x in seen && x !in seen0)
  {
    hide HasEntity, ItemOf;
    forall x
      ensures Lists(items, x) <==> Lists(items0, x) || x in next
    {
      if Lists(items, x) {
        var k :| 0 <= k < |items| && items[k].entity == x;
        if k < |items0| {
          assert items0[k] == items[k];
        } else {
          assert items[|items0| + (k - |items0|)].entity == next[k - |items0|];
        }
      }
      if Lists(items0, x) {
        var k :| 0 <= k < |items0| && items0[k].entity == x;
        assert items[k] == items0[k];
      }
      if x in next {
        var k :| 0 <= k < |next| && next[k] == x;
        assert items[|items0| + k].entity == x;
      }
    }
  }

  lemma StartIsWithin(rels: set<Relation>, entity: string, hops: nat)
    ensures Within(Dependency(rels), entity, entity, hops)
  {
    WithinMonotone(Dependency(rels), entity, entity, 0, hops);
  }

  lemma ItemsStaySorted(items0: seq<ImpactItem>, next: seq<string>, items: seq<ImpactItem>, hop: nat)
    requires NearestFirst(items0) && Distinct(next) && |items| == |items0| + |next| && items0 <= items
    requires forall item :: item in items0 ==> item.depth <= hop
    requires forall k :: |items0| <= k < |items| ==> items[k].depth == hop && items[k].entity == next[k - |items0|]
    requires forall x :: x in next ==> !Lists(items0, x)
    ensures NearestFirst(items)
  {
    forall k | 0 <= k < |items0|
      ensures items[k].entity !in next && items[k].depth <= hop
    {
      assert items[k] == items0[k] && items0[k] in items0 && Lists(items0, items0[k].entity);
    }
    forall k | |items0| <= k < |items|
      ensures items[k].entity in next
    {
    }
  }

  ghost predicate NoneAt(adj: (string, string) -> bool, entity: string, d: nat) {
    forall y :: !IsDistance(adj, entity, y, d)
  }

  // When a layer is empty, so are all beyond it.
  lemma {:induction false} EmptyLayer(adj: (string, string) -> bool, entity: string, hops: nat, d: nat, x: string)
    requires hops <= d && NoneAt(adj, entity, hops + 1)
    ensures Within(adj, entity, x, d) <==> Within(adj, entity, x, hops)
    decreases d
  {
    if Within(adj, entity, x, hops) {
      WithinMonotone(adj, entity, x, hops, d);
    }
    if d > hops && Within(adj, entity, x, d) && !Within(adj, entity, x, d - 1) {
      var u :| Within(adj, entity, u, d - 1) && adj(u, x);
      EmptyLayer(adj, entity, hops, d - 1, u);
      assert Within(adj, entity, x, hops + 1) && !IsDistance(adj, entity, x, hops + 1);
    } else if d > hops && Within(adj, entity, x, d) {
      EmptyLayer(adj, entity, hops, d - 1, x);
    }
  }

  lemma NoMoreDependents(rels: set<Relation>, entities: Entities, entity: string, hops: nat, d: nat,
                         seen: set<string>, items: seq<ImpactItem>)
    requires LayerState(rels, entities, entity, hops + 1, seen, [], items) && hops + 1 <= d
    ensures AreDependents(rels, entities, entity, d, items)
  {
    var adj := Dependency(rels);
    hide IsItem;
    assert NoneAt(adj, entity, hops + 1);
    forall x
      ensures Within(adj, entity, x, d) <==> Within(adj, entity, x, hops + 1)
    {
      EmptyLayer(adj, entity, hops, d, x);
      EmptyLayer(adj, entity, hops, hops + 1, x);
    }
    hide Within, IsDistance;
  }

  lemma FirstLayer(rels: set<Relation>, entities: Entities, entity: string)
    ensures LayerState(rels, entities, entity, 0, {entity}, [entity], [])
  {
  }

  lemma SameFrontier(rels: set<Relation>, entities: Entities, entity: string, hops: nat, seen: set<string>,
                     next: seq<string>,
                     sorted: seq<string>, items: seq<ImpactItem>)
    requires LayerState(rels, entities, entity, hops, seen, next, items) && forall x :: x in sorted <==> x in next
    ensures LayerState(rels, entities, entity, hops, seen, sorted, items)
  {
    hide AreDependents, Within, IsDistance;
  }

  // Everything that depends on an entity over at most max(depth, 1) hops.
  method Dependents(g: SimpleEntityGraph, entity: string, depth: nat) returns (items: seq<ImpactItem>)
    requires g.Structured()
    ensures AreDependents(g.Rels(), g.entities, entity, if depth > 1 then depth else 1, items)
  {
    hide IsStructured, Relations, LayerState, AreDependents, IsImpactList, Visited;
    var hops := if depth > 1 then depth else 1;
    var seen, frontier := {entity}, [entity];
    items := [];
    FirstLayer(g.Rels(), g.entities, entity);
    for hop := 0 to hops
      invariant LayerState(g.Rels(), g.entities, entity, hop, seen, frontier, items)
    {
      var impacts := AnalyzeImpact(frontier, g);
      ghost var seen0, items0 := seen, items;
      var next: seq<string>;
      seen, next, items := VisitImpacts(g.entities, hop + 1, impacts, seen, items);
      LayerNext(g.Rels(), g.entities, entity, hop, seen0, frontier, items0, impacts, seen, next, items);
      if next == [] {
        NoMoreDependents(g.Rels(), g.entities, entity, hop, hops, seen, items);
        return;
      }
      SortElements(StrLess, next);
      SameFrontier(g.Rels(), g.entities, entity, hop + 1, seen, next, Sort(StrLess, next), items);
      frontier := Sort(StrLess, next);
    }
    LayersAreDependents(g.Rels(), g.entities, entity, hops, seen, frontier, items);
  }

  lemma LayersAreDependents(rels: set<Relation>, entities: Entities, entity: string, hops: nat, seen: set<string>,
                            frontier: seq<string>, items: seq<ImpactItem>)
    requires LayerState(rels, entities, entity, hops, seen, frontier, items)
    ensures AreDependents(rels, entities, entity, hops, items)
  {
    hide AreDependents;
  }

  // Equal up to case means equal keys.
  lemma {:induction false} SameLowerSameSignificant(a: string, b: string)
    requires LowerAll(a) == LowerAll(b)
    ensures LowerAll(Significant(a)) == LowerAll(Significant(b))
  {
    if a != "" {
      assert LowerAll(a)[0] == Lower(a[0]) && LowerAll(b)[0] == Lower(b[0]);
      assert LowerAll(a)[1..] == LowerAll(a[1..]) && LowerAll(b)[1..] == LowerAll(b[1..]);
      SameLowerSameSignificant(a[1..], b[1..]);
    }
  }

  lemma SameLowerSameKey(a: string, b: string)
    requires LowerAll(a) == LowerAll(b)
    ensures EntityKey(a) == EntityKey(b)
  {
    SameLowerSameSignificant(a, b);
  }

  lemma FirstMatch(names: seq<string>, k: nat, name: string)
    requires StrictOrder(StrLess) && SortedBy(StrLess, names) && k < |names|
    requires forall j :: 0 <= j < k ==> !EqualButCase(names[j], name)
    ensures forall n :: n in names && EqualButCase(n, name) ==> !StrLess(n, names[k])
  {
    hide StrLess, EqualButCase;
    forall n | n in names && EqualButCase(n, name)
      ensures !StrLess(n, names[k])
    {
      var j :| 0 <= j < |names| && names[j] == n;
      if j > k {
        assert StrLess(names[k], names[j]);
      }
    }
  }

  // The first entity whose name differs from name at most in case.
  ghost predicate IsFirstByCase(entities: Entities, name: string, found: Option<string>) {
    match found
    case Some(n) =>
      n in entities && EqualButCase(n, name) &&
      forall m :: m in entities && EqualButCase(m, name) ==> !StrLess(m, n)
    case None =>
      forall m :: m in entities ==> !EqualButCase(m, name)
  }

  method FirstByCase(entities: Entities, name: string) returns (found: Option<string>)
    ensures IsFirstByCase(entities, name, found)
  {
    hide StrLess, LowerAll, Distinct, EqualButCase;
    StrLessIsOrder();
    var names := SortedListing(StrLess, entities.Keys);
    for k := 0 to |names|
      invariant forall j :: 0 <= j < k ==> !EqualButCase(names[j], name)
    {
      LowerIsEqualButCase(names[k], name);
      if LowerAll(names[k]) == LowerAll(name) {
        assert names[k] in names;
        FirstMatch(names, k, name);
        return Some(names[k]);
      }
    }
    found := None;
  }

  // With an exact index, matching up to case finds nothing that resolving
  // does not.
  lemma FallbackIsIdle(entities: Entities, index: AliasIndex, name: string, found: Option<string>)
    requires WellNamed(entities) && AliasExact(entities, index)
    requires ResolveIn(entities, index, name).None? && IsFirstByCase(entities, name, found)
    ensures found.None?
  {
    hide StrLess, LowerAll, EntityKey, EqualButCase;
    if found.Some? {
      LowerIsEqualButCase(found.value, name);
      SameLowerSameKey(found.value, name);
      SameKeySameEntity(entities, index, found.value, name);
    }
  }

  // The entity meant by a name: what it resolves to, or else the first one
  // whose name differs only in case.
  method FindEntity(g: SimpleEntityGraph, name: string) returns (found: Option<string>)
    requires g.Structured()
    ensures found.Some? ==> found.value in g.entities
    ensures g.Resolve(name).Some? ==> found == g.Resolve(name)
    ensures g.Resolve(name).None? ==> IsFirstByCase(g.entities, name, found)
    ensures g.Valid() ==> found == g.Resolve(name)
  {
    hide AliasExact, IsFirstByCase, ResolveIn;
    ResolvedKnown(g.entities, g.aliasIndex, g.mentions, g.graph, g.entityToNode, g.nodeToEntity, name);
    hide IsStructured, WellNamed;
    found := g.Resolve(name);
    if found.None? {
      found := FirstByCase(g.entities, name);
      assert found.Some? ==> found.value in g.entities by { FoundIsKnown(g.entities, name, found); }
      if AliasExact(g.entities, g.aliasIndex) {
        FallbackIsIdle(g.entities, g.aliasIndex, name, found);
      }
    }
  }

  lemma FoundIsKnown(entities: Entities, name: string, found: Option<string>)
    requires IsFirstByCase(entities, name, found)
    ensures found.Some? ==> found.value in entities
  {
  }

  // The entity and its dependents.
  function ImpactNames(entity: string, items: seq<ImpactItem>): (names: seq<string>)
    ensures forall x :: x in names <==> x == entity || Lists(items, x)
  {
    var names := seq(|items|, k requires 0 <= k < |items| => items[k].entity);
    assert forall k :: 0 <= k < |items| ==> names[k] == items[k].entity;
    [entity] + names
  }

  datatype View = View(entity: string, dependents: seq<ImpactItem>, risks: seq<Record>)

  // The dependents of the entity a name means, and the records at risk about
  // any of them; none if it means none.
  method ImpactView(g: SimpleEntityGraph, name: string, depth: nat, records: map<Uuid, Record>, limit: nat)
    returns (view: Option<View>)
    requires g.Structured() && ById(records)
    ensures g.Valid() ==> (view.Some? <==> g.Resolve(name).Some?)
    ensures g.Valid() && view.Some? ==> Some(view.value.entity) == g.Resolve(name)
    ensures view.None? <==> g.Resolve(name).None? && IsFirstByCase(g.entities, name, None)
    ensures view.Some? ==> view.value.entity in g.entities
    ensures view.Some? ==>
      AreDependents(g.Rels(), g.entities, view.value.entity, if depth > 1 then depth else 1, view.value.dependents)
    ensures view.Some? ==>
      AreRisks(g.mentions, ImpactNames(view.value.entity, view.value.dependents), records, limit, view.value.risks)
  {
    hide IsStructured, AliasExact, EntityKey, StrLess, LowerAll, Relations, AreDependents, AreRisks;
    var found := FindEntity(g, name);
    if found.None? {
      return None;
    }
    var items := Dependents(g, found.value, depth);
    var risks := FindRisks(g.mentions, ImpactNames(found.value, items), records, limit);
    view := Some(View(found.value, items, risks));
  }
}
