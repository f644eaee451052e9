// The neighbourhood of an entity: everything within a number of steps, in
// full or up to size limits.
module Network {
  import opened Types
  import opened Sorting
  import opened DiGraph
  import opened Names
  import opened Quotient
  import opened GraphState
  import opened EntityGraph
  import opened Reach

  // What is searched: the graph's relations and entities, the center, the
  // depth, and the limits.
  datatype Search = Search(
    rels: set<Relation>, all: Entities, center: string, limit: nat, maxEntities: nat, maxRelationships: nat)

  datatype EntityNetwork = EntityNetwork(center: string, entities: Entities, relationships: seq<Relation>)

  // Two names joined by a relation in either direction.
  ghost predicate Joined(rels: set<Relation>, a: string, b: string) {
    exists r :: r in rels && ((r.from == a && r.to == b) || (r.from == b && r.to == a))
  }

  ghost function JoinedBy(rels: set<Relation>): (string, string) -> bool {
    (a, b) => Joined(rels, a, b)
  }

  function OtherEnd(r: Relation, name: string): string {
    if r.from == name then r.to else r.from
  }

  // The entities added by scanning the relations at name: other ends not
  // there yet, all of them unless the limit is reached.
  ghost predicate ScannedEntities(all: Entities, entities0: Entities, name: string, at: seq<Relation>, max: nat,
                                  entities: Entities, more: seq<string>)
  {
    && Distinct(more)
    && (forall x :: x in more ==> x !in entities0 && exists r :: r in at && OtherEnd(r, name) == x)
    && (forall x :: x in entities <==> x in entities0 || x in more)
    && (forall x :: x in entities ==> x in all && entities[x] == all[x])
    && (|entities0| >= max ==> entities == entities0 && more == [])
    && (|entities0| <= max ==> |entities| <= max)
    && |entities| >= |entities0|
    && (forall r :: r in at ==> OtherEnd(r, name) in entities || |entities| >= max)
  }

  // The relations added: between entities of the network, each once, all of
  // them unless the limit is reached.
  ghost predicate ScannedRelations(rels0: seq<Relation>, name: string, at: seq<Relation>, max: nat,
                                   entities: Entities, rels: seq<Relation>)
  {
    && DistinctTriples(rels)
    && (forall r :: r in rels ==> r in rels0 || r in at)
    && (forall r :: r in rels0 ==> r in rels)
    && (forall r :: r in rels ==> r.from in entities && r.to in entities)
    && (|rels0| >= max ==> rels == rels0)
    && (|rels0| <= max ==> |rels| <= max)
    && |rels| >= |rels0|
    && (forall r :: r in at ==> r in rels || |rels| >= max || OtherEnd(r, name) !in entities)
  }

  function VisitEntity(all: Entities, name: string, r: Relation, max: nat, entities: Entities,
                       more: seq<string>): (Entities, seq<string>)
    requires r.from in all && r.to in all
  {
    var other := OtherEnd(r, name);
    if |entities| < max && other !in entities then (entities[other := all[other]], more + [other]) else (entities, more)
  }

  function VisitRelation(r: Relation, max: nat, entities: Entities, rels: seq<Relation>): seq<Relation> {
    if |rels| < max && r.from in entities && r.to in entities && !Seen(rels, r) then rels + [r] else rels
  }

  // A relation with the same ends and kind is listed already.
  predicate Seen(rels: seq<Relation>, r: Relation) {
    exists k :: 0 <= k < |rels| && SameTriple(rels[k], r)
  }

  lemma EntityStep(all: Entities, entities0: Entities, name: string, at: seq<Relation>, max: nat,
                   entities: Entities, more: seq<string>, r: Relation)
    requires ScannedEntities(all, entities0, name, at, max, entities, more) && r.from in all && r.to in all
    ensures var next := VisitEntity(all, name, r, max, entities, more);
      ScannedEntities(all, entities0, name, at + [r], max, next.0, next.1)
  {
    var next := VisitEntity(all, name, r, max, entities, more);
    var other := OtherEnd(r, name);
    forall x | x in next.1
      ensures x !in entities0 && exists s :: s in at + [r] && OtherEnd(s, name) == x
    {
      if x in more {
        var s :| s in at && OtherEnd(s, name) == x;
        assert s in at + [r];
      } else {
        assert r in at + [r];
      }
    }
  }

  lemma RelationStep(rels0: seq<Relation>, name: string, at: seq<Relation>, max: nat, entities: Entities,
                     entities': Entities,
                     rels: seq<Relation>, r: Relation)
    requires ScannedRelations(rels0, name, at, max, entities, rels)
    requires forall x :: x in entities ==> x in entities'
    requires forall s :: s in at && OtherEnd(s, name) !in entities ==> OtherEnd(s, name) !in entities'
    requires TouchesName(r, name) && name in entities'
    requires forall s :: s in rels && SameTriple(s, r) ==> s == r
    ensures ScannedRelations(rels0, name, at + [r], max, entities', VisitRelation(r, max, entities', rels))
  {
    var next := VisitRelation(r, max, entities', rels);
    assert next != rels ==> next == rels + [r];
    if Seen(rels, r) {
      var k :| 0 <= k < |rels| && SameTriple(rels[k], r);
      assert rels[k] in rels;
    }
    forall s | s in at + [r]
      ensures s in next || |next| >= max || OtherEnd(s, name) !in entities'
    {
    }
  }

  lemma VisitEntityGrows(all: Entities, name: string, at: seq<Relation>, r: Relation, max: nat, entities: Entities,
                         more: seq<string>)
    requires r.from in all && r.to in all
    requires forall s :: s in at ==> OtherEnd(s, name) in entities || |entities| >= max
    ensures var next := VisitEntity(all, name, r, max, entities, more).0;
      && (forall x :: x in entities ==> x in next)
      && (forall s :: s in at && OtherEnd(s, name) !in entities ==> OtherEnd(s, name) !in next)
  {
  }

  method ScanBounded(all: Entities, name: string, at: seq<Relation>, maxEntities: nat, maxRelationships: nat,
                     entities0: Entities, rels0: seq<Relation>)
    returns (entities: Entities, rels: seq<Relation>, more: seq<string>)
    requires name in entities0 && forall x :: x in entities0 ==> x in all && entities0[x] == all[x]
    requires DistinctTriples(rels0) && forall r :: r in rels0 ==> r.from in entities0 && r.to in entities0
    requires forall r :: r in at ==> TouchesName(r, name) && r.from in all && r.to in all
    requires forall r, s :: r in at && (s in rels0 || s in at) && SameTriple(s, r) ==> s == r
    ensures ScannedEntities(all, entities0, name, at, maxEntities, entities, more)
    ensures ScannedRelations(rels0, name, at, maxRelationships, entities, rels)
  {
    entities, rels, more := entities0, rels0, [];
    assert at[..0] == [];
    for k := 0 to |at|
      invariant ScannedEntities(all, entities0, name, at[..k], maxEntities, entities, more)
      invariant ScannedRelations(rels0, name, at[..k], maxRelationships, entities, rels)
    {
      var r := at[k];
      assert r in at && at[..k + 1] == at[..k] + [r];
      EntityStep(all, entities0, name, at[..k], maxEntities, entities, more, r);
      VisitEntityGrows(all, name, at[..k], r, maxEntities, entities, more);
      ghost var before := entities;
      hide VisitEntity, VisitRelation, SameTriple, DistinctTriples, Distinct, TouchesName;
      var visited := VisitEntity(all, name, r, maxEntities, entities, more);
      entities, more := visited.0, visited.1;
      RelationStep(rels0, name, at[..k], maxRelationships, before, entities, rels, r);
      rels := VisitRelation(r, maxRelationships, entities, rels);
    }
    assert at[..|at|] == at;
  }

  // Nodes that have been expanded: found, out of the queue, below the limit.
  ghost predicate Expanded(dist: map<string, nat>, queue: seq<string>, limit: nat, v: string) {
    v in dist && v !in queue && dist[v] < limit
  }

  ghost predicate AtExpanded(dist: map<string, nat>, queue: seq<string>, limit: nat, r: Relation) {
    exists v :: Expanded(dist, queue, limit, v) && TouchesName(r, v)
  }

  // The relations listed: real ones at expanded nodes, between entities of
  // the network; all of those unless some were lost to a limit.
  ghost predicate Collected(rels: set<Relation>, limit: nat, max: nat, dist: map<string, nat>, queue: seq<string>,
                            listed: seq<Relation>, partial: bool)
  {
    && DistinctTriples(listed) && |listed| <= max
    && (forall r :: r in listed ==> r in rels && r.from in dist && r.to in dist && AtExpanded(dist, queue, limit, r))
    && (partial || forall r :: r in rels && AtExpanded(dist, queue, limit, r) ==> r in listed)
  }

  // While there is room, every relation at an expanded node with both ends in
  // the network is listed.
  ghost predicate ListedOrFull(rels: set<Relation>, limit: nat, max: nat, dist: map<string, nat>, queue: seq<string>,
                               listed: seq<Relation>)
  {
    |listed| >= max ||
    forall r :: r in rels && AtExpanded(dist, queue, limit, r) && r.from in dist && r.to in dist ==> r in listed
  }

  // Something within the limit was left out for lack of room.
  ghost predicate Overflows(rels: set<Relation>, center: string, limit: nat, max: nat, dist: map<string, nat>) {
    |dist| >= max && exists w :: w !in dist && Within(JoinedBy(rels), center, w, limit)
  }

  ghost predicate Drops(rels: set<Relation>, max: nat, listed: seq<Relation>) {
    |listed| >= max && exists r :: r in rels && r !in listed
  }

  ghost predicate SearchState(q: Search, dist: map<string, nat>, queue: seq<string>, full: bool, lost: bool,
                              entities: Entities, listed: seq<Relation>) {
    && BfsState(JoinedBy(q.rels), q.center, q.limit, dist, queue, full)
    && dist.Keys == entities.Keys && |dist| <= q.maxEntities
    && (forall x :: x in entities ==> x in q.all && entities[x] == q.all[x])
    && (full ==> Overflows(q.rels, q.center, q.limit, q.maxEntities, dist))
    && (lost ==> Drops(q.rels, q.maxRelationships, listed))
    && Collected(q.rels, q.limit, q.maxRelationships, dist, queue, listed, full || lost)
    && ListedOrFull(q.rels, q.limit, q.maxRelationships, dist, queue, listed)
  }

  // The entities of all that lie within the limit.
  ghost function Near(rels: set<Relation>, all: Entities, center: string, limit: nat): set<string> {
    set x | x in all && Within(JoinedBy(rels), center, x, limit)
  }

  ghost predicate HasNearEnd(rels: set<Relation>, center: string, limit: nat, r: Relation) {
    limit > 0 && (Within(JoinedBy(rels), center, r.from, limit - 1) || Within(JoinedBy(rels), center, r.to, limit - 1))
  }

  // The network holds exactly what is within the limit and every relation
  // with an end nearer than that.
  ghost predicate IsFullNetwork(rels: set<Relation>, all: Entities, center: string, limit: nat, net: EntityNetwork) {
    && net.center == center
    && net.entities.Keys == Near(rels, all, center, limit)
    && (forall x :: x in net.entities ==> x in all && net.entities[x] == all[x])
    && DistinctTriples(net.relationships)
    && (forall r :: r in net.relationships <==> r in rels && HasNearEnd(rels, center, limit, r))
  }

  // u is within d steps and v is not.
  ghost predicate Nearer(rels: set<Relation>, center: string, u: string, v: string, d: nat) {
    Within(JoinedBy(rels), center, u, d) && !Within(JoinedBy(rels), center, v, d)
  }

  // The network respects the limits, is closed under relation ends, keeps
  // the closest entities, lists all relations with a near end among them
  // unless the limit is reached, and is full when the limits are loose.
  ghost predicate IsBoundedNetwork(q: Search, net: EntityNetwork) {
    && net.center == q.center && q.center in net.entities
    && |net.entities| <= q.maxEntities && |net.relationships| <= q.maxRelationships
    && net.entities.Keys <= Near(q.rels, q.all, q.center, q.limit)
    && (forall x :: x in net.entities ==> net.entities[x] == q.all[x])
    && DistinctTriples(net.relationships)
    && (forall r :: r in net.relationships ==>
         r in q.rels && r.from in net.entities && r.to in net.entities && HasNearEnd(q.rels, q.center, q.limit, r))
    && (forall u, v, d: nat :: v in net.entities && Nearer(q.rels, q.center, u, v, d) ==> u in net.entities)
    && (|net.relationships| >= q.maxRelationships || forall r ::
         r in q.rels && r.from in net.entities && r.to in net.entities && HasNearEnd(q.rels, q.center, q.limit, r) ==>
           r in net.relationships)
    && (|Near(q.rels, q.all, q.center, q.limit)| <= q.maxEntities && |q.rels| <= q.maxRelationships ==>
         IsFullNetwork(q.rels, q.all, q.center, q.limit, net))
  }

  lemma {:induction false} WithinKnown(rels: set<Relation>, all: Entities, center: string, x: string, d: nat)
    requires center in all && forall r :: r in rels ==> r.from in all && r.to in all
    requires Within(JoinedBy(rels), center, x, d)
    ensures x in all
  {
    if d > 0 && Within(JoinedBy(rels), center, x, d - 1) {
      WithinKnown(rels, all, center, x, d - 1);
    } else if d > 0 {
      var u :| Within(JoinedBy(rels), center, u, d - 1) && JoinedBy(rels)(u, x);
      assert Joined(rels, u, x);
    }
  }

  lemma {:induction false} DistinctCount(s: seq<Relation>, t: set<Relation>)
    requires DistinctTriples(s) && forall r :: r in s ==> r in t
    ensures |s| <= |t|
    ensures |s| >= |t| ==> forall r :: r in t ==> r in s
  {
    if s != [] {
      var rest, last := s[..|s| - 1], s[|s| - 1];
      assert s == rest + [last];
      forall r | r in rest
        ensures r in t - {last}
      {
        var k :| 0 <= k < |rest| && rest[k] == r;
        assert !SameTriple(s[k], last);
      }
      DistinctCount(rest, t - {last});
    } else if |t| > 0 {
      assert |s| < |t|;
    }
  }

  lemma {:induction false} SubsetCount(s: set<string>, t: set<string>)
    requires s <= t
    ensures |s| <= |t|
    ensures |s| >= |t| ==> s == t
    decreases t
  {
    if x :| x in t && x !in s {
      SubsetCount(s, t - {x});
    } else {
      assert s == t;
    }
  }

  lemma GrownCount(s: set<string>, t: set<string>, x: string)
    requires s <= t && x in t && x !in s
    ensures |s| < |t|
  {
    SubsetCount(s, t - {x});
  }

  lemma SearchInit(q: Search)
    requires q.center in q.all && q.maxEntities > 0
    ensures SearchState(q, map[q.center := 0], [q.center], false, false, map[q.center := q.all[q.center]], [])
  {
    BfsInit(JoinedBy(q.rels), q.center, q.limit);
  }

  lemma SearchSkip(q: Search, dist: map<string, nat>, queue: seq<string>, full: bool, lost: bool, entities: Entities,
                   listed: seq<Relation>)
    requires SearchState(q, dist, queue, full, lost, entities, listed)
    requires queue != [] && queue[0] in dist && dist[queue[0]] >= q.limit
    ensures SearchState(q, dist, queue[1..], full, lost, entities, listed)
  {
    BfsSkip(JoinedBy(q.rels), q.center, q.limit, dist, queue, full);
    SkipExpandsNone(dist, queue, q.limit);
    hide BfsState, Within, Overflows, Drops, AtExpanded, DistinctTriples;
  }

  lemma SkipExpandsNone(dist: map<string, nat>, queue: seq<string>, limit: nat)
    requires queue != [] && queue[0] in dist && dist[queue[0]] >= limit
    ensures forall r :: AtExpanded(dist, queue, limit, r) <==> AtExpanded(dist, queue[1..], limit, r)
  {
    assert queue == [queue[0]] + queue[1..];
    assert forall v :: Expanded(dist, queue, limit, v) <==> Expanded(dist, queue[1..], limit, v);
    hide Expanded;
  }

  ghost predicate MissesEntity(at: seq<Relation>, v: string, entities: Entities) {
    exists r :: r in at && OtherEnd(r, v) !in entities
  }

  ghost predicate MissesRelation(at: seq<Relation>, v: string, entities: Entities, listed: seq<Relation>) {
    exists r :: r in at && OtherEnd(r, v) in entities && r !in listed
  }

  lemma ExpandSearch(rels: set<Relation>, all: Entities, center: string, limit: nat, maxEntities: nat,
                     dist: map<string, nat>, queue: seq<string>, full: bool, entities: Entities,
                     at: seq<Relation>, entities': Entities, more: seq<string>, full': bool)
    requires BfsState(JoinedBy(rels), center, limit, dist, queue, full) && queue != [] && queue[0] in dist
    requires dist.Keys == entities.Keys && |dist| <= maxEntities && dist[queue[0]] < limit
    requires full ==> Overflows(rels, center, limit, maxEntities, dist)
    requires forall r :: r in at <==> r in rels && TouchesName(r, queue[0])
    requires ScannedEntities(all, entities, queue[0], at, maxEntities, entities', more)
    requires full' <==> full || MissesEntity(at, queue[0], entities')
    ensures var dist' := Extend(dist, more, dist[queue[0]] + 1);
      && BfsState(JoinedBy(rels), center, limit, dist', queue[1..] + more, full')
      && dist'.Keys == entities'.Keys && |dist'| <= maxEntities
      && (full' ==> Overflows(rels, center, limit, maxEntities, dist'))
  {
    hide Found, Closed, Within, Extend, Distinct, BfsState, ScannedEntities, MissesEntity;
    var v, dist' := queue[0], Extend(dist, more, dist[queue[0]] + 1);
    ExtendedKeys(all, dist, v, at, maxEntities, entities, entities', more);
    HeadFacts(JoinedBy(rels), center, limit, dist, queue, full);
    ExpandNeighbours(rels, all, center, limit, dist, queue, entities, at, entities', more, maxEntities, full, full');
    BfsExpand(JoinedBy(rels), center, limit, dist, queue, more, full, full');
    hide Overflows, AreNew;
    if full' {
      StillOverflows(rels, all, center, limit, maxEntities, dist, dist', v, at, entities, entities', more, full);
    }
  }

  lemma ScannedData(all: Entities, entities: Entities, v: string, at: seq<Relation>, max: nat, entities': Entities,
                    more: seq<string>)
    requires ScannedEntities(all, entities, v, at, max, entities', more)
    ensures forall x :: x in entities' ==> x in all && entities'[x] == all[x]
    ensures forall m :: m in more ==> m !in entities
  {
  }

  lemma AllListed(at: seq<Relation>, v: string, entities: Entities, listed: seq<Relation>)
    requires !MissesEntity(at, v, entities) && !MissesRelation(at, v, entities, listed)
    ensures forall r :: r in at ==> r in listed
  {
  }

  // The state after expanding the head of the queue.
  lemma SearchExpand(q: Search, dist: map<string, nat>, queue: seq<string>, full: bool, lost: bool, entities: Entities,
                     listed: seq<Relation>, at: seq<Relation>, entities': Entities, listed': seq<Relation>,
                       more: seq<string>)
    returns (full': bool, lost': bool)
    requires SearchState(q, dist, queue, full, lost, entities, listed)
    requires queue != [] && queue[0] in dist && dist[queue[0]] < q.limit
    requires forall r :: r in at <==> r in q.rels && TouchesName(r, queue[0])
    requires ScannedEntities(q.all, entities, queue[0], at, q.maxEntities, entities', more)
    requires ScannedRelations(listed, queue[0], at, q.maxRelationships, entities', listed')
    ensures SearchState(q, Extend(dist, more, dist[queue[0]] + 1), queue[1..] + more, full', lost', entities', listed')
  {
    hide BfsState, ScannedEntities, ScannedRelations, Collected, ListedOrFull, Extend, Overflows, Drops, MissesEntity,
      MissesRelation, TouchesName;
    var v := queue[0];
    full' := full || MissesEntity(at, v, entities');
    lost' := lost || MissesRelation(at, v, entities', listed');
    HeadFacts(JoinedBy(q.rels), q.center, q.limit, dist, queue, full);
    ExpandSearch(q.rels, q.all, q.center, q.limit, q.maxEntities, dist, queue, full, entities, at, entities',
      more, full');
    ScannedData(q.all, entities, v, at, q.maxEntities, entities', more);
    if lost' {
      StillDrops(q.rels, q.maxRelationships, listed, v, at, entities', listed', lost);
    }
    if !full' && !lost' {
      AllListed(at, v, entities', listed');
    }
    hide Distinct;
    CollectedNext(q.rels, q.limit, q.maxRelationships, dist, queue, listed, full || lost, at, entities', listed', more,
      full' || lost');
    NewOnlyWhenClosed(q.rels, q.all, q.center, q.limit, q.maxEntities, dist, queue, full, entities, at,
      entities', more);
    ListedNext(q.rels, q.limit, q.maxRelationships, dist, queue, listed, at, entities', listed', more);
  }

  // An entity is added only while every end at expanded nodes is there.
  ghost predicate EndsFound(rels: set<Relation>, limit: nat, dist: map<string, nat>, queue: seq<string>) {
    forall r :: r in rels && AtExpanded(dist, queue, limit, r) ==> r.from in dist && r.to in dist
  }

  lemma NewOnlyWhenClosed(rels: set<Relation>, all: Entities, center: string, limit: nat, max: nat,
                          dist: map<string, nat>, queue: seq<string>, full: bool, entities: Entities, at: seq<Relation>,
                          entities': Entities, more: seq<string>)
    requires BfsState(JoinedBy(rels), center, limit, dist, queue, full) && queue != []
    requires full ==> Overflows(rels, center, limit, max, dist)
    requires dist.Keys == entities.Keys && ScannedEntities(all, entities, queue[0], at, max, entities', more)
    ensures more == [] || EndsFound(rels, limit, dist, queue)
  {
    if more != [] {
      assert |dist| == |dist.Keys| && |entities| == |entities.Keys|;
      assert Closed(JoinedBy(rels), limit, dist, queue);
      hide BfsState, Found, IsFrontier, ScannedEntities, Within;
      forall r | r in rels && AtExpanded(dist, queue, limit, r)
        ensures r.from in dist && r.to in dist
      {
        var x :| Expanded(dist, queue, limit, x) && TouchesName(r, x);
        assert JoinedBy(rels)(x, OtherEnd(r, x));
      }
    }
  }

  lemma ListedNext(rels: set<Relation>, limit: nat, max: nat, dist: map<string, nat>, queue: seq<string>,
                   listed: seq<Relation>, at: seq<Relation>, entities': Entities, listed': seq<Relation>,
                   more: seq<string>)
    requires queue != [] && queue[0] in dist && dist[queue[0]] < limit && Distinct(queue)
    requires forall m :: m in more ==> m !in dist
    requires ListedOrFull(rels, limit, max, dist, queue, listed) && (more == [] || EndsFound(rels, limit, dist, queue))
    requires forall r :: r in at <==> r in rels && TouchesName(r, queue[0])
    requires ScannedRelations(listed, queue[0], at, max, entities', listed')
    requires entities'.Keys == Extend(dist, more, dist[queue[0]] + 1).Keys
    ensures ListedOrFull(rels, limit, max, Extend(dist, more, dist[queue[0]] + 1), queue[1..] + more, listed')
  {
    var v, dist', queue' := queue[0], Extend(dist, more, dist[queue[0]] + 1), queue[1..] + more;
    assert more == [] ==> dist' == dist;
    forall x { ExpandedNext(dist, queue, limit, more, x); }
    hide Expanded, Extend, SameTriple, DistinctTriples;
    forall r | r in rels && AtExpanded(dist', queue', limit, r) && r.from in dist' && r.to in dist' && |listed'| < max
      ensures r in listed'
    {
      var x :| Expanded(dist', queue', limit, x) && TouchesName(r, x);
      if x == v {
        assert r in at && OtherEnd(r, v) in entities';
      } else {
        assert AtExpanded(dist, queue, limit, r);
      }
    }
  }

  lemma HeadFacts(adj: (string, string) -> bool, center: string, limit: nat, dist: map<string, nat>,
                  queue: seq<string>, full: bool)
    requires BfsState(adj, center, limit, dist, queue, full) && queue != [] && queue[0] in dist
    ensures Within(adj, center, queue[0], dist[queue[0]]) && Distinct(queue)
  {
  }

  lemma ExtendedKeys(all: Entities, dist: map<string, nat>, v: string, at: seq<Relation>, max: nat, entities: Entities,
                     entities': Entities, more: seq<string>)
    requires dist.Keys == entities.Keys && v in dist && ScannedEntities(all, entities, v, at, max, entities', more)
    requires |dist| <= max
    ensures var dist' := Extend(dist, more, dist[v] + 1);
      && dist'.Keys == entities'.Keys && |dist'| <= max && |dist'| == |entities'| && |dist| == |entities|
      && (more == [] ==> dist' == dist)
      && (forall m :: m in more ==> m !in dist)
  {
    var dist' := Extend(dist, more, dist[v] + 1);
    assert dist'.Keys == entities'.Keys;
    assert |dist'| == |dist'.Keys| && |entities'| == |entities'.Keys|;
    assert |dist| == |dist.Keys| && |entities| == |entities.Keys|;
  }

  lemma ExpandNeighbours(rels: set<Relation>, all: Entities, center: string, limit: nat, dist: map<string, nat>,
                         queue: seq<string>,
                         entities: Entities, at: seq<Relation>, entities': Entities, more: seq<string>, max: nat,
                         full: bool, full': bool)
    requires queue != [] && queue[0] in dist && dist.Keys == entities.Keys
    requires forall r :: r in at <==> r in rels && TouchesName(r, queue[0])
    requires ScannedEntities(all, entities, queue[0], at, max, entities', more)
    requires full ==> |entities| >= max
    requires full' <==> full || MissesEntity(at, queue[0], entities')
    ensures AreNew(JoinedBy(rels), dist, queue[0], more)
    ensures full ==> more == [] && full'
    ensures full' || forall w :: JoinedBy(rels)(queue[0], w) ==> w in dist || w in more
  {
    var v := queue[0];
    forall k | 0 <= k < |more|
      ensures Joined(rels, v, more[k]) && more[k] !in dist
    {
      assert more[k] in more;
      var r :| r in at && OtherEnd(r, v) == more[k];
    }
    if !full' {
      forall w | Joined(rels, v, w)
        ensures w in dist || w in more
      {
        var r :| r in rels && ((r.from == v && r.to == w) || (r.from == w && r.to == v));
        assert r in at && OtherEnd(r, v) == w;
      }
    }
  }

  lemma StillOverflows(rels: set<Relation>, all: Entities, center: string, limit: nat, max: nat, dist: map<string, nat>,
                       dist': map<string, nat>, v: string, at: seq<Relation>, entities: Entities, entities': Entities,
                       more: seq<string>, full: bool)
    requires v in dist && dist[v] < limit && Within(JoinedBy(rels), center, v, dist[v])
    requires forall r :: r in at <==> r in rels && TouchesName(r, v)
    requires full ==> Overflows(rels, center, limit, max, dist) && dist' == dist
    requires full || (MissesEntity(at, v, entities') && ScannedEntities(all, entities, v, at, max, entities', more))
    requires dist'.Keys == entities'.Keys && |dist'| == |entities'|
    ensures Overflows(rels, center, limit, max, dist')
  {
    if !full {
      var r :| r in at && OtherEnd(r, v) !in entities';
      var w := OtherEnd(r, v);
      assert JoinedBy(rels)(v, w);
      assert Within(JoinedBy(rels), center, w, dist[v] + 1);
      WithinMonotone(JoinedBy(rels), center, w, dist[v] + 1, limit);
    }
  }

  lemma StillDrops(rels: set<Relation>, max: nat, listed: seq<Relation>, v: string, at: seq<Relation>,
                   entities': Entities,
                   listed': seq<Relation>, lost: bool)
    requires forall r :: r in at <==> r in rels && TouchesName(r, v)
    requires ScannedRelations(listed, v, at, max, entities', listed')
    requires lost ==> Drops(rels, max, listed)
    requires lost || MissesRelation(at, v, entities', listed')
    ensures Drops(rels, max, listed')
  {
    if !lost {
      var r :| r in at && OtherEnd(r, v) in entities' && r !in listed';
    }
  }

  lemma ExpandedNext(dist: map<string, nat>, queue: seq<string>, limit: nat, more: seq<string>, x: string)
    requires queue != [] && queue[0] in dist && dist[queue[0]] < limit && Distinct(queue)
    requires forall m :: m in more ==> m !in dist
    ensures Expanded(Extend(dist, more, dist[queue[0]] + 1), queue[1..] + more, limit, x)
      <==> Expanded(dist, queue, limit, x) || x == queue[0]
  {
    assert queue == [queue[0]] + queue[1..];
  }

  lemma CollectedNext(rels: set<Relation>, limit: nat, max: nat, dist: map<string, nat>, queue: seq<string>,
                      listed: seq<Relation>,
                      partial: bool, at: seq<Relation>, entities': Entities, listed': seq<Relation>, more: seq<string>,
                      partial': bool)
    requires queue != [] && queue[0] in dist && dist[queue[0]] < limit && Distinct(queue)
    requires forall m :: m in more ==> m !in dist
    requires Collected(rels, limit, max, dist, queue, listed, partial)
    requires forall r :: r in at <==> r in rels && TouchesName(r, queue[0])
    requires ScannedRelations(listed, queue[0], at, max, entities', listed')
    requires entities'.Keys == Extend(dist, more, dist[queue[0]] + 1).Keys
    requires partial' || (!partial && forall r :: r in at ==> r in listed')
    ensures Collected(rels, limit, max, Extend(dist, more, dist[queue[0]] + 1), queue[1..] + more, listed', partial')
  {
    var dist', queue' := Extend(dist, more, dist[queue[0]] + 1), queue[1..] + more;
    forall x { ExpandedNext(dist, queue, limit, more, x); }
    hide Expanded, Extend, SameTriple;
    forall r
      ensures AtExpanded(dist', queue', limit, r) <==> AtExpanded(dist, queue, limit, r) || TouchesName(r, queue[0])
    {
      if AtExpanded(dist, queue, limit, r) {
        var x :| Expanded(dist, queue, limit, x) && TouchesName(r, x);
        assert Expanded(dist', queue', limit, x);
      }
      if TouchesName(r, queue[0]) {
        assert Expanded(dist', queue', limit, queue[0]);
      }
      if AtExpanded(dist', queue', limit, r) {
        var x :| Expanded(dist', queue', limit, x) && TouchesName(r, x);
      }
    }
    hide AtExpanded, TouchesName;
  }

  lemma FoundIsNear(rels: set<Relation>, all: Entities, center: string, limit: nat, dist: map<string, nat>)
    requires Found(JoinedBy(rels), center, limit, dist)
    requires center in all && forall r :: r in rels ==> r.from in all && r.to in all
    ensures dist.Keys <= Near(rels, all, center, limit)
    ensures forall u, v, d: nat :: v in dist && Nearer(rels, center, u, v, d) ==> u in dist
  {
    var adj := JoinedBy(rels);
    forall v | v in dist
      ensures v in Near(rels, all, center, limit)
    {
      DistanceIsLeast(adj, center, v, dist[v], limit);
      WithinKnown(rels, all, center, v, limit);
    }
    forall u, v, d: nat | v in dist && Nearer(rels, center, u, v, d)
      ensures u in dist
    {
      DistanceIsLeast(adj, center, v, dist[v], d);
      WithinMonotone(adj, center, u, d, dist[v] - 1);
    }
  }

  lemma ListedHaveNearEnds(rels: set<Relation>, center: string, limit: nat, max: nat, dist: map<string, nat>,
                           queue: seq<string>,
                           listed: seq<Relation>, partial: bool)
    requires Found(JoinedBy(rels), center, limit, dist) && Collected(rels, limit, max, dist, queue, listed, partial)
    ensures forall r :: r in listed ==> HasNearEnd(rels, center, limit, r)
  {
    forall r | r in listed
      ensures HasNearEnd(rels, center, limit, r)
    {
      var v :| Expanded(dist, queue, limit, v) && TouchesName(r, v);
      DistanceIsLeast(JoinedBy(rels), center, v, dist[v], limit - 1);
    }
  }

  // With room for everything, nothing was left out.
  lemma LooseFindsAll(q: Search, dist: map<string, nat>, full: bool, lost: bool, listed: seq<Relation>)
    requires |Near(q.rels, q.all, q.center, q.limit)| <= q.maxEntities && |q.rels| <= q.maxRelationships
    requires dist.Keys <= Near(q.rels, q.all, q.center, q.limit)
    requires DistinctTriples(listed) && forall r :: r in listed ==> r in q.rels
    requires q.center in q.all && forall r :: r in q.rels ==> r.from in q.all && r.to in q.all
    requires full ==> Overflows(q.rels, q.center, q.limit, q.maxEntities, dist)
    requires lost ==> Drops(q.rels, q.maxRelationships, listed)
    ensures !full && !lost
    ensures |dist| >= q.maxEntities ==> dist.Keys == Near(q.rels, q.all, q.center, q.limit)
    ensures |listed| >= q.maxRelationships ==> forall r :: r in q.rels ==> r in listed
  {
    assert |dist| == |dist.Keys|;
    SubsetCount(dist.Keys, Near(q.rels, q.all, q.center, q.limit));
    DistinctCount(listed, q.rels);
    if full {
      OverflowMisses(q.rels, q.all, q.center, q.limit, q.maxEntities, dist);
    }
  }

  lemma OverflowMisses(rels: set<Relation>, all: Entities, center: string, limit: nat, max: nat, dist: map<string, nat>)
    requires Overflows(rels, center, limit, max, dist)
    requires center in all && forall r :: r in rels ==> r.from in all && r.to in all
    ensures dist.Keys != Near(rels, all, center, limit)
  {
    var w :| w !in dist && Within(JoinedBy(rels), center, w, limit);
    WithinKnown(rels, all, center, w, limit);
    assert w in Near(rels, all, center, limit);
  }

  lemma NearEndIsExpanded(rels: set<Relation>, center: string, limit: nat, dist: map<string, nat>, r: Relation)
    requires BfsState(JoinedBy(rels), center, limit, dist, [], false) && HasNearEnd(rels, center, limit, r)
    ensures AtExpanded(dist, [], limit, r)
  {
    var x := if Within(JoinedBy(rels), center, r.from, limit - 1) then r.from else r.to;
    BfsDone(JoinedBy(rels), center, limit, dist);
    WithinMonotone(JoinedBy(rels), center, x, limit - 1, limit);
    DistanceIsLeast(JoinedBy(rels), center, x, dist[x], limit - 1);
    assert Expanded(dist, [], limit, x) && TouchesName(r, x);
  }

  lemma FinishedIsFull(rels: set<Relation>, all: Entities, center: string, limit: nat, max: nat, dist: map<string, nat>,
                       entities: Entities, listed: seq<Relation>)
    requires BfsState(JoinedBy(rels), center, limit, dist, [], false)
    requires Collected(rels, limit, max, dist, [], listed, false)
    requires dist.Keys == entities.Keys && forall x :: x in entities ==> x in all && entities[x] == all[x]
    requires center in all && forall r :: r in rels ==> r.from in all && r.to in all
    ensures IsFullNetwork(rels, all, center, limit, EntityNetwork(center, entities, listed))
  {
    BfsDone(JoinedBy(rels), center, limit, dist);
    FoundIsNear(rels, all, center, limit, dist);
    ListedHaveNearEnds(rels, center, limit, max, dist, [], listed, false);
    assert entities.Keys == Near(rels, all, center, limit);
    forall r | r in rels && HasNearEnd(rels, center, limit, r)
      ensures r in listed
    {
      NearEndIsExpanded(rels, center, limit, dist, r);
    }
  }

  lemma KeptAreListed(rels: set<Relation>, center: string, limit: nat, max: nat, dist: map<string, nat>,
                      listed: seq<Relation>)
    requires Found(JoinedBy(rels), center, limit, dist) && ListedOrFull(rels, limit, max, dist, [], listed)
    ensures |listed| >= max ||
      forall r :: r in rels && r.from in dist && r.to in dist && HasNearEnd(rels, center, limit, r) ==> r in listed
  {
    forall r | r in rels && r.from in dist && r.to in dist && HasNearEnd(rels, center, limit, r)
      ensures AtExpanded(dist, [], limit, r)
    {
      var x := if Within(JoinedBy(rels), center, r.from, limit - 1) then r.from else r.to;
      DistanceIsLeast(JoinedBy(rels), center, x, dist[x], limit - 1);
      assert Expanded(dist, [], limit, x) && TouchesName(r, x);
    }
  }

  // The search ends when the queue is empty or both limits are reached.
  lemma SearchDone(q: Search, dist: map<string, nat>, queue: seq<string>, full: bool, lost: bool, entities: Entities,
                   listed: seq<Relation>)
    requires SearchState(q, dist, queue, full, lost, entities, listed)
    requires queue == [] || (|entities| >= q.maxEntities && |listed| >= q.maxRelationships)
    requires q.center in q.all && forall r :: r in q.rels ==> r.from in q.all && r.to in q.all
    ensures IsBoundedNetwork(q, EntityNetwork(q.center, entities, listed))
  {
    hide Overflows, Drops, Near, HasNearEnd, DistinctTriples, AtExpanded, Nearer, IsDistance, Within, Closed,
      IsFrontier, ListedOrFull;
    if queue == [] {
      KeptAreListed(q.rels, q.center, q.limit, q.maxRelationships, dist, listed);
    }
    FoundIsNear(q.rels, q.all, q.center, q.limit, dist);
    ListedHaveNearEnds(q.rels, q.center, q.limit, q.maxRelationships, dist, queue, listed, full || lost);
    assert |dist| == |dist.Keys| == |entities.Keys| == |entities|;
    if |Near(q.rels, q.all, q.center, q.limit)| <= q.maxEntities && |q.rels| <= q.maxRelationships {
      LooseFindsAll(q, dist, full, lost, listed);
      if queue == [] {
        FinishedIsFull(q.rels, q.all, q.center, q.limit, q.maxRelationships, dist, entities, listed);
      }
    }
  }


  // The queue as names with their distances.
  ghost predicate Queued(dist: map<string, nat>, names: seq<string>, queue: seq<(string, nat)>) {
    && |names| == |queue|
    && forall k :: 0 <= k < |queue| ==> queue[k].0 == names[k] && names[k] in dist && queue[k].1 == dist[names[k]]
  }

  lemma QueueHead(dist: map<string, nat>, names: seq<string>, queue: seq<(string, nat)>)
    requires Queued(dist, names, queue)
    ensures |names| == |queue|
    ensures queue != [] ==> names[0] == queue[0].0 && names[0] in dist && queue[0].1 == dist[names[0]]
    ensures queue != [] ==> Queued(dist, names[1..], queue[1..])
  {
  }

  lemma QueueNext(dist: map<string, nat>, names: seq<string>, queue: seq<(string, nat)>, more: seq<string>, d: nat)
    requires Queued(dist, names, queue) && queue != [] && forall m :: m in more ==> m !in dist
    ensures names != [] && Queued(Extend(dist, more, d), names[1..] + more, queue[1..] + At(more, d))
  {
  }

  function At(more: seq<string>, d: nat): seq<(string, nat)> {
    seq(|more|, k requires 0 <= k < |more| => (more[k], d))
  }

  lemma ExtendGrows(all: Entities, dist: map<string, nat>, more: seq<string>, d: nat)
    requires forall m :: m in more ==> m !in dist && m in all
    requires dist.Keys <= all.Keys
    ensures more == [] ==> Extend(dist, more, d) == dist
    ensures more != [] ==> |dist| < |Extend(dist, more, d)| <= |all|
  {
    var next := Extend(dist, more, d);
    assert |next| == |next.Keys| && |dist| == |dist.Keys| && |all| == |all.Keys|;
    if more != [] {
      assert more[0] in more && more[0] in next;
      GrownCount(dist.Keys, next.Keys, more[0]);
      SubsetCount(next.Keys, all.Keys);
    }
  }

  lemma SearchFacts(q: Search, dist: map<string, nat>, queue: seq<string>, full: bool, lost: bool, entities: Entities,
                    listed: seq<Relation>)
    requires SearchState(q, dist, queue, full, lost, entities, listed)
    ensures dist.Keys == entities.Keys && |dist| == |entities| <= |q.all| && |listed| <= q.maxRelationships
    ensures forall x :: x in entities ==> x in q.all && entities[x] == q.all[x]
    ensures DistinctTriples(listed) && forall r :: r in listed ==> r in q.rels && r.from in entities && r.to in entities
  {
    SubsetCount(dist.Keys, q.all.Keys);
    assert |dist| == |dist.Keys| == |entities.Keys| == |entities| && |q.all| == |q.all.Keys|;
  }

  // What the search knows besides its variables: distances, the queued names,
  // and whether an entity or a relation was left out.
  datatype Trace = Trace(dist: map<string, nat>, names: seq<string>, full: bool, lost: bool)

  ghost predicate Searching(q: Search, t: Trace, queue: seq<(string, nat)>, entities: Entities, listed: seq<Relation>) {
    && Queued(t.dist, t.names, queue)
    && SearchState(q, t.dist, t.names, t.full, t.lost, entities, listed)
  }

  // How far the search can still go: entities to find.
  ghost function Left(all: Entities, t: Trace): int {
    |all| - |t.dist|
  }

  lemma SearchStart(q: Search) returns (t: Trace)
    requires q.center in q.all && q.maxEntities > 0
    ensures Searching(q, t, [(q.center, 0)], map[q.center := q.all[q.center]], [])
  {
    hide SearchState;
    t := Trace(map[q.center := 0], [q.center], false, false);
    SearchInit(q);
  }

  // A node at the limit leaves the queue unexpanded.
  lemma SkipHead(q: Search, t: Trace, queue: seq<(string, nat)>, entities: Entities, listed: seq<Relation>)
    returns (t': Trace)
    requires Searching(q, t, queue, entities, listed)
    requires queue != [] && queue[0].1 >= q.limit
    ensures Searching(q, t', queue[1..], entities, listed)
    ensures Left(q.all, t') == Left(q.all, t) >= 0
  {
    hide SearchState;
    QueueHead(t.dist, t.names, queue);
    SearchFacts(q, t.dist, t.names, t.full, t.lost, entities, listed);
    SearchSkip(q, t.dist, t.names, t.full, t.lost, entities, listed);
    t' := t.(names := t.names[1..]);
  }

  // The state after the head of the queue was expanded.
  lemma ExpandedHead(q: Search, t: Trace, queue: seq<(string, nat)>, entities: Entities, listed: seq<Relation>,
                     at: seq<Relation>, entities': Entities, listed': seq<Relation>, more: seq<string>)
    returns (t': Trace)
    requires Searching(q, t, queue, entities, listed)
    requires queue != [] && queue[0].1 < q.limit
    requires forall r :: r in at <==> r in q.rels && TouchesName(r, queue[0].0)
    requires ScannedEntities(q.all, entities, queue[0].0, at, q.maxEntities, entities', more)
    requires ScannedRelations(listed, queue[0].0, at, q.maxRelationships, entities', listed')
    ensures Searching(q, t', queue[1..] +
      At(more, queue[0].1 + 1), entities', listed')
    ensures 0 <= Left(q.all, t') <= Left(q.all, t) && (Left(q.all, t') == Left(q.all, t) ==> more == [])
  {
    hide SearchState, Extend, ScannedEntities, ScannedRelations, TouchesName, At, Queued;
    var d := queue[0].1 + 1;
    QueueHead(t.dist, t.names, queue);
    SearchFacts(q, t.dist, t.names, t.full, t.lost, entities, listed);
    var full, lost := SearchExpand(q, t.dist, t.names, t.full, t.lost, entities, listed, at, entities', listed', more);
    ScannedNew(q.all, entities, queue[0].0, at, q.maxEntities, entities', more);
    QueueNext(t.dist, t.names, queue, more, d);
    ExtendGrows(q.all, t.dist, more, d);
    t' := Trace(Extend(t.dist, more, d), t.names[1..] + more, full, lost);
  }

  lemma SearchEnds(q: Search, t: Trace, queue: seq<(string, nat)>, entities: Entities, listed: seq<Relation>)
    requires Searching(q, t, queue, entities, listed)
    requires queue == [] || (|entities| >= q.maxEntities && |listed| >= q.maxRelationships)
    requires q.center in q.all && forall r :: r in q.rels ==> r.from in q.all && r.to in q.all
    ensures IsBoundedNetwork(q, EntityNetwork(q.center, entities, listed))
  {
    hide SearchState, IsBoundedNetwork;
    QueueHead(t.dist, t.names, queue);
    SearchDone(q, t.dist, t.names, t.full, t.lost, entities, listed);
  }

  // What a scan may rely on.
  lemma ScanFacts(q: Search, t: Trace, queue: seq<(string, nat)>, entities: Entities, listed: seq<Relation>)
    requires Searching(q, t, queue, entities, listed)
    ensures queue != [] ==> queue[0].0 in entities
    ensures forall x :: x in entities ==> x in q.all && entities[x] == q.all[x]
    ensures DistinctTriples(listed) && forall r :: r in listed ==> r in q.rels && r.from in entities && r.to in entities
    ensures |entities| <= |q.all|
  {
    hide SearchState, DistinctTriples;
    QueueHead(t.dist, t.names, queue);
    SearchFacts(q, t.dist, t.names, t.full, t.lost, entities, listed);
  }

  // Visit the neighbours of the entity at the head of the queue.
  method ExpandBounded(g: SimpleEntityGraph, queue: seq<(string, nat)>, entities: Entities, listed: seq<Relation>,
                       maxEntities: nat, maxRelationships: nat, ghost q: Search, ghost t: Trace)
    returns (queue': seq<(string, nat)>, entities': Entities, listed': seq<Relation>, ghost t': Trace)
    requires g.Structured() && queue != [] && queue[0].1 < q.limit
    requires q == Search(g.Rels(), g.entities, q.center, q.limit, maxEntities, maxRelationships)
    requires Searching(q, t, queue, entities, listed)
    ensures Searching(q, t', queue', entities', listed')
    ensures 0 <= Left(g.entities, t') <= Left(g.entities, t)
    ensures Left(g.entities, t') == Left(g.entities, t) ==> |queue'| < |queue|
  {
    hide IsStructured, Relations, Searching, Left, ScannedEntities, ScannedRelations, TouchesName, DistinctTriples,
      SameTriple;
    var (name, depth) := queue[0];
    ScanFacts(q, t, queue, entities, listed);
    KnownEnds(g.entities, g.mentions, g.graph, g.entityToNode, g.nodeToEntity, g.aliasIndex);
    var at := g.RelationshipsOf(name);
    var more: seq<string>;
    entities', listed', more := ScanBounded(g.entities, name, at, maxEntities, maxRelationships, entities, listed);
    t' := ExpandedHead(q, t, queue, entities, listed, at, entities', listed', more);
    queue' := queue[1..] + At(more, depth + 1);
  }

  method GetEntityNetworkBounded(g: SimpleEntityGraph, center: string, maxDepth: nat, maxEntities: nat,
                                 maxRelationships: nat)
    returns (net: EntityNetwork)
    requires g.Structured()
    ensures center !in g.entities || maxEntities == 0 ==> net == EntityNetwork(center, map[], [])
    ensures center in g.entities && maxEntities > 0 ==>
      IsBoundedNetwork(Search(g.Rels(), g.entities, center, maxDepth, maxEntities, maxRelationships), net)
  {
    if center !in g.entities || maxEntities == 0 {
      return EntityNetwork(center, map[], []);
    }
    hide IsStructured, Relations, Searching, Left, IsBoundedNetwork;
    var entities: Entities, listed: seq<Relation> := map[center := g.entities[center]], [];
    var queue: seq<(string, nat)> := [(center, 0)];
    ghost var q := Search(g.Rels(), g.entities, center, maxDepth, maxEntities, maxRelationships);
    ghost var t := SearchStart(q);
    while queue != []
      invariant Searching(q, t, queue, entities, listed)
      decreases Left(g.entities, t), |queue|
    {
      if queue[0].1 >= maxDepth {
        t := SkipHead(q, t, queue, entities, listed);
        queue := queue[1..];
      } else {
        if |entities| >= maxEntities && |listed| >= maxRelationships {
          break;
        }
        queue, entities, listed, t := ExpandBounded(g, queue, entities, listed, maxEntities, maxRelationships, q, t);
      }
    }
    KnownEnds(g.entities, g.mentions, g.graph, g.entityToNode, g.nodeToEntity, g.aliasIndex);
    SearchEnds(q, t, queue, entities, listed);
    net := EntityNetwork(center, entities, listed);
  }

  lemma RoomForEntity(all: Entities, entities: Entities, x: string)
    requires forall y :: y in entities ==> y in all
    requires x in all && x !in entities
    ensures |entities| < |all|
  {
    assert |entities| == |entities.Keys| && |all| == |all.Keys|;
    GrownCount(entities.Keys, all.Keys, x);
  }

  lemma RoomForRelation(rels: set<Relation>, listed: seq<Relation>, r: Relation)
    requires DistinctTriples(listed) && forall s :: s in listed ==> s in rels
    requires r in rels && !Seen(listed, r)
    ensures |listed| < |rels|
  {
    DistinctCount(listed + [r], rels);
  }

  // Visiting without limits is visiting with limits that never bind.
  lemma VisitsAll(rels: set<Relation>, all: Entities, name: string, r: Relation, entities: Entities, more: seq<string>,
                  entities': Entities, listed: seq<Relation>)
    requires r in rels && r.from in all && r.to in all && forall y :: y in entities ==> y in all
    requires DistinctTriples(listed) && forall s :: s in listed ==> s in rels
    ensures VisitEntity(all, name, r, |all|, entities, more) ==
      var other := OtherEnd(r, name);
      if other in entities then (entities, more) else (entities[other := all[other]], more + [other])
    ensures VisitRelation(r, |rels|, entities', listed) ==
      if r.from in entities' && r.to in entities' && !Seen(listed, r) then listed + [r] else listed
  {
    if OtherEnd(r, name) !in entities {
      RoomForEntity(all, entities, OtherEnd(r, name));
    }
    if !Seen(listed, r) {
      RoomForRelation(rels, listed, r);
    }
  }

  method ScanAll(all: Entities, name: string, at: seq<Relation>, entities0: Entities, listed0: seq<Relation>,
                 ghost rels: set<Relation>)
    returns (entities: Entities, listed: seq<Relation>, more: seq<string>)
    requires name in entities0 && forall x :: x in entities0 ==> x in all && entities0[x] == all[x]
    requires DistinctTriples(listed0)
    requires forall r :: r in listed0 ==> r in rels && r.from in entities0 && r.to in entities0
    requires forall r :: r in at ==> r in rels && TouchesName(r, name) && r.from in all && r.to in all
    requires OnePerTriple(rels)
    ensures ScannedEntities(all, entities0, name, at, |all|, entities, more)
    ensures ScannedRelations(listed0, name, at, |rels|, entities, listed)
  {
    entities, listed, more := entities0, listed0, [];
    assert at[..0] == [];
    for k := 0 to |at|
      invariant ScannedEntities(all, entities0, name, at[..k], |all|, entities, more)
      invariant ScannedRelations(listed0, name, at[..k], |rels|, entities, listed)
    {
      var r := at[k];
      assert r in at && at[..k + 1] == at[..k] + [r];
      EntityStep(all, entities0, name, at[..k], |all|, entities, more, r);
      VisitEntityGrows(all, name, at[..k], r, |all|, entities, more);
      ghost var before, less := entities, more;
      hide VisitEntity, VisitRelation, SameTriple, DistinctTriples, Distinct, TouchesName;
      var other := OtherEnd(r, name);
      if other !in entities {
        entities, more := entities[other := all[other]], more + [other];
      }
      VisitsAll(rels, all, name, r, before, less, entities, listed);
      RelationStep(listed0, name, at[..k], |rels|, before, entities, listed, r);
      if r.from in entities && r.to in entities && !Seen(listed, r) {
        listed := listed + [r];
      }
    }
    assert at[..|at|] == at;
  }

  method ExpandAll(g: SimpleEntityGraph, queue: seq<(string, nat)>, entities: Entities, listed: seq<Relation>,
                   ghost q: Search, ghost t: Trace)
    returns (queue': seq<(string, nat)>, entities': Entities, listed': seq<Relation>, ghost t': Trace)
    requires g.Structured() && queue != [] && queue[0].1 < q.limit
    requires q == Search(g.Rels(), g.entities, q.center, q.limit, |g.entities|, |g.Rels()|)
    requires Searching(q, t, queue, entities, listed)
    ensures Searching(q, t', queue', entities', listed')
    ensures 0 <= Left(g.entities, t') <= Left(g.entities, t)
    ensures Left(g.entities, t') == Left(g.entities, t) ==> |queue'| < |queue|
  {
    hide IsStructured, Relations, Searching, Left, ScannedEntities, ScannedRelations, TouchesName, DistinctTriples,
      SameTriple;
    var (name, depth) := queue[0];
    ScanFacts(q, t, queue, entities, listed);
    KnownEnds(g.entities, g.mentions, g.graph, g.entityToNode, g.nodeToEntity, g.aliasIndex);
    var at := g.RelationsOutAndIn(name);
    var more: seq<string>;
    entities', listed', more := ScanAll(g.entities, name, at, entities, listed, g.Rels());
    t' := ExpandedHead(q, t, queue, entities, listed, at, entities', listed', more);
    queue' := queue[1..] + At(more, depth + 1);
  }

  lemma LooseIsFull(rels: set<Relation>, all: Entities, center: string, limit: nat, net: EntityNetwork)
    requires IsBoundedNetwork(Search(rels, all, center, limit, |all|, |rels|), net)
    ensures IsFullNetwork(rels, all, center, limit, net)
  {
    hide IsFullNetwork, Nearer, HasNearEnd;
    assert |all| == |all.Keys|;
    SubsetCount(Near(rels, all, center, limit), all.Keys);
  }

  method GetEntityNetwork(g: SimpleEntityGraph, center: string, maxDepth: nat) returns (net: EntityNetwork)
    requires g.Structured()
    ensures center !in g.entities ==> net == EntityNetwork(center, map[], [])
    ensures center in g.entities ==> IsFullNetwork(g.Rels(), g.entities, center, maxDepth, net)
  {
    if center !in g.entities {
      return EntityNetwork(center, map[], []);
    }
    hide IsStructured, Relations, Searching, Left, IsBoundedNetwork, IsFullNetwork;
    var entities: Entities, listed: seq<Relation> := map[center := g.entities[center]], [];
    var queue: seq<(string, nat)> := [(center, 0)];
    ghost var q := Search(g.Rels(), g.entities, center, maxDepth, |g.entities|, |g.Rels()|);
    ghost var t := SearchStart(q);
    while queue != []
      invariant Searching(q, t, queue, entities, listed)
      decreases Left(g.entities, t), |queue|
    {
      if queue[0].1 >= maxDepth {
        t := SkipHead(q, t, queue, entities, listed);
        queue := queue[1..];
      } else {
        queue, entities, listed, t := ExpandAll(g, queue, entities, listed, q, t);
      }
    }
    KnownEnds(g.entities, g.mentions, g.graph, g.entityToNode, g.nodeToEntity, g.aliasIndex);
    SearchEnds(q, t, queue, entities, listed);
    net := EntityNetwork(center, entities, listed);
    LooseIsFull(g.Rels(), g.entities, center, maxDepth, net);
  }

  lemma ScannedNew(all: Entities, entities: Entities, v: string, at: seq<Relation>, max: nat, entities': Entities,
                   more: seq<string>)
    requires ScannedEntities(all, entities, v, at, max, entities', more)
    ensures forall m :: m in more ==> m !in entities && m in all
  {
  }
}
