// Depth-limited traversal of an entity's relations with one visited set
// shared by all branches.
module GraphRag {
  import opened Types
  import opened Sorting
  import opened DiGraph
  import opened Names
  import opened Quotient
  import opened Mentions
  import opened GraphState
  import opened EntityGraph
  import opened Reach
  import opened Network

  datatype RelationInfo = RelationInfo(target: string, kind: RelationType, context: string, depth: nat)

  datatype Progress = Progress(visited: set<string>, results: seq<RelationInfo>)

  // The traversal as a function of the relations listed at each entity.
  function Traverse(at: string -> seq<Relation>, entity: string, depth: nat, max: nat, s: Progress): Progress
    decreases max + 1 - depth, 1, 0
  {
    if depth > max then s else Follow(at, entity, at(entity), depth, max, s)
  }

  function Follow(at: string -> seq<Relation>, entity: string, rels: seq<Relation>, depth: nat, max: nat,
                  s: Progress): Progress
    requires depth <= max
    decreases max + 1 - depth, 0, |rels|
  {
    if rels == [] then s
    else
      var target := OtherEnd(rels[0], entity);
      var next :=
        if target in s.visited then s
        else Traverse(at, target, depth + 1, max, Report(s, target, rels[0], depth));
      Follow(at, entity, rels[1..], depth, max, next)
  }

  function Report(s: Progress, target: string, r: Relation, depth: nat): Progress {
    Progress(s.visited + {target}, s.results + [RelationInfo(target, r.kind, r.context, depth)])
  }

  // at lists the relations touching each name.
  ghost predicate Lists(at: string -> seq<Relation>, rels: set<Relation>) {
    forall x, r :: r in at(x) <==> r in rels && TouchesName(r, x)
  }

  // A walk of exactly n steps from start to x.
  ghost predicate Walks(rels: set<Relation>, start: string, x: string, n: nat)
    decreases n
  {
    if n == 0 then x == start else exists u :: Walks(rels, start, u, n - 1) && Joined(rels, u, x)
  }

  // The relation reported ends a walk of as many steps as its depth.
  ghost predicate EndsWalk(rels: set<Relation>, start: string, info: RelationInfo) {
    info.depth > 0 && exists u, r :: Walks(rels, start, u, info.depth - 1) && LeadsBy(rels, u, r, info)
  }

  ghost predicate LeadsBy(rels: set<Relation>, u: string, r: Relation, info: RelationInfo) {
    r in rels && TouchesName(r, u) && OtherEnd(r, u) == info.target && r.kind == info.kind && r.context == info.context
  }

  lemma EndsWalkIsWalk(rels: set<Relation>, start: string, info: RelationInfo)
    requires EndsWalk(rels, start, info)
    ensures Walks(rels, start, info.target, info.depth)
  {
    var u, r :| Walks(rels, start, u, info.depth - 1) && LeadsBy(rels, u, r, info);
    assert Joined(rels, u, info.target);
  }

  // Walks are what distances are made of.
  lemma {:induction false} WalksIsWithin(rels: set<Relation>, start: string, x: string, n: nat)
    requires Walks(rels, start, x, n)
    ensures Within(JoinedBy(rels), start, x, n)
    decreases n
  {
    if n > 0 {
      var u :| Walks(rels, start, u, n - 1) && Joined(rels, u, x);
      WalksIsWithin(rels, start, u, n - 1);
      assert JoinedBy(rels)(u, x);
    }
  }

  ghost predicate Reports(results: seq<RelationInfo>, x: string) {
    exists k :: 0 <= k < |results| && results[k].target == x
  }

  // Each entity reached is reported once, never the start, with the length of
  // a walk within the limit as its depth.
  ghost predicate Sound(rels: set<Relation>, start: string, max: nat, s: Progress) {
    && (forall x :: x in s.visited <==> x == start || Reports(s.results, x))
    && (forall i, j :: 0 <= i < j < |s.results| ==> s.results[i].target != s.results[j].target)
    && !Reports(s.results, start)
    && (forall k :: 0 <= k < |s.results| ==> IsReport(rels, start, max, s.results[k]))
  }

  ghost predicate IsReport(rels: set<Relation>, start: string, max: nat, info: RelationInfo) {
    EndsWalk(rels, start, info) && info.depth <= max
  }

  // No report is deeper than the visited entities allow.
  ghost predicate Shallow(s: Progress) {
    forall k :: 0 <= k < |s.results| ==> s.results[k].depth < |s.visited|
  }

  // What s' adds to s has its neighbours visited, unless found at the limit.
  ghost predicate Extends(at: string -> seq<Relation>, max: nat, s: Progress, s': Progress) {
    && s.results <= s'.results && s.visited <= s'.visited
    && (forall k :: |s.results| <= k < |s'.results| && s'.results[k].depth < max ==>
      Covered(at, s'.results[k].target, s'.visited))
  }

  ghost predicate Covered(at: string -> seq<Relation>, x: string, visited: set<string>) {
    forall r :: r in at(x) ==> OtherEnd(r, x) in visited
  }

  lemma ExtendsThrough(at: string -> seq<Relation>, max: nat, s: Progress, t: Progress, u: Progress)
    requires Extends(at, max, s, t) && Extends(at, max, t, u)
    ensures Extends(at, max, s, u)
  {
    forall k | |s.results| <= k < |u.results| && u.results[k].depth < max
      ensures Covered(at, u.results[k].target, u.visited)
    {
      if k < |t.results| {
        assert u.results[k] == t.results[k];
      }
    }
  }

  // Reporting, then traversing from the new entity.
  lemma ExtendsFrom(at: string -> seq<Relation>, max: nat, s: Progress, target: string, r: Relation, depth: nat,
                    u: Progress)
    requires Extends(at, max, Report(s, target, r, depth), u)
    requires depth < max ==> Covered(at, target, u.visited)
    ensures Extends(at, max, s, u)
  {
    var t := Report(s, target, r, depth);
    assert u.results[|s.results|] == t.results[|s.results|];
    forall k | |s.results| <= k < |u.results| && u.results[k].depth < max
      ensures Covered(at, u.results[k].target, u.visited)
    {
      if k > |s.results| {
        assert k >= |t.results|;
      }
    }
  }

  lemma GrownSet(s: set<string>, t: set<string>)
    requires s <= t
    ensures |s| <= |t|
  {
    SubsetCount(s, t);
  }

  lemma ReportIsSound(rels: set<Relation>, start: string, max: nat, s: Progress, entity: string, r: Relation,
                      depth: nat)
    requires Sound(rels, start, max, s) && Shallow(s)
    requires 0 < depth <= max && depth <= |s.visited| && Walks(rels, start, entity, depth - 1)
    requires r in rels && TouchesName(r, entity) && OtherEnd(r, entity) !in s.visited
    ensures var t := Report(s, OtherEnd(r, entity), r, depth);
      && Sound(rels, start, max, t) && Shallow(t) && |t.visited| == |s.visited| + 1
      && Walks(rels, start, OtherEnd(r, entity), depth)
  {
    var target := OtherEnd(r, entity);
    var info := RelationInfo(target, r.kind, r.context, depth);
    assert LeadsBy(rels, entity, r, info);
    EndsWalkIsWalk(rels, start, info);
    hide EndsWalk, Walks, TouchesName, Reports;
    ReportedToo(s.results, info);
  }

  lemma ReportedToo(results: seq<RelationInfo>, info: RelationInfo)
    ensures forall x :: Reports(results + [info], x) <==> Reports(results, x) || x == info.target
    ensures forall k :: 0 <= k < |results| ==> Reports(results, results[k].target)
  {
    var all := results + [info];
    assert all[|results|] == info;
    forall x | Reports(results, x)
      ensures Reports(all, x)
    {
      var k :| 0 <= k < |results| && results[k].target == x;
      assert all[k] == results[k];
    }
  }

  lemma {:induction false} TraverseKeeps(at: string -> seq<Relation>, rels: set<Relation>, start: string,
                                         entity: string,
                                         depth: nat, max: nat, s: Progress)
    requires Lists(at, rels) && Sound(rels, start, max, s) && Shallow(s)
    requires 0 < depth <= |s.visited| && Walks(rels, start, entity, depth - 1)
    ensures var t := Traverse(at, entity, depth, max, s);
      && Sound(rels, start, max, t) && Shallow(t) && Extends(at, max, s, t)
      && (depth <= max ==> Covered(at, entity, t.visited))
    decreases max + 1 - depth, 1, 0
  {
    if depth <= max {
      FollowKeeps(at, rels, start, entity, at(entity), depth, max, s);
    }
  }

  lemma {:induction false} FollowKeeps(at: string -> seq<Relation>, rels: set<Relation>, start: string, entity: string,
                                       list: seq<Relation>, depth: nat, max: nat, s: Progress)
    requires Lists(at, rels) && Sound(rels, start, max, s) && Shallow(s)
    requires 0 < depth <= |s.visited| && depth <= max && Walks(rels, start, entity, depth - 1)
    requires forall r :: r in list ==> r in rels && TouchesName(r, entity)
    ensures var t := Follow(at, entity, list, depth, max, s);
      && Sound(rels, start, max, t) && Shallow(t) && Extends(at, max, s, t)
      && (forall r :: r in list ==> OtherEnd(r, entity) in t.visited)
    decreases max + 1 - depth, 0, |list|
  {
    hide Lists, Sound, Shallow, Walks, Covered, TouchesName, OtherEnd;
    if list != [] {
      var r, target := list[0], OtherEnd(list[0], entity);
      var next := s;
      if target !in s.visited {
        ReportIsSound(rels, start, max, s, entity, r, depth);
        var reported := Report(s, target, r, depth);
        TraverseKeeps(at, rels, start, target, depth + 1, max, reported);
        next := Traverse(at, target, depth + 1, max, reported);
        ExtendsFrom(at, max, s, target, r, depth, next);
        hide Report;
      }
      GrownSet(s.visited, next.visited);
      FollowKeeps(at, rels, start, entity, list[1..], depth, max, next);
      ExtendsThrough(at, max, s, next, Follow(at, entity, list[1..], depth, max, next));
      assert forall x :: x in list <==> x == r || x in list[1..];
    }
  }

  function Begin(start: string): Progress {
    Progress({start}, [])
  }

  // Every traversal is sound and stays within the limit.
  lemma TraversalIsSound(at: string -> seq<Relation>, rels: set<Relation>, start: string, max: nat)
    requires Lists(at, rels)
    ensures var s := Traverse(at, start, 1, max, Begin(start));
      Sound(rels, start, max, s) && forall x :: x in s.visited ==> Within(JoinedBy(rels), start, x, max)
  {
    TraverseKeeps(at, rels, start, start, 1, max, Begin(start));
    var s := Traverse(at, start, 1, max, Begin(start));
    hide Traverse;
    forall x | x in s.visited
      ensures Within(JoinedBy(rels), start, x, max)
    {
      if x == start {
        WithinMonotone(JoinedBy(rels), start, start, 0, max);
      } else {
        var k :| 0 <= k < |s.results| && s.results[k].target == x;
        EndsWalkIsWalk(rels, start, s.results[k]);
        WalksIsWithin(rels, start, x, s.results[k].depth);
        WithinMonotone(JoinedBy(rels), start, x, s.results[k].depth, max);
      }
    }
  }

  ghost predicate AllCovered(at: string -> seq<Relation>, visited: set<string>) {
    forall x :: x in visited ==> Covered(at, x, visited)
  }

  // If everything is visited, the neighbours are.
  lemma AllVisitedCovers(at: string -> seq<Relation>, rels: set<Relation>, all: set<string>)
    requires Lists(at, rels) && forall r :: r in rels ==> r.from in all && r.to in all
    ensures AllCovered(at, all)
  {
    forall x, r | x in all && r in at(x)
      ensures OtherEnd(r, x) in all
    {
      assert r in rels;
    }
  }

  // Reports below the limit have their neighbours visited.
  lemma ShallowCovers(at: string -> seq<Relation>, rels: set<Relation>, start: string, max: nat, s: Progress)
    requires Sound(rels, start, max, s) && Shallow(s) && Extends(at, max, Begin(start), s) && |s.visited| <= max
    requires Covered(at, start, s.visited)
    ensures AllCovered(at, s.visited)
  {
    hide IsReport, Covered;
    forall x | x in s.visited
      ensures Covered(at, x, s.visited)
    {
      if x != start {
        var k :| 0 <= k < |s.results| && s.results[k].target == x;
        assert s.results[k].depth < max;
      }
    }
  }

  // With a limit of at least the number of other entities, the traversal only
  // stops where there is nothing left to visit.
  lemma DeepTraversalCovers(at: string -> seq<Relation>, rels: set<Relation>, all: set<string>, start: string, max: nat)
    requires Lists(at, rels) && start in all && (forall r :: r in rels ==> r.from in all && r.to in all)
    requires |all| <= max + 1
    ensures AllCovered(at, Traverse(at, start, 1, max, Begin(start)).visited)
  {
    hide Traverse, Lists, Sound, Shallow, Extends, Covered, AllCovered, Within;
    BeginIsSound(rels, start, max);
    TraverseKeeps(at, rels, start, start, 1, max, Begin(start));
    TraversalIsSound(at, rels, start, max);
    var s := Traverse(at, start, 1, max, Begin(start));
    forall x | x in s.visited
      ensures x in all
    {
      ReachedIsKnown(rels, all, start, x, max);
    }
    SubsetCount(s.visited, all);
    if |s.visited| >= |all| {
      AllVisitedCovers(at, rels, all);
    } else {
      ShallowCovers(at, rels, start, max, s);
    }
  }

  lemma BeginIsSound(rels: set<Relation>, start: string, max: nat)
    ensures Sound(rels, start, max, Begin(start)) && Shallow(Begin(start)) && |Begin(start).visited| == 1
    ensures Walks(rels, start, start, 0)
  {
  }

  lemma {:induction false} ReachedIsKnown(rels: set<Relation>, all: set<string>, start: string, x: string, d: nat)
    requires start in all && (forall r :: r in rels ==> r.from in all && r.to in all)
    requires Within(JoinedBy(rels), start, x, d)
    ensures x in all
    decreases d
  {
    if d > 0 && Within(JoinedBy(rels), start, x, d - 1) {
      ReachedIsKnown(rels, all, start, x, d - 1);
    } else if d > 0 {
      var u :| Within(JoinedBy(rels), start, u, d - 1) && JoinedBy(rels)(u, x);
      assert Joined(rels, u, x);
    }
  }

  lemma {:induction false} CoveredReaches(at: string -> seq<Relation>, rels: set<Relation>, visited: set<string>,
                                          start: string, x: string, d: nat)
    requires Lists(at, rels) && start in visited && AllCovered(at, visited)
    requires Within(JoinedBy(rels), start, x, d)
    ensures x in visited
    decreases d
  {
    if d > 0 && Within(JoinedBy(rels), start, x, d - 1) {
      CoveredReaches(at, rels, visited, start, x, d - 1);
    } else if d > 0 {
      var u :| Within(JoinedBy(rels), start, u, d - 1) && JoinedBy(rels)(u, x);
      CoveredReaches(at, rels, visited, start, u, d - 1);
      NeighbourCovered(at, rels, visited, u, x);
    }
  }

  lemma NeighbourCovered(at: string -> seq<Relation>, rels: set<Relation>, visited: set<string>, u: string, x: string)
    requires Lists(at, rels) && Covered(at, u, visited) && Joined(rels, u, x) && u in visited
    ensures x in visited
  {
    var r :| r in rels && ((r.from == u && r.to == x) || (r.from == x && r.to == u));
    assert r in at(u);
  }

  ghost predicate Connected(rels: set<Relation>, start: string, x: string) {
    exists d: nat :: Within(JoinedBy(rels), start, x, d)
  }

  // The whole connected component of the start is found.
  lemma DeepTraversalIsComplete(at: string -> seq<Relation>, rels: set<Relation>, all: set<string>, start: string,
                                max: nat)
    requires Lists(at, rels) && start in all && (forall r :: r in rels ==> r.from in all && r.to in all)
    requires |all| <= max + 1
    ensures forall x :: x in Traverse(at, start, 1, max, Begin(start)).visited <==> Connected(rels, start, x)
  {
    DeepTraversalCovers(at, rels, all, start, max);
    TraversalIsSound(at, rels, start, max);
    var s := Traverse(at, start, 1, max, Begin(start));
    hide Traverse, AllCovered, Lists, Within;
    forall x | Connected(rels, start, x)
      ensures x in s.visited
    {
      var d: nat :| Within(JoinedBy(rels), start, x, d);
      CoveredReaches(at, rels, s.visited, start, x, d);
    }
  }

  // Everything within the limit is found, and nothing else.
  ghost predicate FindsAll(at: string -> seq<Relation>, rels: set<Relation>, start: string, max: nat) {
    forall x :: x in Traverse(at, start, 1, max, Begin(start)).visited <==> Within(JoinedBy(rels), start, x, max)
  }

  lemma DeepFindsAll(at: string -> seq<Relation>, rels: set<Relation>, all: set<string>, start: string, max: nat)
    requires Lists(at, rels) && start in all && (forall r :: r in rels ==> r.from in all && r.to in all)
    requires |all| <= max + 1 || max <= 1
    ensures FindsAll(at, rels, start, max)
  {
    TraversalIsSound(at, rels, start, max);
    if |all| <= max + 1 {
      DeepTraversalIsComplete(at, rels, all, start, max);
    } else {
      TraverseKeeps(at, rels, start, start, 1, max, Begin(start));
      var s := Traverse(at, start, 1, max, Begin(start));
      hide Traverse;
      forall x | Within(JoinedBy(rels), start, x, max)
        ensures x in s.visited
      {
        if x != start {
          assert Within(JoinedBy(rels), start, start, 0) && JoinedBy(rels)(start, x);
          NeighbourCovered(at, rels, s.visited, start, x);
        }
      }
    }
  }

  ghost function ListsOf(g: Graph, nodeOf: NodeOf): string -> seq<Relation> {
    x => RelationsOf(g, nodeOf, x)
  }

  lemma RelationsAreListed(entities: Entities, mentions: MentionLists, g: Graph, nodeOf: NodeOf, nameOf: NameOf,
                           index: AliasIndex)
    requires IsStructured(entities, mentions, g, nodeOf, nameOf, index)
    ensures Lists(ListsOf(g, nodeOf), Relations(g))
  {
    KnownEnds(entities, mentions, g, nodeOf, nameOf, index);
    hide IsStructured, Relations, TouchesName, RelationsOf, OnePerTriple;
    forall x
      ensures forall r :: r in RelationsOf(g, nodeOf, x) <==> r in Relations(g) && TouchesName(r, x)
    {
      ListedAt(entities, mentions, g, nodeOf, nameOf, index, x);
    }
  }

  lemma ListedAt(entities: Entities, mentions: MentionLists, g: Graph, nodeOf: NodeOf, nameOf: NameOf,
                 index: AliasIndex, x: string)
    requires IsStructured(entities, mentions, g, nodeOf, nameOf, index) && EndsBelow(g.edges, |g.nodes|)
    ensures forall r :: r in RelationsOf(g, nodeOf, x) <==> r in Relations(g) && TouchesName(r, x)
  {
    KnownEnds(entities, mentions, g, nodeOf, nameOf, index);
    NodeIsEntity(entities, mentions, g, nodeOf, nameOf, index, x);
    hide IsStructured, Relations, TouchesName, EdgesAt, OnePerTriple, DistinctTriples, NamedAll;
    if x in nodeOf {
      EntityRelations(entities, mentions, g, nodeOf, nameOf, index, x);
    } else {
      forall r | r in Relations(g) { UnknownUntouched(entities, r, x); }
    }
  }

  lemma UnknownUntouched(entities: Entities, r: Relation, x: string)
    requires r.from in entities && r.to in entities && x !in entities
    ensures !TouchesName(r, x)
  {
  }

  // The traversal as it runs: results and visited names grow in place.
  method TraverseRelations(g: SimpleEntityGraph, entity: string, depth: nat, max: nat,
                           s: Progress) returns (t: Progress)
    requires g.Structured()
    ensures t == Traverse(ListsOf(g.graph, g.entityToNode), entity, depth, max, s)
    decreases max + 1 - depth
  {
    if depth > max {
      return s;
    }
    hide IsStructured, RelationsOf, Traverse, ListsOutThenIn, DistinctTriples, Relations, TouchesName, Report;
    ghost var at := ListsOf(g.graph, g.entityToNode);
    t := s;
    var list := g.RelationshipsOf(entity);
    assert list == at(entity) && list[0..] == list;
    for k := 0 to |list|
      invariant Follow(at, entity, list, depth, max, s) == Follow(at, entity, list[k..], depth, max, t)
    {
      var target := OtherEnd(list[k], entity);
      assert list[k..][0] == list[k] && list[k..][1..] == list[k + 1..];
      if target !in t.visited {
        t := TraverseRelations(g, target, depth + 1, max, Report(t, target, list[k], depth));
      }
    }
    assert list[|list|..] == [];
    assert t == Traverse(at, entity, depth, max, s) by { TraverseUnfolds(at, entity, depth, max, s); }
  }

  lemma TraverseUnfolds(at: string -> seq<Relation>, entity: string, depth: nat, max: nat, s: Progress)
    requires depth <= max
    ensures Traverse(at, entity, depth, max, s) == Follow(at, entity, at(entity), depth, max, s)
  {
  }

  // Position in the priority list; kinds not listed come last.
  function Priority(order: seq<RelationType>, kind: RelationType): (p: nat)
    ensures p <= |order| && (p < |order| ==> order[p] == kind)
  {
    if order == [] then 0 else if order[0] == kind then 0 else 1 + Priority(order[1..], kind)
  }

  predicate RanksBefore(order: seq<RelationType>, a: RelationInfo, b: RelationInfo) {
    Priority(order, a.kind) < Priority(order, b.kind) ||
    (Priority(order, a.kind) == Priority(order, b.kind) && a.depth < b.depth)
  }

  function RanksBy(order: seq<RelationType>): (RelationInfo, RelationInfo) -> bool {
    (a, b) => RanksBefore(order, a, b)
  }

  // Kind k is listed no later than kind l.
  ghost predicate ListedBy(order: seq<RelationType>, k: RelationType, l: RelationType) {
    forall p :: 0 <= p < |order| && order[p] == l ==> k in order[..p + 1]
  }

  // a may be listed before b: its kind is preferred, or as much preferred and
  // a is no deeper.
  ghost predicate Preferred(order: seq<RelationType>, a: RelationInfo, b: RelationInfo) {
    && ListedBy(order, a.kind, b.kind)
    && (ListedBy(order, b.kind, a.kind) ==> a.depth <= b.depth)
  }

  ghost function PreferredBy(order: seq<RelationType>): (RelationInfo, RelationInfo) -> bool {
    (a, b) => Preferred(order, a, b)
  }

  lemma {:induction false} PriorityIsFirst(order: seq<RelationType>, k: RelationType)
    ensures forall j :: 0 <= j < Priority(order, k) ==> order[j] != k
  {
    if order != [] && order[0] != k {
      PriorityIsFirst(order[1..], k);
      assert forall j :: 0 < j < |order| ==> order[j] == order[1..][j - 1];
    }
  }

  lemma PriorityLists(order: seq<RelationType>, k: RelationType, l: RelationType)
    ensures ListedBy(order, k, l) <==> Priority(order, k) <= Priority(order, l)
  {
    PriorityIsFirst(order, k);
    PriorityIsFirst(order, l);
    hide Priority;
    var p, q := Priority(order, k), Priority(order, l);
    if p <= q {
      forall j | 0 <= j < |order| && order[j] == l
        ensures k in order[..j + 1]
      {
        assert order[..j + 1][p] == k;
      }
    } else {
      assert order[q] == l && k !in order[..q + 1];
    }
  }

  lemma NotBehindIsPreferred(order: seq<RelationType>)
    ensures forall a, b :: !RanksBy(order)(b, a) ==> PreferredBy(order)(a, b)
  {
    hide Priority, ListedBy;
    forall a: RelationInfo, b: RelationInfo | !RanksBy(order)(b, a)
      ensures PreferredBy(order)(a, b)
    {
      PriorityLists(order, a.kind, b.kind);
      PriorityLists(order, b.kind, a.kind);
    }
  }

  lemma RanksIsWeakOrder(order: seq<RelationType>)
    ensures WeakOrder(RanksBy(order))
  {
    hide Priority;
  }

  // Every part of a sound traversal's reports is real, and all of them are
  // everything that was visited.
  lemma BestAreReports(rels: set<Relation>, start: string, max: nat, order: seq<RelationType>, limit: nat, s: Progress,
                       best: seq<RelationInfo>)
    requires Sound(rels, start, max, s) && AreFirst(RanksBy(order), limit, s.results, best)
    ensures forall info :: info in best ==> IsReport(rels, start, max, info) && info.target != start
    ensures |s.results| <= limit ==> forall x :: Reports(best, x) <==> x in s.visited && x != start
  {
    hide IsReport, RanksBy, NeverAfter;
    forall info | info in best
      ensures info in s.results
    {
      assert info in multiset(best);
    }
    forall info | info in s.results
      ensures IsReport(rels, start, max, info) && info.target != start
    {
      var k :| 0 <= k < |s.results| && s.results[k] == info;
    }
    if |s.results| <= limit {
      SameReports(s.results, best);
    }
  }

  lemma SameReports(results: seq<RelationInfo>, best: seq<RelationInfo>)
    requires multiset(best) <= multiset(results) && |best| == |results|
    ensures forall x :: Reports(best, x) <==> Reports(results, x)
  {
    assert |multiset(results) - multiset(best)| == 0;
    assert multiset(best) == multiset(results);
    forall info
      ensures info in best <==> info in results
    {
      assert info in multiset(best) <==> info in multiset(results);
    }
    forall x
      ensures Reports(best, x) <==> Reports(results, x)
    {
      if Reports(best, x) {
        var k :| 0 <= k < |best| && best[k].target == x;
        assert best[k] in results;
      }
      if Reports(results, x) {
        var k :| 0 <= k < |results| && results[k].target == x;
        assert results[k] in best;
      }
    }
  }

  // Related entities up to a depth, best-ranked relations first.
  method FindRelatedWithDepth(g: SimpleEntityGraph, start: string, max: nat, order: seq<RelationType>, limit: nat)
    returns (related: seq<RelationInfo>)
    requires g.Structured()
    ensures var s := Traverse(ListsOf(g.graph, g.entityToNode), start, 1, max, Begin(start));
      AreBest(PreferredBy(order), limit, s.results, related)
    // Each names another entity at the end of a walk within the limit.
    ensures forall info :: info in related ==> IsReport(g.Rels(), start, max, info) && info.target != start
    // With a limit that covers the graph and room for all, it is the
    // connected component.
    ensures start in g.entities && |g.entities| <= max + 1 && |related| < limit ==>
      forall x :: Reports(related, x) <==> Connected(g.Rels(), start, x) && x != start
  {
    hide IsStructured, RelationsOf, Traverse, Relations, Lists, Sound, AreFirst, AreBest, RanksBy, PreferredBy, Sort,
      Within, IsReport, Connected, Reports;
    RelationsAreListed(g.entities, g.mentions, g.graph, g.entityToNode, g.nodeToEntity, g.aliasIndex);
    KnownEnds(g.entities, g.mentions, g.graph, g.entityToNode, g.nodeToEntity, g.aliasIndex);
    ghost var at := ListsOf(g.graph, g.entityToNode);
    var s := TraverseRelations(g, start, 1, max, Begin(start));
    TraversalIsSound(at, g.Rels(), start, max);
    if start in g.entities && |g.entities| <= max + 1 {
      assert |g.entities.Keys| == |g.entities|;
      DeepTraversalIsComplete(at, g.Rels(), g.entities.Keys, start, max);
    }
    RanksIsWeakOrder(order);
    PrefixIsFirst(RanksBy(order), limit, s.results);
    SortElements(RanksBy(order), s.results);
    related := Sort(RanksBy(order), s.results);
    if |related| >= limit {
      related := related[..limit];
    }
    BestAreReports(g.Rels(), start, max, order, limit, s, related);
    NotBehindIsPreferred(order);
    FirstAreBest(RanksBy(order), PreferredBy(order), limit, s.results, related);
  }
}
