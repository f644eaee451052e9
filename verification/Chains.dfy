// For which limits the depth-limited traversal finds all within them: a chain
// of entities with a shortcut from its first to its last but one defeats all
// others.
module Chains {
  import opened Types
  import opened Sorting
  import opened DiGraph
  import opened Names
  import opened Mentions
  import opened GraphState
  import opened Reach
  import opened Network
  import opened GraphRag

  // Any graph of n entities is searched completely within the limit; exact
  // asks it only of those with an exact alias index.
  ghost predicate AlwaysFindsAll(n: nat, max: nat, exact: bool) {
    forall entities: Entities, mentions: MentionLists, g: Graph, nodeOf: NodeOf, nameOf: NameOf, index: AliasIndex,
           start: string |
      IsStructured(entities, mentions, g, nodeOf, nameOf, index) && (exact ==> AliasExact(entities, index)) &&
      start in entities && |entities| == n ::
      FindsAll(ListsOf(g, nodeOf), Relations(g), start, max)
  }

  function ChainName(k: nat): (x: string)
    ensures |x| == k + 1 && forall i :: 0 <= i <= k ==> x[i] == 'x'
  {
    seq(k + 1, _ => 'x')
  }

  function ChainNames(n: nat): (names: seq<string>)
    ensures |names| == n && forall k :: 0 <= k < n ==> names[k] == ChainName(k)
  {
    seq(n, k requires 0 <= k < n => ChainName(k))
  }

  function ChainEdge(i: nat, j: nat): Edge { Edge(i, j, RelatedTo, "") }

  function ChainLink(i: nat, j: nat): Relation {
    Relation(ChainName(i), ChainName(j), RelatedTo, "")
  }

  // The shortcut from 0 to m, then the first j links of the chain 0, 1, ..
  function ChainEdges(m: nat, j: nat): seq<Edge> {
    if j == 0 then [ChainEdge(0, m)] else ChainEdges(m, j - 1) + [ChainEdge(j - 1, j)]
  }

  // A chain of m + 1 links and its shortcut, among n entities.
  function ChainGraph(n: nat, m: nat): Graph {
    Graph(ChainNames(n), ChainEdges(m, m + 1))
  }

  // What goes with nodes named by their position, of which each is a key.
  function NodesByLength(names: seq<string>): NodeOf { map x | x in names && |x| > 0 :: |x| - 1 }

  function NamesByIndex(names: seq<string>): NameOf { map k: nat | k < |names| :: names[k] }

  function PlainEntities(names: seq<string>): Entities { map x | x in names :: Fresh(x, Concept, 0, "") }

  function PlainIndex(names: seq<string>): AliasIndex { map x | x in names :: x }

  // What is listed at the entities of the chain.
  function ChainList(m: nat, k: nat): seq<Relation>
    requires 2 <= m && k <= m + 1
  {
    if k == 0 then [ChainLink(0, 1), ChainLink(0, m)]
    else if k < m then [ChainLink(k, k + 1), ChainLink(k - 1, k)]
    else if k == m then [ChainLink(m, m + 1), ChainLink(m - 1, m), ChainLink(0, m)]
    else [ChainLink(m, m + 1)]
  }

  lemma {:induction false} ChainEdgesAre(m: nat, j: nat)
    ensures |ChainEdges(m, j)| == j + 1 && ChainEdges(m, j)[0] == ChainEdge(0, m)
    ensures forall k :: 1 <= k <= j ==> ChainEdges(m, j)[k] == ChainEdge(k - 1, k)
  {
    if j > 0 {
      ChainEdgesAre(m, j - 1);
    }
  }

  lemma SelectSnoc(edges: seq<Edge>, e: Edge, keep: Edge -> bool)
    ensures Select(edges + [e], keep) == (if keep(e) then [e] else []) + Select(edges, keep)
  {
    assert (edges + [e])[..|edges|] == edges;
  }

  lemma SelectNone(keep: Edge -> bool)
    ensures Select([], keep) == []
  {
  }

  lemma {:induction false} SelectOut(m: nat, j: nat, k: nat, keep: Edge -> bool)
    requires 2 <= m && forall e :: keep(e) <==> e.src == k
    ensures Select(ChainEdges(m, j), keep) ==
      (if k < j then [ChainEdge(k, k + 1)] else []) + if k == 0 then [ChainEdge(0, m)] else []
  {
    hide Select;
    if j == 0 {
      SelectNone(keep);
      SelectSnoc([], ChainEdge(0, m), keep);
      assert [] + [ChainEdge(0, m)] == [ChainEdge(0, m)];
    } else {
      SelectOut(m, j - 1, k, keep);
      SelectSnoc(ChainEdges(m, j - 1), ChainEdge(j - 1, j), keep);
    }
  }

  lemma {:induction false} SelectIn(m: nat, j: nat, k: nat, keep: Edge -> bool)
    requires 2 <= m && forall e :: keep(e) <==> e.dst == k && e.src != k
    ensures Select(ChainEdges(m, j), keep) ==
      (if 0 < k <= j then [ChainEdge(k - 1, k)] else []) + if k == m then [ChainEdge(0, m)] else []
  {
    hide Select;
    if j == 0 {
      SelectNone(keep);
      SelectSnoc([], ChainEdge(0, m), keep);
      assert [] + [ChainEdge(0, m)] == [ChainEdge(0, m)];
    } else {
      SelectIn(m, j - 1, k, keep);
      SelectSnoc(ChainEdges(m, j - 1), ChainEdge(j - 1, j), keep);
    }
  }

  lemma ChainEdgesAt(n: nat, m: nat, k: nat)
    requires 2 <= m && m + 2 <= n && k <= m + 1
    ensures EdgesAt(ChainGraph(n, m), k) ==
      if k == 0 then [ChainEdge(0, 1), ChainEdge(0, m)]
      else if k < m then [ChainEdge(k, k + 1), ChainEdge(k - 1, k)]
      else if k == m then [ChainEdge(m, m + 1), ChainEdge(m - 1, m), ChainEdge(0, m)]
      else [ChainEdge(m, m + 1)]
  {
    hide Select, ChainEdge, ChainEdges;
    SelectOut(m, m + 1, k, (e: Edge) => e.src == k);
    SelectIn(m, m + 1, k, (e: Edge) => e.dst == k && e.src != k);
  }

  lemma ChainNode(n: nat, k: nat)
    requires k < n
    ensures var nodeOf := NodesByLength(ChainNames(n)); ChainName(k) in nodeOf && nodeOf[ChainName(k)] == k
  {
    assert ChainNames(n)[k] == ChainName(k);
  }

  lemma NamedOne(g: Graph, n: nat, i: nat, j: nat)
    requires g.nodes == ChainNames(n) && i < n && j < n
    ensures Named(g, ChainEdge(i, j)) == ChainLink(i, j)
  {
  }

  lemma NamedThree(g: Graph, n: nat, a: Edge, b: Edge, c: Edge)
    requires g.nodes == ChainNames(n) && EndsBelow([a, b, c], n)
    requires a == ChainEdge(a.src, a.dst) && b == ChainEdge(b.src, b.dst) && c == ChainEdge(c.src, c.dst)
    ensures var x, y, z := ChainLink(a.src, a.dst), ChainLink(b.src, b.dst), ChainLink(c.src, c.dst);
      && NamedAll(g, [a, b, c]) == [x, y, z]
      && EndsBelow([a, b], n) && NamedAll(g, [a, b]) == [x, y]
      && EndsBelow([a], n) && NamedAll(g, [a]) == [x]
  {
    assert [a, b, c][0] == a && [a, b, c][1] == b && [a, b, c][2] == c;
    NamedOne(g, n, a.src, a.dst);
    NamedOne(g, n, b.src, b.dst);
    NamedOne(g, n, c.src, c.dst);
    hide ChainNames, ChainEdge, ChainLink, Named;
  }

  lemma ChainNamed(n: nat, m: nat, k: nat, at: seq<Edge>)
    requires 2 <= m && m + 2 <= n && k <= m + 1
    requires at == EdgesAt(ChainGraph(n, m), k)
    ensures EndsBelow(at, n) && NamedAll(ChainGraph(n, m), at) == ChainList(m, k)
  {
    var g := ChainGraph(n, m);
    ChainEdgesAt(n, m, k);
    hide ChainName, ChainEdges, ChainNames, ChainLink, Named, EdgesAt, NamedAll;
    if k == 0 {
      NamedThree(g, n, ChainEdge(0, 1), ChainEdge(0, m), ChainEdge(0, m));
    } else if k < m {
      NamedThree(g, n, ChainEdge(k, k + 1), ChainEdge(k - 1, k), ChainEdge(0, m));
    } else {
      NamedThree(g, n, ChainEdge(m, m + 1), ChainEdge(m - 1, m), ChainEdge(0, m));
    }
  }

  // The graph lists at each entity of the chain what it should.
  lemma ChainListed(n: nat, m: nat, k: nat)
    requires 2 <= m && m + 2 <= n && k <= m + 1
    ensures ListsOf(ChainGraph(n, m), NodesByLength(ChainNames(n)))(ChainName(k)) == ChainList(m, k)
  {
    ChainNamed(n, m, k, EdgesAt(ChainGraph(n, m), k));
    ChainNode(n, k);
    hide EdgesAt, ChainName, ChainEdges, NodesByLength, Named, ChainNames, ChainLink, ChainList, EndsBelow;
  }

  lemma {:induction false} ChainKey(s: string)
    requires s != "" && forall i :: 0 <= i < |s| ==> s[i] == 'x'
    ensures Significant(s) == s && LowerAll(s) == s && EntityKey(s) == s
  {
    if |s| > 1 {
      ChainKey(s[1..]);
    } else {
      assert s[1..] == "";
    }
    assert [s[0]] + s[1..] == s;
  }

  lemma ChainNamesAre(n: nat)
    ensures forall k :: 0 <= k < n ==> |ChainNames(n)[k]| == k + 1
    ensures forall x :: x in ChainNames(n) ==> EntityKey(x) == x
  {
    forall x | x in ChainNames(n)
      ensures EntityKey(x) == x
    {
      var k :| 0 <= k < n && ChainNames(n)[k] == x;
      ChainKey(x);
    }
  }

  lemma IndexedByLength(names: seq<string>)
    requires forall k :: 0 <= k < |names| ==> |names[k]| == k + 1
    ensures Distinct(names) && IndexesNodes(names, NodesByLength(names), NamesByIndex(names))
  {
  }

  lemma ChainIsValidGraph(n: nat, m: nat)
    requires 2 <= m && m + 2 <= n && Distinct(ChainNames(n))
    ensures ValidGraph(ChainGraph(n, m))
  {
    ChainEdgesAre(m, m + 1);
    hide ChainNames, ChainEdges, Distinct;
  }

  lemma PlainIsExact(names: seq<string>)
    requires forall x :: x in names ==> EntityKey(x) == x
    ensures WellNamed(PlainEntities(names)) && AliasExact(PlainEntities(names), PlainIndex(names))
  {
    hide EntityKey;
    forall k | k in names
      ensures IsKeyOf(PlainEntities(names), k, k)
    {
      assert IsNameOf(PlainEntities(names)[k], k);
    }
  }

  lemma ChainIsValid(n: nat, m: nat)
    requires 2 <= m && m + 2 <= n
    ensures var names := ChainNames(n); var e, index := PlainEntities(names), PlainIndex(names);
      IsStructured(e, map[], ChainGraph(n, m), NodesByLength(names), NamesByIndex(names), index) && AliasExact(e, index)
  {
    ChainNamesAre(n);
    IndexedByLength(ChainNames(n));
    ChainIsValidGraph(n, m);
    PlainIsExact(ChainNames(n));
    PlainParts(ChainNames(n));
    hide ValidGraph, IndexesNodes, WellNamed, AliasExact, ChainNames, EntityKey, NodesByLength, NamesByIndex,
      ChainEdges, PlainEntities, PlainIndex, AreNodes, MentionsKnown, NoDangling;
  }

  lemma PlainParts(names: seq<string>)
    ensures AreNodes(names, PlainEntities(names)) && MentionsKnown(PlainEntities(names), map[])
    ensures NoDangling(PlainEntities(names), PlainIndex(names))
  {
  }

  lemma {:induction false} NamesCount(names: seq<string>)
    requires Distinct(names)
    ensures |set x | x in names| == |names|
  {
    if names != [] {
      var rest, last := names[..|names| - 1], names[|names| - 1];
      NamesCount(rest);
      assert names == rest + [last];
      assert (set x | x in names) == (set x | x in rest) + {last};
    }
  }

  lemma ChainCount(n: nat)
    ensures |PlainEntities(ChainNames(n))| == n
  {
    ChainNamesAre(n);
    IndexedByLength(ChainNames(n));
    hide Distinct, IndexesNodes, ChainNames;
    NamesCount(ChainNames(n));
    assert PlainEntities(ChainNames(n)).Keys == set x | x in ChainNames(n);
  }

  ghost function UpTo(m: nat): set<string> {
    set k | 0 <= k <= m :: ChainName(k)
  }

  // Nothing listed after the next link is new once the chain was followed.
  lemma ChainRest(at: string -> seq<Relation>, m: nat, k: nat, depth: nat, u: Progress)
    requires 2 <= m && k < m && depth <= m && u.visited == UpTo(m)
    ensures Follow(at, ChainName(k), ChainList(m, k)[1..], depth, m, u) == u
  {
    var here, r := ChainName(k), ChainList(m, k)[1];
    assert OtherEnd(r, here) == ChainName(if k == 0 then m else k - 1);
    assert OtherEnd(r, here) in u.visited;
    assert ChainList(m, k)[1..] == [r] && [r][1..] == [];
  }

  ghost predicate ListsChain(at: string -> seq<Relation>, m: nat) {
    2 <= m && forall k :: 0 <= k <= m + 1 ==> at(ChainName(k)) == ChainList(m, k)
  }

  lemma ListsLink(at: string -> seq<Relation>, m: nat, k: nat)
    requires ListsChain(at, m) && k <= m + 1
    ensures at(ChainName(k)) == ChainList(m, k)
  {
  }

  // Going down the chain uses up the limit before the shortcut is looked at.
  lemma {:induction false} ChainRun(at: string -> seq<Relation>, m: nat, k: nat, s: Progress)
    requires ListsChain(at, m) && k <= m && s.visited == UpTo(k)
    ensures Traverse(at, ChainName(k), k + 1, m, s).visited == UpTo(m)
    decreases m - k
  {
    assert 2 <= m;
    hide ListsChain, UpTo, ChainName, ChainList, Traverse, Follow, Report;
    if k == m {
      TraverseStops(at, ChainName(k), m, s);
    } else {
      var t := Report(s, ChainName(k + 1), ChainLink(k, k + 1), k + 1);
      ListsLink(at, m, k);
      ChainNext(m, k, s);
      ChainRun(at, m, k + 1, t);
      var u := Traverse(at, ChainName(k + 1), k + 2, m, t);
      ChainRest(at, m, k, k + 1, u);
      TraverseGoesOn(at, ChainName(k), k + 1, m, s, ChainName(k + 1), u);
    }
  }

  lemma TraverseStops(at: string -> seq<Relation>, entity: string, max: nat, s: Progress)
    ensures Traverse(at, entity, max + 1, max, s) == s
  {
  }

  // The first relation listed leads on, the others to nothing new.
  lemma TraverseGoesOn(at: string -> seq<Relation>, entity: string, depth: nat, max: nat, s: Progress, target: string,
                       u: Progress)
    requires depth <= max && at(entity) != [] && OtherEnd(at(entity)[0], entity) == target && target !in s.visited
    requires u == Traverse(at, target, depth + 1, max, Report(s, target, at(entity)[0], depth))
    requires Follow(at, entity, at(entity)[1..], depth, max, u) == u
    ensures Traverse(at, entity, depth, max, s) == u
  {
    hide Report, OtherEnd;
  }

  lemma ChainNext(m: nat, k: nat, s: Progress)
    requires 2 <= m && k < m && s.visited == UpTo(k)
    ensures var r := ChainLink(k, k + 1); var t := Report(s, ChainName(k + 1), r, k + 1);
      && ChainList(m, k) != [] && ChainList(m, k)[0] == r && OtherEnd(r, ChainName(k)) == ChainName(k + 1)
      && ChainName(k + 1) !in s.visited && t.visited == UpTo(k + 1)
  {
  }

  lemma ChainRelates(n: nat, m: nat)
    requires 2 <= m && m + 2 <= n
    ensures EndsBelow(ChainGraph(n, m).edges, n)
    ensures ChainLink(0, m) in Relations(ChainGraph(n, m)) && ChainLink(m, m + 1) in Relations(ChainGraph(n, m))
  {
    var g := ChainGraph(n, m);
    ChainEdgesAre(m, m + 1);
    assert Named(g, g.edges[0]) == ChainLink(0, m) && Named(g, g.edges[m + 1]) == ChainLink(m, m + 1);
  }

  lemma ChainIsShort(rels: set<Relation>, m: nat)
    requires 2 <= m && ChainLink(0, m) in rels && ChainLink(m, m + 1) in rels
    ensures Within(JoinedBy(rels), ChainName(0), ChainName(m + 1), m)
  {
    var adj, start := JoinedBy(rels), ChainName(0);
    assert Joined(rels, start, ChainName(m)) && Joined(rels, ChainName(m), ChainName(m + 1));
    assert adj(start, ChainName(m)) && adj(ChainName(m), ChainName(m + 1));
    hide JoinedBy, ChainName;
    assert Within(adj, start, start, 0);
    assert Within(adj, start, ChainName(m), 1);
    assert Within(adj, start, ChainName(m + 1), 2);
    WithinMonotone(adj, start, ChainName(m + 1), 2, m);
  }

  // With limit m the entity past m is two steps away but never visited.
  lemma ChainMisses(n: nat, m: nat)
    requires 2 <= m && m + 2 <= n
    ensures EndsBelow(ChainGraph(n, m).edges, n)
    ensures var g := ChainGraph(n, m);
      !FindsAll(ListsOf(g, NodesByLength(ChainNames(n))), Relations(g), ChainName(0), m)
  {
    ChainRelates(n, m);
    ChainVisits(n, m);
    ChainIsShort(Relations(ChainGraph(n, m)), m);
    hide Traverse, Within, ChainGraph, ChainNames, NodesByLength, Relations, ListsOf, JoinedBy;
    assert ChainName(m + 1) !in UpTo(m);
  }

  lemma ChainVisits(n: nat, m: nat)
    requires 2 <= m && m + 2 <= n
    ensures var at, start := ListsOf(ChainGraph(n, m), NodesByLength(ChainNames(n))), ChainName(0);
      Traverse(at, start, 1, m, Begin(start)).visited == UpTo(m)
  {
    var at, start := ListsOf(ChainGraph(n, m), NodesByLength(ChainNames(n))), ChainName(0);
    assert Begin(start).visited == UpTo(0);
    hide Traverse, ChainName, ChainNames, ChainGraph, NodesByLength, ChainList, ListsOf;
    forall k | 0 <= k <= m + 1
      ensures at(ChainName(k)) == ChainList(m, k)
    {
      ChainListed(n, m, k);
    }
    assert ListsChain(at, m);
    hide ListsChain, UpTo;
    ChainRun(at, m, 0, Begin(start));
  }

  lemma ChainDefeats(n: nat, m: nat, exact: bool)
    requires 2 <= m && m + 2 <= n
    ensures !AlwaysFindsAll(n, m, exact)
  {
    ChainMisses(n, m);
    ChainIsValid(n, m);
    ChainCount(n);
    var names := ChainNames(n);
    assert names[0] == ChainName(0) && ChainName(0) in PlainEntities(names);
    hide IsStructured, AliasExact, FindsAll, Relations, ChainGraph, PlainEntities;
  }

  // The traversal finds everything within its limit in every graph of n
  // entities, or every one with an exact alias index, exactly when the limit
  // is at most one step or at least n - 1.
  lemma CompleteExactlyWhen(n: nat, max: nat, exact: bool)
    ensures AlwaysFindsAll(n, max, exact) <==> max <= 1 || n <= max + 1
  {
    if max <= 1 || n <= max + 1 {
      hide IsStructured, AliasExact, FindsAll, Relations, Lists;
      forall entities: Entities, mentions: MentionLists, g: Graph, nodeOf: NodeOf, nameOf: NameOf, index: AliasIndex,
             start: string |
        IsStructured(entities, mentions, g, nodeOf, nameOf, index) && start in entities && |entities| == n
        ensures EndsBelow(g.edges, |g.nodes|) && FindsAll(ListsOf(g, nodeOf), Relations(g), start, max)
      {
        AllFound(entities, mentions, g, nodeOf, nameOf, index, start, max);
      }
    } else {
      ChainDefeats(n, max, exact);
    }
  }

  lemma AllFound(entities: Entities, mentions: MentionLists, g: Graph, nodeOf: NodeOf, nameOf: NameOf,
                 index: AliasIndex, start: string, max: nat)
    requires IsStructured(entities, mentions, g, nodeOf, nameOf, index) && start in entities
    requires |entities| <= max + 1 || max <= 1
    ensures EndsBelow(g.edges, |g.nodes|) && FindsAll(ListsOf(g, nodeOf), Relations(g), start, max)
  {
    RelationsAreListed(entities, mentions, g, nodeOf, nameOf, index);
    KnownEnds(entities, mentions, g, nodeOf, nameOf, index);
    hide IsStructured, Relations, FindsAll, Lists;
    assert |entities.Keys| == |entities|;
    DeepFindsAll(ListsOf(g, nodeOf), Relations(g), entities.Keys, start, max);
  }
}
