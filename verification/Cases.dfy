// Stored entities for which rebuilding the alias index goes wrong: the
// earliest of three is lost, or a name is left to an entity that is not
// called that.
module Cases {
  import opened Types
  import opened Sorting
  import opened DiGraph
  import opened Names
  import opened Mentions
  import opened GraphState
  import opened Strings
  import opened Rebuild
  import opened Classes
  import opened Merging
  import opened Outcome
  import opened EntityGraph
  import opened Storage

  // Five names of which no two share a key.
  datatype Five = Five(a: string, b: string, c: string, x: string, y: string)

  ghost predicate KeysDiffer(f: Five) {
    var ka, kb, kc, kx, ky := EntityKey(f.a), EntityKey(f.b), EntityKey(f.c), EntityKey(f.x), EntityKey(f.y);
    && ka != kb && ka != kc && ka != kx && ka != ky && kb != kc
    && kb != kx && kb != ky && kc != kx && kc != ky && kx != ky
  }

  lemma NamesDiffer(f: Five)
    requires KeysDiffer(f)
    ensures f.a != f.b && f.a != f.c && f.a != f.x && f.a != f.y && f.b != f.c
    ensures f.b != f.x && f.b != f.y && f.c != f.x && f.c != f.y && f.x != f.y
  {
  }

  function Entity(name: string, first: Time, aliases: seq<string>): EntityData {
    EntityData(name, Concept, first, first, 1, 1.0, None, aliases)
  }

  // Who is the earliest with a key owns it.
  lemma EarliestOwns(entities: Entities, order: seq<string>, index: AliasIndex, n: string, k: string)
    requires InMentionOrder(entities, order) && ServesEarliest(entities, order, index) && IsKeyOf(entities, n, k)
    requires forall m :: IsKeyOf(entities, m, k) ==> m == n || Before(entities, n, m)
    ensures k in index && index[k] == n
  {
    OwnerIsEarliest(entities, order, index, n, k);
    OwnerHasKey(entities, order, index, k);
    hide InMentionOrder, ServesEarliest, IsKeyOf, Before;
    BeforeIsOrder(entities);
  }

  lemma LateMergesNext(entities: Entities, index: AliasIndex, order: seq<string>, n: string)
    requires n in entities && forall m :: m in order ==> m in entities
    ensures forall m :: m in order + [n] ==> m in entities
    ensures LateMerges(entities, index, order + [n]) ==
      LateMerges(entities, index, order) + LateOwners(index, n, NamesOf(entities, n))
  {
    hide LateOwners, NamesOf;
    assert (order + [n])[..|order|] == order;
  }

  // The late owners of up to three names.
  lemma LateOwnersOf(index: AliasIndex, n: string, x: string, y: string)
    ensures LateOwners(index, n, [n]) == LateOwner(index, n, n)
    ensures LateOwners(index, n, [n, x]) == LateOwner(index, n, n) + LateOwner(index, n, x)
    ensures LateOwners(index, n, [n, x, y]) == LateOwner(index, n, n) + LateOwner(index, n, x) + LateOwner(index, n, y)
  {
    hide EntityKey;
    assert [n][..0] == [] && [n, x][..1] == [n] && [n, x, y][..2] == [n, x];
  }

  function LateOwner(index: AliasIndex, n: string, x: string): seq<(string, string)> {
    var k := EntityKey(x);
    if k in index && index[k] != n then [(n, index[k])] else []
  }

  // First mentioned in the order a, b, c; c shares x with a and y with b.
  function Chain(f: Five): Entities {
    map[f.a := Entity(f.a, 1, [f.x]), f.b := Entity(f.b, 2, [f.y]), f.c := Entity(f.c, 3, [f.x, f.y])]
  }

  function ChainOrder(f: Five): seq<string> { [f.a, f.b, f.c] }

  lemma ChainEntries(f: Five)
    requires KeysDiffer(f)
    ensures Chain(f).Keys == {f.a, f.b, f.c} && f.a in Chain(f) && f.b in Chain(f) && f.c in Chain(f)
    ensures Chain(f)[f.a] == Entity(f.a, 1, [f.x]) && Chain(f)[f.b] == Entity(f.b, 2, [f.y])
    ensures Chain(f)[f.c] == Entity(f.c, 3, [f.x, f.y])
  {
    NamesDiffer(f);
    hide KeysDiffer;
  }

  lemma ChainIsOrdered(f: Five)
    requires KeysDiffer(f)
    ensures InMentionOrder(Chain(f), ChainOrder(f)) && WellNamed(Chain(f))
  {
    ChainEntries(f);
    NamesDiffer(f);
    hide KeysDiffer, Chain, StrLess;
    assert ChainOrder(f)[0] == f.a && ChainOrder(f)[1] == f.b && ChainOrder(f)[2] == f.c;
  }

  lemma ChainKeys(f: Five, n: string, k: string)
    requires KeysDiffer(f)
    ensures IsKeyOf(Chain(f), n, k) <==>
      (n == f.a && (k == EntityKey(f.a) || k == EntityKey(f.x))) ||
      (n == f.b && (k == EntityKey(f.b) || k == EntityKey(f.y))) ||
      (n == f.c && (k == EntityKey(f.c) || k == EntityKey(f.x) || k == EntityKey(f.y)))
  {
    ChainEntries(f);
    hide KeysDiffer, Chain, EntityKey;
    if n in Chain(f) {
      assert IsNameOf(Chain(f)[n], n);
      assert n == f.a ==> IsNameOf(Chain(f)[n], f.x);
      assert n == f.b ==> IsNameOf(Chain(f)[n], f.y);
      assert n == f.c ==> IsNameOf(Chain(f)[n], f.x) && IsNameOf(Chain(f)[n], f.y);
    }
  }

  lemma ChainOwner(f: Five, order: seq<string>, index: AliasIndex, n: string, k: string)
    requires KeysDiffer(f) && InMentionOrder(Chain(f), order) && ServesEarliest(Chain(f), order, index)
    requires IsKeyOf(Chain(f), n, k) && (n == f.c ==> k == EntityKey(f.c))
    ensures k in index && index[k] == n
  {
    ChainEntries(f);
    NamesDiffer(f);
    assert Before(Chain(f), f.a, f.c) && Before(Chain(f), f.b, f.c);
    ChainKeys(f, n, k);
    hide Chain, EntityKey, InMentionOrder, Before, IsKeyOf;
    forall m | IsKeyOf(Chain(f), m, k)
      ensures m == n || Before(Chain(f), n, m)
    {
      ChainKeys(f, m, k);
    }
    hide KeysDiffer;
    EarliestOwns(Chain(f), order, index, n, k);
  }

  ghost predicate IsFiveKey(f: Five, k: string) {
    k == EntityKey(f.a) || k == EntityKey(f.b) || k == EntityKey(f.c) || k == EntityKey(f.x) || k == EntityKey(f.y)
  }

  ghost predicate Owns(index: AliasIndex, k: string, n: string) {
    k in index && index[k] == n
  }

  lemma FiveEntries(f: Five, index: AliasIndex, x: string, y: string)
    requires KeysDiffer(f) && forall k :: k in index ==> IsFiveKey(f, k)
    requires Owns(index, EntityKey(f.a), f.a) && Owns(index, EntityKey(f.b), f.b)
    requires Owns(index, EntityKey(f.c), f.c) && Owns(index, EntityKey(f.x), x)
    requires Owns(index, EntityKey(f.y), y)
    ensures index == map[EntityKey(f.a) := f.a, EntityKey(f.x) := x, EntityKey(f.b) := f.b, EntityKey(f.y) := y,
                         EntityKey(f.c) := f.c]
  {
    hide EntityKey;
  }

  lemma ChainOwners(f: Five, order: seq<string>, index: AliasIndex)
    requires KeysDiffer(f) && InMentionOrder(Chain(f), order) && ServesEarliest(Chain(f), order, index)
    ensures index == map[EntityKey(f.a) := f.a, EntityKey(f.x) := f.a, EntityKey(f.b) := f.b, EntityKey(f.y) := f.b,
                         EntityKey(f.c) := f.c]
  {
    NamesDiffer(f);
    hide Chain, EntityKey, InMentionOrder, IsKeyOf, KeysDiffer, ServesEarliest;
    ChainKeys(f, f.a, EntityKey(f.a));
    ChainKeys(f, f.a, EntityKey(f.x));
    ChainKeys(f, f.b, EntityKey(f.b));
    ChainKeys(f, f.b, EntityKey(f.y));
    ChainKeys(f, f.c, EntityKey(f.c));
    ChainOwner(f, order, index, f.a, EntityKey(f.a));
    ChainOwner(f, order, index, f.a, EntityKey(f.x));
    ChainOwner(f, order, index, f.b, EntityKey(f.b));
    ChainOwner(f, order, index, f.b, EntityKey(f.y));
    ChainOwner(f, order, index, f.c, EntityKey(f.c));
    forall k | k in index
      ensures IsFiveKey(f, k)
    {
      OwnerHasKey(Chain(f), order, index, k);
      ChainKeys(f, index[k], k);
    }
    FiveEntries(f, index, f.a, f.b);
  }

  lemma ChainNames(f: Five)
    requires KeysDiffer(f) && f.a in Chain(f) && f.b in Chain(f) && f.c in Chain(f)
    ensures NamesOf(Chain(f), f.a) == [f.a, f.x] && NamesOf(Chain(f), f.b) == [f.b, f.y]
    ensures NamesOf(Chain(f), f.c) == [f.c, f.x, f.y]
  {
    ChainEntries(f);
    hide Chain, KeysDiffer;
  }

  // The claims call for merging c into a and then into b.
  lemma ChainMerges(f: Five) returns (index: AliasIndex)
    requires KeysDiffer(f)
    ensures forall n :: n in ChainOrder(f) ==> n in Chain(f)
    ensures index == ServeAll(AllClaims(Chain(f), ChainOrder(f)))
    ensures DeferAll(AllClaims(Chain(f), ChainOrder(f))) == [(f.c, f.a), (f.c, f.b)]
    ensures index == map[EntityKey(f.a) := f.a, EntityKey(f.x) := f.a, EntityKey(f.b) := f.b, EntityKey(f.y) := f.b,
                         EntityKey(f.c) := f.c]
  {
    ChainIsOrdered(f);
    ChainEntries(f);
    hide Chain, EntityKey, ServeAll, DeferAll, AllClaims, WellNamed, ServesEarliest;
    var e := Chain(f);
    OrderMembers(e, ChainOrder(f));
    hide InMentionOrder;
    index := ServeAll(AllClaims(e, ChainOrder(f)));
    ServedForRebuild(e, ChainOrder(f));
    ChainOwners(f, ChainOrder(f), index);
    ChainNames(f);
    ChainLateOwners(f, index);
    hide LateOwners, NamesOf;
    ChainLate(f, index);
  }

  lemma ChainLate(f: Five, index: AliasIndex)
    requires forall n :: n in ChainOrder(f) ==> n in Chain(f)
    requires f.a in Chain(f) && LateOwners(index, f.a, NamesOf(Chain(f), f.a)) == []
    requires f.b in Chain(f) && LateOwners(index, f.b, NamesOf(Chain(f), f.b)) == []
    requires f.c in Chain(f) && LateOwners(index, f.c, NamesOf(Chain(f), f.c)) == [(f.c, f.a), (f.c, f.b)]
    ensures LateMerges(Chain(f), index, ChainOrder(f)) == [(f.c, f.a), (f.c, f.b)]
  {
    hide Chain, LateOwners, NamesOf, LateMerges;
    var e := Chain(f);
    NothingLateAtFirst(e, index);
    LateMergesNext(e, index, [], f.a);
    assert [] + [f.a] == [f.a];
    LateMergesNext(e, index, [f.a], f.b);
    assert [f.a] + [f.b] == [f.a, f.b];
    assert LateMerges(e, index, [f.a, f.b]) == [];
    LateMergesNext(e, index, [f.a, f.b], f.c);
    assert [f.a, f.b] + [f.c] == ChainOrder(f);
  }

  lemma ChainLateOwners(f: Five, index: AliasIndex)
    requires KeysDiffer(f)
    requires index == map[EntityKey(f.a) := f.a, EntityKey(f.x) := f.a, EntityKey(f.b) := f.b, EntityKey(f.y) := f.b,
                          EntityKey(f.c) := f.c]
    ensures LateOwners(index, f.a, [f.a, f.x]) == [] && LateOwners(index, f.b, [f.b, f.y]) == []
    ensures LateOwners(index, f.c, [f.c, f.x, f.y]) == [(f.c, f.a), (f.c, f.b)]
  {
    NamesDiffer(f);
    hide EntityKey, LateOwners;
    LateOwnersOf(index, f.a, f.x, f.x);
    LateOwnersOf(index, f.b, f.y, f.y);
    LateOwnersOf(index, f.c, f.x, f.y);
  }

  lemma NothingLateAtFirst(entities: Entities, index: AliasIndex)
    ensures LateMerges(entities, index, []) == []
  {
  }

  // After the first merge c refers to a.
  lemma ChainFolded(f: Five, s: State)
    requires KeysDiffer(f) && WellNamed(Chain(f)) && f.a in Chain(f) && f.c in Chain(f) && s.entities == Chain(f)
    ensures var t := MergeInto(s, f.c, f.a);
      t.entities.Keys == {f.a, f.b} && ResolveIn(t.entities, t.index, f.c) == Some(f.a)
  {
    NamesDiffer(f);
    ChainEntries(f);
    AbsorbedInto(s.entities, f.c, f.a);
    AbsorbedNames(s.entities[f.a], s.entities[f.c]);
    hide KeysDiffer, Chain, AbsorbInto, Absorb, MergedIndex, WellNamed, ResolveIn;
    NameRefers(s.entities, s.index, f.c, f.a, f.c);
  }

  // The rebuild folds c into a, the earliest, and then a into b.
  lemma ChainRebuilt(f: Five, mentions: MentionLists, rels: set<Relation>, order: seq<string>)
    requires KeysDiffer(f) && InMentionOrder(Chain(f), order)
    ensures Rebuilt(Chain(f), mentions, rels, order).entities.Keys == {f.b}
  {
    ChainIsOrdered(f);
    NamesDiffer(f);
    ChainEntries(f);
    hide Chain, KeysDiffer, Before, ServeAll, DeferAll, AllClaims, WellNamed, MergeInto, ResolveIn;
    MentionOrderUnique(Chain(f), order, ChainOrder(f));
    var index := ChainMerges(f);
    hide InMentionOrder;
    var s := State(Chain(f), mentions, index, rels, map[]);
    ResolvesItself(s.entities, s.index, f.c);
    ResolvesItself(s.entities, s.index, f.a);
    StepMerges(s, f.c, f.a, f.c, f.a);
    var t := MergeInto(s, f.c, f.a);
    ChainFolded(f, s);
    ResolvesItself(t.entities, t.index, f.b);
    StepMerges(t, f.c, f.b, f.a, f.b);
    LastMerge(t, f.a, f.b);
    TwoMerges(s, (f.c, f.a), (f.c, f.b));
  }

  lemma LastMerge(s: State, a: string, i: string)
    requires a in s.entities && i in s.entities && a != i && s.entities.Keys == {a, i}
    ensures MergeInto(s, a, i).entities.Keys == {i}
  {
    AbsorbedInto(s.entities, a, i);
    hide AbsorbInto;
  }

  lemma TwoMerges(s: State, p: (string, string), q: (string, string))
    ensures MergeFold(s, [p, q]) == MergeStep(MergeStep(s, p.0, p.1), q.0, q.1)
  {
    hide MergeStep;
    MergeFoldNext(s, [], p);
    MergeFoldNext(s, [p], q);
    assert [] + [p] == [p] && [p] + [q] == [p, q];
  }

  // There are such names.
  lemma FiveExist()
    ensures KeysDiffer(Five("a", "b", "c", "x", "y"))
  {
    forall c: char | c in "abcxy"
      ensures EntityKey([c]) == [c]
    {
      LetterKey(c);
    }
    assert "a" == ['a'] && "b" == ['b'] && "c" == ['c'] && "x" == ['x'] && "y" == ['y'];
    assert 'a' in "abcxy" && 'b' in "abcxy" && 'c' in "abcxy" && 'x' in "abcxy" && 'y' in "abcxy";
    hide EntityKey;
  }

  lemma LetterKey(c: char)
    requires 'a' <= c <= 'z'
    ensures EntityKey([c]) == [c]
  {
    assert [c][1..] == "" && Significant([c]) == [c] && LowerAll([c]) == [c];
  }

  // Rebuilding the alias index of a chain keeps b alone, not a.
  method RebuildChain(g: SimpleEntityGraph, f: Five, now: Time)
    requires KeysDiffer(f) && g.entities == Chain(f)
    requires IsStructured(g.entities, g.mentions, g.graph, g.entityToNode, g.nodeToEntity, map[])
    modifies g
    ensures g.Structured() && g.entities.Keys == {f.b}
  {
    hide KeysDiffer, IsStructured, Chain, InMentionOrder, Rebuilt, Relations;
    StructuredParts(g.entities, g.mentions, g.graph, g.entityToNode, g.nodeToEntity, map[]);
    ghost var mentions, rels := g.mentions, Relations(g.graph);
    ghost var m, order := g.RebuildAliasIndex(now);
    ChainRebuilt(f, mentions, rels, order);
  }

  // Loading a stored chain does.
  method LoadChain(f: Five, now: Time) returns (g: SimpleEntityGraph)
    requires KeysDiffer(f)
    ensures fresh(g) && g.Structured() && g.entities.Keys == {f.b}
  {
    ChainFits(f);
    hide KeysDiffer, IsStructured, Chain, InMentionOrder, Rebuilt, Relations, Fits;
    ghost var m, order;
    g, m, order := Deserialize(Stored(Chain(f), map[], StoredGraph(ChainOrder(f), [])), now);
    ChainRebuilt(f, map[], SetOf([]), order);
  }

  // For one, a, b and c with the aliases x and y.
  method LoadLetters(now: Time) returns (g: SimpleEntityGraph)
    ensures fresh(g) && g.Structured() && g.entities.Keys == {"b"}
  {
    FiveExist();
    g := LoadChain(Five("a", "b", "c", "x", "y"), now);
  }

  // For one, with the same letters.
  method LoadMisnamedLetters(now: Time) returns (g: SimpleEntityGraph)
    ensures fresh(g) && g.Structured() && g.entities.Keys == {"a", "c"}
    ensures "b" in g.entities["a"].aliases && g.Resolve("b") == Some("c") && !g.Valid()
  {
    FiveExist();
    g := LoadMisnamed(Five("a", "b", "c", "x", "y"), now);
    KnownNames(g.entities, g.mentions, g.graph, g.entityToNode, g.nodeToEntity, g.aliasIndex);
    assert g.entities["a"].name == "a";
  }

  lemma ChainFits(f: Five)
    requires KeysDiffer(f)
    ensures Fits(Stored(Chain(f), map[], StoredGraph(ChainOrder(f), [])))
  {
    NamesDiffer(f);
    ChainIsOrdered(f);
    ChainEntries(f);
    hide KeysDiffer, Chain, WellNamed, Before;
  }

  // First mentioned in the order a, b, c, y; b shares the alias x with a, and
  // the names of c and b are aliases of y.
  function Misnamed(f: Five): Entities {
    map[f.a := Entity(f.a, 1, [f.x]), f.b := Entity(f.b, 2, [f.x]), f.c := Entity(f.c, 3, []),
        f.y := Entity(f.y, 4, [f.c, f.b])]
  }

  function MisnamedOrder(f: Five): seq<string> { [f.a, f.b, f.c, f.y] }

  lemma MisnamedEntries(f: Five)
    requires KeysDiffer(f)
    ensures Misnamed(f).Keys == {f.a, f.b, f.c, f.y}
    ensures f.a in Misnamed(f) && f.b in Misnamed(f) && f.c in Misnamed(f) && f.y in Misnamed(f)
    ensures Misnamed(f)[f.a] == Entity(f.a, 1, [f.x]) && Misnamed(f)[f.b] == Entity(f.b, 2, [f.x])
    ensures Misnamed(f)[f.c] == Entity(f.c, 3, []) && Misnamed(f)[f.y] == Entity(f.y, 4, [f.c, f.b])
  {
    NamesDiffer(f);
    hide KeysDiffer;
  }

  lemma MisnamedIsOrdered(f: Five)
    requires KeysDiffer(f)
    ensures InMentionOrder(Misnamed(f), MisnamedOrder(f)) && WellNamed(Misnamed(f))
  {
    MisnamedEntries(f);
    NamesDiffer(f);
    hide KeysDiffer, Misnamed, StrLess;
    assert MisnamedOrder(f)[0] == f.a && MisnamedOrder(f)[1] == f.b;
    assert MisnamedOrder(f)[2] == f.c && MisnamedOrder(f)[3] == f.y;
  }

  lemma MisnamedKeys(f: Five, n: string, k: string)
    requires KeysDiffer(f)
    ensures IsKeyOf(Misnamed(f), n, k) <==>
      (n == f.a && (k == EntityKey(f.a) || k == EntityKey(f.x))) ||
      (n == f.b && (k == EntityKey(f.b) || k == EntityKey(f.x))) ||
      (n == f.c && k == EntityKey(f.c)) ||
      (n == f.y && (k == EntityKey(f.y) || k == EntityKey(f.c) || k == EntityKey(f.b)))
  {
    MisnamedEntries(f);
    hide KeysDiffer, Misnamed, EntityKey;
    if n in Misnamed(f) {
      assert IsNameOf(Misnamed(f)[n], n);
      assert n == f.a || n == f.b ==> IsNameOf(Misnamed(f)[n], f.x);
      assert n == f.y ==> IsNameOf(Misnamed(f)[n], f.c) && IsNameOf(Misnamed(f)[n], f.b);
    }
  }

  lemma MisnamedOwner(f: Five, order: seq<string>, index: AliasIndex, n: string, k: string)
    requires KeysDiffer(f) && InMentionOrder(Misnamed(f), order) && ServesEarliest(Misnamed(f), order, index)
    requires IsKeyOf(Misnamed(f), n, k) && (n != f.a ==> k == EntityKey(n))
    ensures k in index && index[k] == n
  {
    MisnamedEntries(f);
    NamesDiffer(f);
    assert Before(Misnamed(f), f.a, f.b) && Before(Misnamed(f), f.b, f.y) && Before(Misnamed(f), f.c, f.y);
    MisnamedKeys(f, n, k);
    hide Misnamed, EntityKey, InMentionOrder, Before, IsKeyOf;
    forall m | IsKeyOf(Misnamed(f), m, k)
      ensures m == n || Before(Misnamed(f), n, m)
    {
      MisnamedKeys(f, m, k);
    }
    hide KeysDiffer;
    EarliestOwns(Misnamed(f), order, index, n, k);
  }

  lemma MisnamedOwners(f: Five, order: seq<string>, index: AliasIndex)
    requires KeysDiffer(f) && InMentionOrder(Misnamed(f), order) && ServesEarliest(Misnamed(f), order, index)
    ensures index == map[EntityKey(f.a) := f.a, EntityKey(f.x) := f.a, EntityKey(f.b) := f.b, EntityKey(f.y) := f.y,
                         EntityKey(f.c) := f.c]
  {
    NamesDiffer(f);
    hide Misnamed, EntityKey, InMentionOrder, IsKeyOf, KeysDiffer, ServesEarliest;
    MisnamedKeys(f, f.a, EntityKey(f.a));
    MisnamedKeys(f, f.a, EntityKey(f.x));
    MisnamedKeys(f, f.b, EntityKey(f.b));
    MisnamedKeys(f, f.c, EntityKey(f.c));
    MisnamedKeys(f, f.y, EntityKey(f.y));
    MisnamedOwner(f, order, index, f.a, EntityKey(f.a));
    MisnamedOwner(f, order, index, f.a, EntityKey(f.x));
    MisnamedOwner(f, order, index, f.b, EntityKey(f.b));
    MisnamedOwner(f, order, index, f.c, EntityKey(f.c));
    MisnamedOwner(f, order, index, f.y, EntityKey(f.y));
    forall k | k in index
      ensures IsFiveKey(f, k)
    {
      OwnerHasKey(Misnamed(f), order, index, k);
      MisnamedKeys(f, index[k], k);
    }
    FiveEntries(f, index, f.a, f.y);
  }

  lemma MisnamedLateOwners(f: Five, index: AliasIndex)
    requires KeysDiffer(f)
    requires index == map[EntityKey(f.a) := f.a, EntityKey(f.x) := f.a, EntityKey(f.b) := f.b, EntityKey(f.y) := f.y,
                          EntityKey(f.c) := f.c]
    ensures LateOwners(index, f.a, [f.a, f.x]) == [] && LateOwners(index, f.b, [f.b, f.x]) == [(f.b, f.a)]
    ensures LateOwners(index, f.c, [f.c]) == [] && LateOwners(index, f.y, [f.y, f.c, f.b]) == [(f.y, f.c), (f.y, f.b)]
  {
    NamesDiffer(f);
    hide EntityKey, LateOwners;
    LateOwnersOf(index, f.a, f.x, f.x);
    LateOwnersOf(index, f.b, f.x, f.x);
    LateOwnersOf(index, f.c, f.c, f.c);
    LateOwnersOf(index, f.y, f.c, f.b);
  }

  lemma MisnamedNames(f: Five)
    requires KeysDiffer(f) && f.a in Misnamed(f) && f.b in Misnamed(f) && f.c in Misnamed(f) && f.y in Misnamed(f)
    ensures NamesOf(Misnamed(f), f.a) == [f.a, f.x] && NamesOf(Misnamed(f), f.b) == [f.b, f.x]
    ensures NamesOf(Misnamed(f), f.c) == [f.c] && NamesOf(Misnamed(f), f.y) == [f.y, f.c, f.b]
  {
    MisnamedEntries(f);
    hide Misnamed, KeysDiffer;
  }

  lemma MisnamedLate(f: Five, index: AliasIndex)
    requires forall n :: n in MisnamedOrder(f) ==> n in Misnamed(f)
    requires f.a in Misnamed(f) && LateOwners(index, f.a, NamesOf(Misnamed(f), f.a)) == []
    requires f.b in Misnamed(f) && LateOwners(index, f.b, NamesOf(Misnamed(f), f.b)) == [(f.b, f.a)]
    requires f.c in Misnamed(f) && LateOwners(index, f.c, NamesOf(Misnamed(f), f.c)) == []
    requires f.y in Misnamed(f) && LateOwners(index, f.y, NamesOf(Misnamed(f), f.y)) == [(f.y, f.c), (f.y, f.b)]
    ensures LateMerges(Misnamed(f), index, MisnamedOrder(f)) == [(f.b, f.a), (f.y, f.c), (f.y, f.b)]
  {
    hide Misnamed, LateOwners, NamesOf, LateMerges;
    var e := Misnamed(f);
    NothingLateAtFirst(e, index);
    LateMergesNext(e, index, [], f.a);
    assert [] + [f.a] == [f.a];
    LateMergesNext(e, index, [f.a], f.b);
    assert [f.a] + [f.b] == [f.a, f.b];
    LateMergesNext(e, index, [f.a, f.b], f.c);
    assert [f.a, f.b] + [f.c] == [f.a, f.b, f.c];
    assert LateMerges(e, index, [f.a, f.b, f.c]) == [(f.b, f.a)];
    LateMergesNext(e, index, [f.a, f.b, f.c], f.y);
    assert [f.a, f.b, f.c] + [f.y] == MisnamedOrder(f);
  }

  // First b goes into a, so a bears the name b.
  lemma MisnamedFirst(f: Five, s: State)
    requires KeysDiffer(f) && WellNamed(Misnamed(f)) && s.entities == Misnamed(f)
    requires f.a in s.entities && f.b in s.entities
    ensures var t := MergeInto(s, f.b, f.a);
      && t.entities.Keys == {f.a, f.c, f.y} && IsNameOf(t.entities[f.a], f.b) && WellNamed(t.entities)
      && t.entities[f.c] == Entity(f.c, 3, []) && t.entities[f.y] == Entity(f.y, 4, [f.c, f.b])
  {
    NamesDiffer(f);
    MisnamedEntries(f);
    var e := Misnamed(f);
    AbsorbedInto(e, f.b, f.a);
    AbsorbedNames(e[f.a], e[f.b]);
    AbsorbedWellNamed(e, f.b, f.a);
    hide KeysDiffer, Misnamed, AbsorbInto, Absorb, MergedIndex, WellNamed;
    assert IsNameOf(e[f.b], f.b);
  }

  // Then y goes into c, and with it the keys of y and of b.
  lemma MisnamedSecond(f: Five, s: State)
    requires KeysDiffer(f) && s.entities.Keys == {f.a, f.c, f.y} && WellNamed(s.entities)
    requires s.entities[f.c] == Entity(f.c, 3, []) && s.entities[f.y] == Entity(f.y, 4, [f.c, f.b])
    ensures f.y in s.entities && f.c in s.entities
    ensures var t := MergeInto(s, f.y, f.c);
      && t.entities.Keys == {f.a, f.c} && t.entities[f.a] == s.entities[f.a]
      && ResolveIn(t.entities, t.index, f.y) == Some(f.c) && ResolveIn(t.entities, t.index, f.b) == Some(f.c)
  {
    NamesDiffer(f);
    AbsorbedInto(s.entities, f.y, f.c);
    AbsorbedNames(s.entities[f.c], s.entities[f.y]);
    hide KeysDiffer, EntityKey, AbsorbInto, Absorb, MergedIndex, WellNamed, ResolveIn;
    NameRefers(s.entities, s.index, f.y, f.c, f.y);
    NameRefers(s.entities, s.index, f.y, f.c, f.b);
  }

  // After a merge into i all its names that are no entity's refer to i.
  lemma NameRefers(entities: Entities, index: AliasIndex, a: string, i: string, x: string)
    requires WellNamed(entities) && a in entities && i in entities && a != i
    requires IsNameOf(Absorb(entities[i], entities[a]), x) && (x !in entities || x == a)
    ensures ResolveIn(AbsorbInto(entities, a, i), MergedIndex(entities, index, a, i), x) == Some(i)
  {
    AbsorbedInto(entities, a, i);
    MergedIndexRedirects(entities, index, a, i);
    hide EntityKey, AbsorbInto, Absorb, MergedIndex, WellNamed, IsNameOf;
  }

  // In the end the entity a is called b, but the name b refers to c.
  lemma MisnamedRebuilt(f: Five, mentions: MentionLists, rels: set<Relation>, order: seq<string>)
    requires KeysDiffer(f) && InMentionOrder(Misnamed(f), order)
    ensures var s := Rebuilt(Misnamed(f), mentions, rels, order);
      && s.entities.Keys == {f.a, f.c} && IsNameOf(s.entities[f.a], f.b)
      && ResolveIn(s.entities, s.index, f.b) == Some(f.c)
  {
    MisnamedIsOrdered(f);
    NamesDiffer(f);
    MisnamedEntries(f);
    hide Misnamed, KeysDiffer, Before, ServeAll, DeferAll, AllClaims, WellNamed, MergeInto, ResolveIn, ServesEarliest,
      EntityKey;
    var e := Misnamed(f);
    OrderMembers(e, order);
    MentionOrderUnique(e, order, MisnamedOrder(f));
    ServedForRebuild(e, order);
    hide InMentionOrder;
    var index := ServeAll(AllClaims(e, order));
    assert index == map[EntityKey(f.a) := f.a, EntityKey(f.x) := f.a, EntityKey(f.b) := f.b, EntityKey(f.y) := f.y,
                        EntityKey(f.c) := f.c] by {
      MisnamedIsOrdered(f);
      MisnamedOwners(f, order, index);
    }
    MisnamedNames(f);
    MisnamedLateOwners(f, index);
    hide LateOwners, NamesOf;
    MisnamedLate(f, index);
    MisnamedFold(f, State(e, mentions, index, rels, map[]));
  }

  lemma MisnamedTwo(f: Five, s: State) returns (u: State)
    requires KeysDiffer(f) && s.entities == Misnamed(f) && WellNamed(Misnamed(f))
    ensures u == MergeFold(s, [(f.b, f.a), (f.y, f.c)]) && u.entities.Keys == {f.a, f.c}
    ensures IsNameOf(u.entities[f.a], f.b)
    ensures ResolveIn(u.entities, u.index, f.b) == Some(f.c) == ResolveIn(u.entities, u.index, f.y)
  {
    NamesDiffer(f);
    MisnamedEntries(f);
    hide Misnamed, KeysDiffer, WellNamed, MergeInto, ResolveIn, MergeFold, MergeStep, IsNameOf;
    ResolvesItself(s.entities, s.index, f.b);
    ResolvesItself(s.entities, s.index, f.a);
    StepMerges(s, f.b, f.a, f.b, f.a);
    MisnamedFirst(f, s);
    var t := MergeInto(s, f.b, f.a);
    ResolvesItself(t.entities, t.index, f.y);
    ResolvesItself(t.entities, t.index, f.c);
    StepMerges(t, f.y, f.c, f.y, f.c);
    MisnamedSecond(f, t);
    u := MergeInto(t, f.y, f.c);
    TwoMerges(s, (f.b, f.a), (f.y, f.c));
  }

  lemma MisnamedFold(f: Five, s: State)
    requires KeysDiffer(f) && s.entities == Misnamed(f) && WellNamed(Misnamed(f))
    ensures var t := MergeFold(s, [(f.b, f.a), (f.y, f.c), (f.y, f.b)]);
      && t.entities.Keys == {f.a, f.c} && IsNameOf(t.entities[f.a], f.b)
      && ResolveIn(t.entities, t.index, f.b) == Some(f.c)
  {
    hide Misnamed, KeysDiffer, WellNamed, ResolveIn, MergeFold, MergeStep, IsNameOf;
    var u := MisnamedTwo(f, s);
    StepIsIdle(u, f.y, f.b);
    MergeFoldNext(s, [(f.b, f.a), (f.y, f.c)], (f.y, f.b));
    assert [(f.b, f.a), (f.y, f.c)] + [(f.y, f.b)] == [(f.b, f.a), (f.y, f.c), (f.y, f.b)];
  }

  // Loading such entities leaves a name to an entity that is not called that.
  method LoadMisnamed(f: Five, now: Time) returns (g: SimpleEntityGraph)
    requires KeysDiffer(f)
    ensures fresh(g) && g.Structured() && g.entities.Keys == {f.a, f.c}
    ensures IsNameOf(g.entities[f.a], f.b) && g.Resolve(f.b) == Some(f.c) && !g.Valid()
  {
    MisnamedFits(f);
    NamesDiffer(f);
    hide KeysDiffer, IsStructured, Misnamed, InMentionOrder, Rebuilt, Relations, Fits, ResolveIn, AliasExact, IsNameOf;
    ghost var m, order;
    g, m, order := Deserialize(Stored(Misnamed(f), map[], StoredGraph(MisnamedOrder(f), [])), now);
    MisnamedRebuilt(f, map[], SetOf([]), order);
    if g.Valid() {
      KnownNames(g.entities, g.mentions, g.graph, g.entityToNode, g.nodeToEntity, g.aliasIndex);
      NameResolves(g.entities, g.aliasIndex, f.a, f.b);
      assert false;
    }
  }

  lemma MisnamedNodes(f: Five)
    requires KeysDiffer(f)
    ensures Distinct(MisnamedOrder(f)) && AreNodes(MisnamedOrder(f), Misnamed(f))
  {
    NamesDiffer(f);
    MisnamedEntries(f);
    hide KeysDiffer, Misnamed;
  }

  lemma MisnamedFits(f: Five)
    requires KeysDiffer(f)
    ensures Fits(Stored(Misnamed(f), map[], StoredGraph(MisnamedOrder(f), [])))
    ensures SetOf(ReadEdges(StoredGraph(MisnamedOrder(f), []))) == SetOf([])
  {
    MisnamedNodes(f);
    MisnamedIsOrdered(f);
    hide KeysDiffer, Misnamed, WellNamed, Before, InMentionOrder, Distinct, AreNodes, MisnamedOrder;
  }
}
