// Merging entities one after another: the classes they form, and what each
// remaining entity stands for.
module Classes {
  import opened Types
  import opened Sorting
  import opened DiGraph
  import opened Names
  import opened Quotient
  import opened Mentions
  import opened GraphState

  // Which entity each merged-away entity went to.
  type Reps = map<string, string>

  function Rep(m: Reps, x: string): string { if x in m then m[x] else x }

  // All that stood for a now stand for i.
  function Redirect(m: Reps, a: string, i: string): Reps {
    (map x | x in m :: if m[x] == a then i else m[x])[a := i]
  }

  ghost predicate CanRedirect(m: Reps, a: string, i: string) {
    a !in m && i !in m && a != i
  }

  lemma RedirectedRep(m: Reps, a: string, i: string, x: string)
    requires CanRedirect(m, a, i)
    ensures Rep(Redirect(m, a, i), x) == RenameEnd(Rep(m, x), a, i)
  {
  }

  // A relation's image under the classes; relations inside a class are
  // dropped, except a representative's own self loops.
  ghost predicate HasImage(rels: set<Relation>, m: Reps, from: string, to: string, kind: RelationType) {
    exists s :: s in rels && MapsTo(s, m, from, to, kind)
  }

  predicate MapsTo(s: Relation, m: Reps, from: string, to: string, kind: RelationType) {
    Rep(m, s.from) == from && Rep(m, s.to) == to && s.kind == kind && (from != to || (s.from == from && s.to == to))
  }

  // rels is the quotient of the original relations by the classes.
  ghost predicate IsQuotient(original: set<Relation>, m: Reps, rels: set<Relation>) {
    && OnePerTriple(rels)
    && forall from, to, kind :: HasTriple(rels, from, to, kind) <==> HasImage(original, m, from, to, kind)
  }

  // One more merge makes the quotient by one more identification.
  lemma QuotientStep(original: set<Relation>, m: Reps, rels: set<Relation>, a: string, i: string)
    requires IsQuotient(original, m, rels) && CanRedirect(m, a, i)
    ensures IsQuotient(original, Redirect(m, a, i), Merged(rels, a, i))
  {
    MergedTriples(rels, a, i);
    hide Merged, CanRedirect, OnePerTriple, Redirect;
    forall from, to, kind
      ensures HasTriple(Merged(rels, a, i), from, to, kind) <==> HasImage(original, Redirect(m, a, i), from, to, kind)
    {
      if ComesFrom(rels, a, i, from, to, kind) {
        ImageOfMerged(original, m, rels, a, i, from, to, kind);
      }
      if HasImage(original, Redirect(m, a, i), from, to, kind) {
        MergedHasImage(original, m, rels, a, i, from, to, kind);
      }
    }
  }

  lemma ImageOfMerged(original: set<Relation>, m: Reps, rels: set<Relation>, a: string, i: string,
                      from: string, to: string, kind: RelationType)
    requires IsQuotient(original, m, rels) && CanRedirect(m, a, i) && ComesFrom(rels, a, i, from, to, kind)
    ensures HasImage(original, Redirect(m, a, i), from, to, kind)
  {
    hide Redirect;
    var r :| r in rels && Survives(r, a, i) && IsImage(r, a, i, from, to, kind);
    assert HasTriple(rels, r.from, r.to, r.kind);
    var s :| s in original && MapsTo(s, m, r.from, r.to, r.kind);
    RedirectedRep(m, a, i, s.from);
    RedirectedRep(m, a, i, s.to);
    assert MapsTo(s, Redirect(m, a, i), from, to, kind);
  }

  lemma MergedHasImage(original: set<Relation>, m: Reps, rels: set<Relation>, a: string, i: string,
                       from: string, to: string, kind: RelationType)
    requires IsQuotient(original, m, rels) && CanRedirect(m, a, i)
    requires HasImage(original, Redirect(m, a, i), from, to, kind)
    ensures ComesFrom(rels, a, i, from, to, kind)
  {
    hide Redirect;
    var s :| s in original && MapsTo(s, Redirect(m, a, i), from, to, kind);
    RedirectedRep(m, a, i, s.from);
    RedirectedRep(m, a, i, s.to);
    assert i !in m;
    assert Rep(m, s.from) == Rep(m, s.to) ==> s.from == Rep(m, s.from) && s.to == Rep(m, s.to);
    assert MapsTo(s, m, Rep(m, s.from), Rep(m, s.to), kind);
    assert HasTriple(rels, Rep(m, s.from), Rep(m, s.to), kind);
    var r :| r in rels && r.from == Rep(m, s.from) && r.to == Rep(m, s.to) && r.kind == kind;
    assert Survives(r, a, i) && IsImage(r, a, i, from, to, kind);
  }

  lemma InitialQuotient(rels: set<Relation>)
    requires OnePerTriple(rels)
    ensures IsQuotient(rels, map[], rels)
  {
    forall from, to, kind
      ensures HasTriple(rels, from, to, kind) <==> HasImage(rels, map[], from, to, kind)
    {
      if HasTriple(rels, from, to, kind) {
        var r :| r in rels && r.from == from && r.to == to && r.kind == kind;
        assert MapsTo(r, map[], from, to, kind);
      }
    }
  }

  // The summed mention counts of some entities.
  ghost function SumCounts(entities: Entities, s: set<string>): nat
    requires forall x :: x in s ==> x in entities
  {
    if s == {} then 0
    else var x :| x in s; entities[x].mentionCount + SumCounts(entities, s - {x})
  }

  lemma {:induction false} SumCountsSplit(entities: Entities, s: set<string>, x: string)
    requires x in s && forall y :: y in s ==> y in entities
    ensures SumCounts(entities, s) == entities[x].mentionCount + SumCounts(entities, s - {x})
    decreases s
  {
    var y :| y in s && SumCounts(entities, s) == entities[y].mentionCount + SumCounts(entities, s - {y});
    if y != x {
      SumCountsSplit(entities, s - {y}, x);
      SumCountsSplit(entities, s - {x}, y);
      assert s - {y} - {x} == s - {x} - {y};
    }
  }

  lemma {:induction false} SumCountsUnion(entities: Entities, s: set<string>, t: set<string>)
    requires s !! t && forall y :: y in s + t ==> y in entities
    ensures SumCounts(entities, s + t) == SumCounts(entities, s) + SumCounts(entities, t)
    decreases t
  {
    if t == {} {
      assert s + t == s;
    } else {
      var x :| x in t;
      SumCountsSplit(entities, s + t, x);
      SumCountsSplit(entities, t, x);
      assert (s + t) - {x} == s + (t - {x});
      SumCountsUnion(entities, s, t - {x});
    }
  }

  lemma {:induction false} SumCountsSame(e: Entities, f: Entities, s: set<string>)
    requires forall y :: y in s ==> y in e && y in f && e[y].mentionCount == f[y].mentionCount
    ensures SumCounts(e, s) == SumCounts(f, s)
    decreases s
  {
    if s != {} {
      var x :| x in s;
      SumCountsSplit(e, s, x);
      SumCountsSplit(f, s, x);
      SumCountsSame(e, f, s - {x});
    }
  }

  // A merge neither loses nor invents mentions.
  lemma MergeConservesMentions(entities: Entities, a: string, i: string)
    requires a in entities && i in entities && a != i
    ensures SumCounts(AbsorbInto(entities, a, i), AbsorbInto(entities, a, i).Keys) == SumCounts(entities, entities.Keys)
  {
    var merged := AbsorbInto(entities, a, i);
    var others := entities.Keys - {a, i};
    SumCountsSplit(entities, entities.Keys, a);
    SumCountsSplit(entities, entities.Keys - {a}, i);
    SumCountsSplit(merged, merged.Keys, i);
    assert entities.Keys - {a} - {i} == others && merged.Keys - {i} == others;
    SumCountsSame(entities, merged, others);
  }

  // Recording a mention adds one to the total, whether or not the entity was
  // known.
  lemma RecordAddsOne(entities: Entities, index: AliasIndex, written: string, kind: EntityType, at: Time,
                      description: string)
    ensures var after := Recorded(entities, index, written, kind, at, description).0;
      SumCounts(after, after.Keys) == SumCounts(entities, entities.Keys) + 1
  {
    hide Canonical, EnsureKey;
    var after := Recorded(entities, index, written, kind, at, description).0;
    var c := Canonical(entities, index, written);
    SumCountsSplit(after, after.Keys, c);
    if c in entities {
      SumCountsSplit(entities, entities.Keys, c);
    }
    assert after.Keys - {c} == entities.Keys - {c};
    SumCountsSame(after, entities, entities.Keys - {c});
    assert c !in entities ==> entities.Keys - {c} == entities.Keys;
  }

  lemma {:induction false} RecordAllCounts(entities: Entities, index: AliasIndex, created: seq<(string, EntityType)>,
                                           at: Time, description: string)
    ensures var after := RecordAll(entities, index, created, at, description).0;
      SumCounts(after, after.Keys) == SumCounts(entities, entities.Keys) + |created|
  {
    hide Recorded;
    if created != [] {
      RecordAllCounts(entities, index, created[..|created| - 1], at, description);
      var before := RecordAll(entities, index, created[..|created| - 1], at, description);
      RecordAddsOne(before.0, before.1, created[|created| - 1].0, created[|created| - 1].1, at, description);
    }
  }

  ghost function ClassOf(entities: Entities, m: Reps, n: string): set<string> {
    set x | x in entities && Rep(m, x) == n
  }

  // x names a member of n's class.
  ghost predicate NamesClass(original: Entities, m: Reps, n: string, x: string) {
    exists y :: y in ClassOf(original, m, n) && IsNameOf(original[y], x)
  }

  // e counts for all members of n's class and bears all their names.
  ghost predicate StandsFor(original: Entities, m: Reps, n: string, e: EntityData) {
    && e.mentionCount == SumCounts(original, ClassOf(original, m, n))
    && forall x :: IsNameOf(e, x) <==> NamesClass(original, m, n, x)
  }

  // One entity per class, standing for all its members.
  ghost predicate MergedClasses(original: Entities, m: Reps, entities: Entities) {
    && m.Keys <= original.Keys && entities.Keys == original.Keys - m.Keys && RepsAmong(original, m, entities.Keys)
    && WellNamed(entities) && AllStand(original, m, entities)
  }

  ghost predicate RepsAmong(original: Entities, m: Reps, remaining: set<string>) {
    forall x :: x in original ==> Rep(m, x) in remaining
  }

  ghost predicate AllStand(original: Entities, m: Reps, entities: Entities) {
    forall n :: n in entities ==> StandsFor(original, m, n, entities[n])
  }

  lemma ClassStep(original: Entities, m: Reps, a: string, i: string, n: string)
    requires CanRedirect(m, a, i) && n != a
    ensures ClassOf(original, Redirect(m, a, i), n) ==
      if n == i then ClassOf(original, m, i) + ClassOf(original, m, a) else ClassOf(original, m, n)
    ensures ClassOf(original, m, a) !! ClassOf(original, m, i)
  {
    forall x
      ensures Rep(Redirect(m, a, i), x) == RenameEnd(Rep(m, x), a, i)
    {
      RedirectedRep(m, a, i, x);
    }
    hide Rep, Redirect;
  }

  lemma AbsorbedStandsFor(original: Entities, m: Reps, a: string, i: string, target: EntityData, gone: EntityData)
    requires CanRedirect(m, a, i) && target.name == i && i !in target.aliases && Distinct(target.aliases)
    requires StandsFor(original, m, i, target) && StandsFor(original, m, a, gone)
    ensures StandsFor(original, Redirect(m, a, i), i, Absorb(target, gone))
  {
    AbsorbTakesOver(target, gone);
    ClassStep(original, m, a, i, i);
    hide ClassOf, IsNameOf, SumCounts, Absorb, Redirect, IsPartOf;
    ClassKnown(original, m, a);
    ClassKnown(original, m, i);
    SumCountsUnion(original, ClassOf(original, m, i), ClassOf(original, m, a));
    forall x
      ensures NamesClass(original, Redirect(m, a, i), i, x) <==>
        NamesClass(original, m, i, x) || NamesClass(original, m, a, x)
    {
    }
  }

  lemma ClassKnown(original: Entities, m: Reps, n: string)
    ensures forall x :: x in ClassOf(original, m, n) ==> x in original
  {
  }

  lemma TargetStandsFor(original: Entities, m: Reps, entities: Entities, a: string, i: string)
    requires WellNamed(entities) && CanRedirect(m, a, i) && a in entities && i in entities
    requires StandsFor(original, m, i, entities[i]) && StandsFor(original, m, a, entities[a])
    ensures StandsFor(original, Redirect(m, a, i), i, Absorb(entities[i], entities[a]))
  {
    hide StandsFor, Redirect, Absorb;
    AbsorbedStandsFor(original, m, a, i, entities[i], entities[a]);
  }

  lemma RepsRemain(original: Entities, m: Reps, remaining: set<string>, a: string, i: string)
    requires CanRedirect(m, a, i) && i in remaining && RepsAmong(original, m, remaining)
    ensures RepsAmong(original, Redirect(m, a, i), remaining - {a})
  {
    hide Redirect, Rep;
    forall x | x in original
      ensures Rep(Redirect(m, a, i), x) in remaining - {a}
    {
      RedirectedRep(m, a, i, x);
    }
  }

  lemma AllStandStep(original: Entities, m: Reps, entities: Entities, merged: Entities, a: string, i: string)
    requires AllStand(original, m, entities) && WellNamed(entities)
    requires CanRedirect(m, a, i) && a in entities && i in entities
    requires i in merged && merged[i] == Absorb(entities[i], entities[a])
    requires forall n :: n in merged && n != i ==> n != a && n in entities && merged[n] == entities[n]
    ensures AllStand(original, Redirect(m, a, i), merged)
  {
    TargetStandsFor(original, m, entities, a, i);
    hide Absorb, StandsFor, Redirect, Rep, WellNamed;
    forall n | n in merged && n != i
      ensures StandsFor(original, Redirect(m, a, i), n, entities[n])
    {
      OtherStandsFor(original, m, a, i, n, entities[n]);
    }
  }

  lemma MergedClassesStep(original: Entities, m: Reps, entities: Entities, a: string, i: string)
    requires MergedClasses(original, m, entities) && CanRedirect(m, a, i) && a in entities && i in entities
    ensures MergedClasses(original, Redirect(m, a, i), AbsorbInto(entities, a, i))
  {
    hide Absorb, AllStand, Redirect, AbsorbInto, RepsAmong, WellNamed;
    KeysLessOne(original.Keys, m.Keys, entities.Keys, a);
    AbsorbedInto(entities, a, i);
    AllStandStep(original, m, entities, AbsorbInto(entities, a, i), a, i);
    AbsorbedWellNamed(entities, a, i);
    RedirectedKeys(m, a, i);
    RepsRemain(original, m, entities.Keys, a, i);
  }

  lemma KeysLessOne(all: set<string>, gone: set<string>, rest: set<string>, a: string)
    requires gone <= all && rest == all - gone && a in rest
    ensures gone + {a} <= all && rest - {a} == all - (gone + {a})
  {
  }

  lemma RedirectedKeys(m: Reps, a: string, i: string)
    ensures Redirect(m, a, i).Keys == m.Keys + {a}
  {
  }

  lemma OtherStandsFor(original: Entities, m: Reps, a: string, i: string, n: string, e: EntityData)
    requires CanRedirect(m, a, i) && n != a && n != i && StandsFor(original, m, n, e)
    ensures StandsFor(original, Redirect(m, a, i), n, e)
  {
    ClassStep(original, m, a, i, n);
    hide ClassOf, Redirect;
  }

  lemma MergeTakesOver(entities: Entities, a: string, i: string)
    requires WellNamed(entities) && a in entities && i in entities && a != i
    ensures var merged := AbsorbInto(entities, a, i);
      && merged.Keys == entities.Keys - {a} && TakesOver(merged[i], entities[i], entities[a])
      && (forall n :: n in merged && n != i ==> merged[n] == entities[n])
  {
    AbsorbTakesOver(entities[i], entities[a]);
    AbsorbedInto(entities, a, i);
    hide TakesOver, Absorb, AbsorbInto;
  }

  lemma AbsorbedWellNamed(entities: Entities, a: string, i: string)
    requires WellNamed(entities) && a in entities && i in entities
    ensures WellNamed(AbsorbInto(entities, a, i))
  {
    AbsorbedNames(entities[i], entities[a]);
  }

  lemma StandsForItself(entities: Entities, n: string)
    requires WellNamed(entities) && n in entities
    ensures StandsFor(entities, map[], n, entities[n])
  {
    assert ClassOf(entities, map[], n) == {n};
    SumCountsSplit(entities, {n}, n);
    assert {n} - {n} == {} && n in {n};
    hide IsNameOf, ClassOf;
    assert forall x :: NamesClass(entities, map[], n, x) <==> IsNameOf(entities[n], x);
  }

  lemma InitialClasses(entities: Entities)
    requires WellNamed(entities)
    ensures MergedClasses(entities, map[], entities)
  {
    hide StandsFor, WellNamed;
    forall n | n in entities {
      StandsForItself(entities, n);
    }
  }

  // e was mentioned first and last when some of the entities were first and
  // last, and is as important as the most important of them.
  ghost predicate Spans(original: Entities, s: set<string>, e: EntityData) {
    && (forall x :: x in s ==> x in original)
    && (exists x :: x in s && original[x].firstMentioned == e.firstMentioned)
    && (exists x :: x in s && original[x].lastMentioned == e.lastMentioned)
    && (exists x :: x in s && original[x].importance == e.importance)
    && (forall x :: x in s ==> e.firstMentioned <= original[x].firstMentioned)
    && (forall x :: x in s ==> original[x].lastMentioned <= e.lastMentioned)
    && (forall x :: x in s ==> original[x].importance <= e.importance)
  }

  // e is described as some of the entities is, if any is described.
  ghost predicate DescribedAsOne(original: Entities, s: set<string>, e: EntityData)
    requires forall x :: x in s ==> x in original
  {
    && (exists x :: x in s && original[x].description == e.description)
    && (e.description.None? ==> forall x :: x in s ==> original[x].description.None?)
  }

  // e has n's kind, and its description unless it had none.
  ghost predicate KeepsOwn(original: Entities, n: string, e: EntityData) {
    && n in original && e.kind == original[n].kind
    && (original[n].description.Some? ==> e.description == original[n].description)
  }

  lemma SpansBoth(original: Entities, s: set<string>, t: set<string>, target: EntityData, gone: EntityData,
                  e: EntityData)
    requires Spans(original, s, target) && Spans(original, t, gone) && TakesOver(e, target, gone)
    ensures Spans(original, s + t, e)
  {
    hide IsPartOf, IsNameOf;
    var first :| first in s + t && original[first].firstMentioned == e.firstMentioned;
    var last :| last in s + t && original[last].lastMentioned == e.lastMentioned;
    var top :| top in s + t && original[top].importance == e.importance;
  }

  lemma DescribedAsEither(original: Entities, s: set<string>, t: set<string>, target: EntityData, gone: EntityData,
                          e: EntityData)
    requires forall x :: x in s + t ==> x in original
    requires DescribedAsOne(original, s, target) && DescribedAsOne(original, t, gone) && TakesOver(e, target, gone)
    ensures DescribedAsOne(original, s + t, e)
  {
    hide IsPartOf, IsNameOf;
    var x :| x in s + t && original[x].description == e.description;
  }

  // Each remaining entity has its own kind and description, and the times and
  // importance of its class.
  ghost predicate AllSpan(original: Entities, m: Reps, entities: Entities) {
    forall n :: n in entities ==> SpansClass(original, m, n, entities[n])
  }

  ghost predicate SpansClass(original: Entities, m: Reps, n: string, e: EntityData) {
    && KeepsOwn(original, n, e)
    && Spans(original, ClassOf(original, m, n), e) && DescribedAsOne(original, ClassOf(original, m, n), e)
  }

  lemma AbsorbedSpans(original: Entities, m: Reps, a: string, i: string, target: EntityData, gone: EntityData,
                      e: EntityData)
    requires CanRedirect(m, a, i) && SpansClass(original, m, i, target) && SpansClass(original, m, a, gone)
    requires TakesOver(e, target, gone)
    ensures SpansClass(original, Redirect(m, a, i), i, e)
  {
    ClassStep(original, m, a, i, i);
    hide ClassOf, IsNameOf, Redirect, Spans, DescribedAsOne, IsPartOf;
    ClassKnown(original, m, a);
    ClassKnown(original, m, i);
    SpansBoth(original, ClassOf(original, m, i), ClassOf(original, m, a), target, gone, e);
    DescribedAsEither(original, ClassOf(original, m, i), ClassOf(original, m, a), target, gone, e);
  }

  lemma OtherSpans(original: Entities, m: Reps, a: string, i: string, n: string, e: EntityData)
    requires CanRedirect(m, a, i) && n != a && n != i && SpansClass(original, m, n, e)
    ensures SpansClass(original, Redirect(m, a, i), n, e)
  {
    ClassStep(original, m, a, i, n);
    hide ClassOf, Redirect, Spans, DescribedAsOne, KeepsOwn;
  }

  // Merging keeps the earliest and latest mention and the highest importance
  // of each class.
  lemma AllSpanStep(original: Entities, m: Reps, entities: Entities, a: string, i: string)
    requires AllSpan(original, m, entities) && WellNamed(entities)
    requires CanRedirect(m, a, i) && a in entities && i in entities
    ensures AllSpan(original, Redirect(m, a, i), AbsorbInto(entities, a, i))
  {
    MergeTakesOver(entities, a, i);
    hide AbsorbInto, SpansClass, Redirect, WellNamed, TakesOver;
    var merged := AbsorbInto(entities, a, i);
    forall n | n in merged
      ensures SpansClass(original, Redirect(m, a, i), n, merged[n])
    {
      if n == i {
        AbsorbedSpans(original, m, a, i, entities[i], entities[a], merged[i]);
      } else {
        OtherSpans(original, m, a, i, n, merged[n]);
      }
    }
  }

  lemma SpansItself(entities: Entities, n: string)
    requires n in entities
    ensures SpansClass(entities, map[], n, entities[n])
  {
    assert ClassOf(entities, map[], n) == {n} && n in {n};
    hide ClassOf;
  }

  lemma InitialSpans(entities: Entities)
    ensures AllSpan(entities, map[], entities)
  {
    hide SpansClass;
    forall n | n in entities {
      SpansItself(entities, n);
    }
  }

  // A record mentions a member of n's class.
  ghost predicate MentionsClass(original: MentionLists, m: Reps, n: string, id: Uuid) {
    exists y :: y in original && Rep(m, y) == n && id in original[y]
  }

  // Each remaining entity is linked to the records of its class, once each.
  ghost predicate MergedMentions(original: MentionLists, m: Reps, mentions: MentionLists) {
    && (forall n :: n in mentions ==> n !in m && Distinct(mentions[n]))
    && (forall n, id :: n !in m ==> (id in ListOf(mentions, n) <==> MentionsClass(original, m, n, id)))
  }

  lemma MergedMentionsStep(original: MentionLists, m: Reps, mentions: MentionLists, a: string, i: string)
    requires MergedMentions(original, m, mentions) && CanRedirect(m, a, i)
    ensures MergedMentions(original, Redirect(m, a, i), MoveMentions(mentions, a, i))
  {
    hide Redirect, MoveMentions, Rep, MentionsClass;
    var after := MoveMentions(mentions, a, i);
    MovedIsUnion(mentions, a, i);
    MovedKeys(mentions, a, i);
    RedirectedKeys(m, a, i);
    forall n, id | n !in m && n != a
      ensures id in ListOf(after, n) <==> MentionsClass(original, Redirect(m, a, i), n, id)
    {
      MentionsStep(original, m, a, i, n, id);
    }
  }

  lemma MentionsStep(original: MentionLists, m: Reps, a: string, i: string, n: string, id: Uuid)
    requires CanRedirect(m, a, i) && n != a
    ensures MentionsClass(original, Redirect(m, a, i), n, id) <==>
      MentionsClass(original, m, n, id) || (n == i && MentionsClass(original, m, a, id))
  {
    forall x
      ensures Rep(Redirect(m, a, i), x) == RenameEnd(Rep(m, x), a, i)
    {
      RedirectedRep(m, a, i, x);
    }
    hide Redirect, Rep;
  }

  lemma MovedKeys(m: MentionLists, a: string, i: string)
    ensures forall n :: n in MoveMentions(m, a, i) ==> n == i || (n in m && n != a && MoveMentions(m, a, i)[n] == m[n])
  {
  }

  lemma InitialMentions(mentions: MentionLists)
    requires forall n :: n in mentions ==> Distinct(mentions[n])
    ensures MergedMentions(mentions, map[], mentions)
  {
    forall n, id
      ensures id in ListOf(mentions, n) <==> MentionsClass(mentions, map[], n, id)
    {
      if MentionsClass(mentions, map[], n, id) {
        var y :| y in mentions && Rep(map[], y) == n && id in mentions[y];
      }
      if id in ListOf(mentions, n) {
        assert n in mentions && Rep(map[], n) == n && id in mentions[n];
      }
    }
  }
}
