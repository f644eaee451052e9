// Rebuilding the alias index as a whole: what the merges it calls for make of
// the stored entities, and when that is what the rebuild is meant to do.
module Merging {
  import opened Types
  import opened DiGraph
  import opened Names
  import opened Quotient
  import opened Mentions
  import opened GraphState
  import opened Rebuild
  import opened Roots
  import opened Classes

  // What merging changes, and where the merged entities went.
  datatype State = State(entities: Entities, mentions: MentionLists, index: AliasIndex, rels: set<Relation>, reps: Reps)

  ghost function MergeInto(s: State, a: string, i: string): State
    requires a in s.entities && i in s.entities
  {
    State(AbsorbInto(s.entities, a, i), MoveMentions(s.mentions, a, i), MergedIndex(s.entities, s.index, a, i),
      Merged(s.rels, a, i), Redirect(s.reps, a, i))
  }

  function MergedIndex(entities: Entities, index: AliasIndex, a: string, i: string): AliasIndex
    requires a in entities && i in entities
  {
    EnterAll(DropTarget(index, a), [i] + Absorb(entities[i], entities[a]).aliases, i)
  }

  // Nothing happens unless the names refer to two entities.
  ghost function MergeStep(s: State, alias: string, into: string): State {
    var a, i := ResolveIn(s.entities, s.index, alias), ResolveIn(s.entities, s.index, into);
    if a.Some? && i.Some? && a != i && a.value in s.entities && i.value in s.entities then
      MergeInto(s, a.value, i.value)
    else
      s
  }

  ghost function MergeFold(s: State, merges: seq<(string, string)>): State {
    if merges == [] then s
    else MergeStep(MergeFold(s, merges[..|merges| - 1]), merges[|merges| - 1].0, merges[|merges| - 1].1)
  }

  lemma MergeFoldNext(s: State, merges: seq<(string, string)>, p: (string, string))
    ensures MergeFold(s, merges + [p]) == MergeStep(MergeFold(s, merges), p.0, p.1)
  {
    assert (merges + [p])[..|merges|] == merges;
  }

  lemma {:induction false} MergeFoldAppend(s: State, merges: seq<(string, string)>, more: seq<(string, string)>)
    ensures MergeFold(s, merges + more) == MergeFold(MergeFold(s, merges), more)
    decreases |more|
  {
    hide MergeStep;
    if more == [] {
      assert merges + more == merges;
    } else {
      var rest, p := more[..|more| - 1], more[|more| - 1];
      MergeFoldAppend(s, merges, rest);
      assert merges + more == (merges + rest) + [p];
      MergeFoldNext(s, merges + rest, p);
    }
  }

  // Merging only takes entities away.
  lemma {:induction false} FoldShrinks(s: State, merges: seq<(string, string)>)
    ensures MergeFold(s, merges).entities.Keys <= s.entities.Keys
  {
    if merges != [] {
      var rest, p := merges[..|merges| - 1], merges[|merges| - 1];
      FoldShrinks(s, rest);
      StepShrinks(MergeFold(s, rest), p.0, p.1);
    }
  }

  lemma StepShrinks(s: State, alias: string, into: string)
    ensures MergeStep(s, alias, into).entities.Keys <= s.entities.Keys
  {
    hide ResolveIn, Absorb, MoveMentions, MergedIndex, Merged, Redirect;
  }

  // What the rebuild makes of entities stored without an index.
  ghost function Rebuilt(entities: Entities, mentions: MentionLists, rels: set<Relation>, order: seq<string>): State
    requires forall n :: n in order ==> n in entities
  {
    var claims := AllClaims(entities, order);
    MergeFold(State(entities, mentions, ServeAll(claims), rels, map[]), DeferAll(claims))
  }

  // Merged entities are connected by shared keys.
  ghost predicate OnlyLinked(entities: Entities, m: Reps) {
    forall x :: x in entities ==> Linked(entities, x, Rep(m, x))
  }

  ghost predicate OwnersHaveKeys(entities: Entities, index: AliasIndex) {
    forall k :: k in index ==> IsKeyOf(entities, index[k], k)
  }

  // What holds after any merges called for by shared keys: each remaining
  // entity stands for a class of connected ones, with their names, summed
  // counts, times and mentions, and the relations are the quotient by the
  // classes.
  ghost predicate Tracks(entities: Entities, mentions: MentionLists, rels: set<Relation>, s: State) {
    && MergedClasses(entities, s.reps, s.entities) && AllSpan(entities, s.reps, s.entities)
    && IsQuotient(rels, s.reps, s.rels) && MergedMentions(mentions, s.reps, s.mentions)
    && OnlyLinked(entities, s.reps) && OwnersHaveKeys(s.entities, s.index)
  }

  lemma MergedIndexRedirects(entities: Entities, index: AliasIndex, a: string, i: string)
    requires WellNamed(entities) && a in entities && i in entities && a != i
    ensures i in AbsorbInto(entities, a, i)
    ensures Redirected(AbsorbInto(entities, a, i), MergedIndex(entities, index, a, i), i, index, a)
  {
    AbsorbedInto(entities, a, i);
    AbsorbedWellNamed(entities, a, i);
    hide Absorb, AbsorbInto, EnterAll, DropTarget, Redirected;
    EnteredAll(AbsorbInto(entities, a, i), index, a, i);
  }

  lemma OwnersKeepKeys(entities: Entities, index: AliasIndex, a: string, i: string)
    requires WellNamed(entities) && a in entities && i in entities && a != i && OwnersHaveKeys(entities, index)
    ensures OwnersHaveKeys(AbsorbInto(entities, a, i), MergedIndex(entities, index, a, i))
  {
    AbsorbedNames(entities[i], entities[a]);
    AbsorbedInto(entities, a, i);
    MergedIndexRedirects(entities, index, a, i);
    hide Absorb, AbsorbInto, MergedIndex, EntityKey, WellNamed;
    var merged, after := AbsorbInto(entities, a, i), MergedIndex(entities, index, a, i);
    forall k | k in after
      ensures IsKeyOf(merged, after[k], k)
    {
      if !exists x :: IsNameOf(merged[i], x) && EntityKey(x) == k {
        var x :| IsNameOf(entities[index[k]], x) && EntityKey(x) == k;
        assert index[k] != i;
        assert IsNameOf(merged[index[k]], x);
      }
    }
  }

  // A remaining entity has the keys of its class.
  ghost predicate ClassHasKey(original: Entities, m: Reps, n: string, k: string) {
    exists y :: y in original && Rep(m, y) == n && IsKeyOf(original, y, k)
  }

  lemma KeysOfClass(original: Entities, m: Reps, entities: Entities, n: string, k: string)
    requires MergedClasses(original, m, entities) && n in entities
    ensures IsKeyOf(entities, n, k) <==> ClassHasKey(original, m, n, k)
  {
    assert StandsFor(original, m, n, entities[n]);
    hide EntityKey, IsNameOf, SumCounts, Rep;
    if IsKeyOf(entities, n, k) {
      var x :| IsNameOf(entities[n], x) && EntityKey(x) == k;
      assert NamesClass(original, m, n, x);
      var y :| y in ClassOf(original, m, n) && IsNameOf(original[y], x);
      assert IsKeyOf(original, y, k);
    }
    if ClassHasKey(original, m, n, k) {
      var y :| y in original && Rep(m, y) == n && IsKeyOf(original, y, k);
      var x :| IsNameOf(original[y], x) && EntityKey(x) == k;
      assert NamesClass(original, m, n, x);
    }
  }

  lemma OwnKey(entities: Entities, n: string)
    requires WellNamed(entities) && n in entities
    ensures IsKeyOf(entities, n, EntityKey(n))
  {
    assert IsNameOf(entities[n], n);
  }

  // A name refers to an entity connected with the one that had it.
  lemma ResolvedLinked(entities: Entities, mentions: MentionLists, rels: set<Relation>, s: State, n: string)
    requires WellNamed(entities) && Tracks(entities, mentions, rels, s) && n in entities
    requires ResolveIn(s.entities, s.index, n).Some?
    ensures Linked(entities, n, ResolveIn(s.entities, s.index, n).value)
  {
    var a := ResolveIn(s.entities, s.index, n).value;
    LinkedSelf(entities, n);
    if n !in s.entities {
      OwnKey(entities, n);
      hide EntityKey, IsKeyOf, WellNamed, MergedClasses, IsQuotient, MergedMentions, Rep, Linked;
      OwnerKnown(s.entities, a, EntityKey(n));
      KeysOfClass(entities, s.reps, s.entities, a, EntityKey(n));
      var y :| y in entities && Rep(s.reps, y) == a && IsKeyOf(entities, y, EntityKey(n));
      assert SharesKey(entities, n, y);
      LinkedStep(entities, n, n, y);
      LinkedTransitive(entities, n, y, a);
    }
  }

  lemma OwnerKnown(entities: Entities, n: string, k: string)
    requires IsKeyOf(entities, n, k)
    ensures n in entities
  {
  }

  lemma LinkedAcross(entities: Entities, a: string, n: string, o: string, i: string)
    requires Linked(entities, n, a) && SharesKey(entities, n, o) && Linked(entities, o, i)
    ensures Linked(entities, a, i)
  {
    hide Linked, SharesKey;
    LinkedSymmetric(entities, n, a);
    LinkedStep(entities, a, n, o);
    LinkedTransitive(entities, a, o, i);
  }

  lemma OnlyLinkedStep(entities: Entities, m: Reps, a: string, i: string)
    requires OnlyLinked(entities, m) && CanRedirect(m, a, i) && Linked(entities, a, i)
    ensures OnlyLinked(entities, Redirect(m, a, i))
  {
    hide Linked, Redirect, Rep, CanRedirect;
    forall x | x in entities
      ensures Linked(entities, x, Rep(Redirect(m, a, i), x))
    {
      RedirectedRep(m, a, i, x);
      if Rep(m, x) == a {
        LinkedTransitive(entities, x, a, i);
      }
    }
  }

  lemma RemainingRedirects(original: Entities, m: Reps, entities: Entities, a: string, i: string)
    requires MergedClasses(original, m, entities) && a in entities && i in entities && a != i
    ensures CanRedirect(m, a, i) && WellNamed(entities)
  {
  }

  lemma MergeTracks(entities: Entities, mentions: MentionLists, rels: set<Relation>, s: State, a: string, i: string)
    requires Tracks(entities, mentions, rels, s)
    requires a in s.entities && i in s.entities && a != i && Linked(entities, a, i)
    ensures Tracks(entities, mentions, rels, MergeInto(s, a, i))
  {
    RemainingRedirects(entities, s.reps, s.entities, a, i);
    hide MergedClasses, AllSpan, IsQuotient, MergedMentions, OnlyLinked, OwnersHaveKeys, CanRedirect, WellNamed,
      Linked, MergedIndex, AbsorbInto, MoveMentions, Merged, Redirect;
    MergedClassesStep(entities, s.reps, s.entities, a, i);
    AllSpanStep(entities, s.reps, s.entities, a, i);
    QuotientStep(rels, s.reps, s.rels, a, i);
    MergedMentionsStep(mentions, s.reps, s.mentions, a, i);
    OnlyLinkedStep(entities, s.reps, a, i);
    OwnersKeepKeys(s.entities, s.index, a, i);
  }

  lemma StepTracks(entities: Entities, mentions: MentionLists, rels: set<Relation>, s: State, n: string, o: string)
    requires WellNamed(entities) && Tracks(entities, mentions, rels, s)
    requires n in entities && o in entities && SharesKey(entities, n, o)
    ensures Tracks(entities, mentions, rels, MergeStep(s, n, o))
  {
    hide Tracks, Linked, SharesKey, WellNamed, MergeInto, ResolveIn;
    var a, i := ResolveIn(s.entities, s.index, n), ResolveIn(s.entities, s.index, o);
    if a.Some? && i.Some? && a != i && a.value in s.entities && i.value in s.entities {
      ResolvedLinked(entities, mentions, rels, s, n);
      ResolvedLinked(entities, mentions, rels, s, o);
      LinkedAcross(entities, a.value, n, o, i.value);
      MergeTracks(entities, mentions, rels, s, a.value, i.value);
    }
  }

  // The merge is called for by a shared key.
  ghost predicate MergesSharing(entities: Entities, merges: seq<(string, string)>) {
    forall j :: 0 <= j < |merges| ==> SharesKey(entities, merges[j].0, merges[j].1)
  }

  lemma SharingKnown(entities: Entities, a: string, b: string)
    requires SharesKey(entities, a, b)
    ensures a in entities && b in entities
  {
  }

  lemma {:induction false} FoldTracks(entities: Entities, mentions: MentionLists, rels: set<Relation>, s: State,
                                      merges: seq<(string, string)>)
    requires WellNamed(entities) && Tracks(entities, mentions, rels, s) && MergesSharing(entities, merges)
    ensures Tracks(entities, mentions, rels, MergeFold(s, merges))
  {
    hide Tracks, MergeStep, WellNamed, SharesKey;
    if merges != [] {
      var rest, p := merges[..|merges| - 1], merges[|merges| - 1];
      assert forall j :: 0 <= j < |rest| ==> rest[j] == merges[j];
      FoldTracks(entities, mentions, rels, s, rest);
      SharingKnown(entities, p.0, p.1);
      StepTracks(entities, mentions, rels, MergeFold(s, rest), p.0, p.1);
    }
  }

  lemma MergedKeepsKeys(entities: Entities, index: AliasIndex, a: string, i: string)
    requires WellNamed(entities) && a in entities && i in entities && a != i && OwnersHaveKeys(entities, index)
    ensures forall k :: k in index ==> k in MergedIndex(entities, index, a, i)
  {
    AbsorbedNames(entities[i], entities[a]);
    AbsorbedInto(entities, a, i);
    MergedIndexRedirects(entities, index, a, i);
    hide Absorb, AbsorbInto, MergedIndex, EntityKey, WellNamed;
    var merged := AbsorbInto(entities, a, i);
    forall k | k in index && index[k] == a
      ensures exists x :: IsNameOf(merged[i], x) && EntityKey(x) == k
    {
      var x :| IsNameOf(entities[a], x) && EntityKey(x) == k;
      assert IsNameOf(merged[i], x);
    }
  }

  lemma StepKeepsKeys(entities: Entities, mentions: MentionLists, rels: set<Relation>, s: State, n: string, o: string)
    requires Tracks(entities, mentions, rels, s)
    ensures forall k :: k in s.index ==> k in MergeStep(s, n, o).index
  {
    var a, i := ResolveIn(s.entities, s.index, n), ResolveIn(s.entities, s.index, o);
    assert WellNamed(s.entities);
    hide Tracks, WellNamed, ResolveIn, MergedIndex, OwnersHaveKeys;
    if a.Some? && i.Some? && a != i && a.value in s.entities && i.value in s.entities {
      assert OwnersHaveKeys(s.entities, s.index) by { TracksOwners(entities, mentions, rels, s); }
      MergedKeepsKeys(s.entities, s.index, a.value, i.value);
    }
  }

  lemma TracksOwners(entities: Entities, mentions: MentionLists, rels: set<Relation>, s: State)
    requires Tracks(entities, mentions, rels, s)
    ensures OwnersHaveKeys(s.entities, s.index) && MergedClasses(entities, s.reps, s.entities)
  {
  }

  // No key is ever left without an owner.
  lemma {:induction false} FoldKeepsKeys(entities: Entities, mentions: MentionLists, rels: set<Relation>, s: State,
                                         merges: seq<(string, string)>)
    requires WellNamed(entities) && Tracks(entities, mentions, rels, s) && MergesSharing(entities, merges)
    ensures forall k :: k in s.index ==> k in MergeFold(s, merges).index
  {
    hide Tracks, MergeStep, WellNamed, SharesKey;
    if merges != [] {
      var rest, p := merges[..|merges| - 1], merges[|merges| - 1];
      assert forall j :: 0 <= j < |rest| ==> rest[j] == merges[j];
      FoldKeepsKeys(entities, mentions, rels, s, rest);
      FoldTracks(entities, mentions, rels, s, rest);
      StepKeepsKeys(entities, mentions, rels, MergeFold(s, rest), p.0, p.1);
    }
  }

  // The owner of a key is the earliest entity that has it.
  lemma OwnerIsEarliest(entities: Entities, order: seq<string>, index: AliasIndex, n: string, k: string)
    requires InMentionOrder(entities, order) && ServesEarliest(entities, order, index) && IsKeyOf(entities, n, k)
    ensures k in index && (index[k] == n || Before(entities, index[k], n)) && SharesKey(entities, n, index[k])
  {
    OwnerKnown(entities, n, k);
    hide Before, IsKeyOf;
    BeforeIsOrder(entities);
    assert IsKeyOf(entities, index[k], k);
    OwnerKnown(entities, index[k], k);
  }

  lemma {:induction false} LateShare(entities: Entities, order: seq<string>, index: AliasIndex, n: string,
                                     names: seq<string>)
    requires InMentionOrder(entities, order) && ServesEarliest(entities, order, index)
    requires forall j :: 0 <= j < |names| ==> IsKeyOf(entities, n, EntityKey(names[j]))
    ensures MergesSharing(entities, LateOwners(index, n, names))
    ensures forall j :: 0 <= j < |LateOwners(index, n, names)| ==>
      LateOwners(index, n, names)[j].0 == n && Before(entities, LateOwners(index, n, names)[j].1, n)
  {
    hide EntityKey, IsKeyOf, InMentionOrder, ServesEarliest, SharesKey, Before;
    if names != [] {
      var rest := names[..|names| - 1];
      assert forall j :: 0 <= j < |rest| ==> rest[j] == names[j];
      LateShare(entities, order, index, n, rest);
      OwnerIsEarliest(entities, order, index, n, EntityKey(names[|names| - 1]));
    }
  }

  lemma NamesAreKeys(entities: Entities, n: string)
    requires WellNamed(entities) && n in entities
    ensures forall j :: 0 <= j < |NamesOf(entities, n)| ==> IsKeyOf(entities, n, EntityKey(NamesOf(entities, n)[j]))
  {
    hide EntityKey, IsKeyOf;
    NamesHaveKeys(entities, n);
  }

  lemma {:induction false} AllLateShare(entities: Entities, order: seq<string>, index: AliasIndex, part: seq<string>)
    requires WellNamed(entities) && InMentionOrder(entities, order) && ServesEarliest(entities, order, index)
    requires forall n :: n in part ==> n in entities
    ensures MergesSharing(entities, LateMerges(entities, index, part))
  {
    hide EntityKey, IsKeyOf, InMentionOrder, ServesEarliest, SharesKey, Before, WellNamed, LateOwners, NamesOf;
    if part != [] {
      var rest, n := part[..|part| - 1], part[|part| - 1];
      AllLateShare(entities, order, index, rest);
      NamesAreKeys(entities, n);
      LateShare(entities, order, index, n, NamesOf(entities, n));
    }
  }

  lemma MergesUpTo(entities: Entities, index: AliasIndex, order: seq<string>, i: nat)
    requires i < |order| && forall n :: n in order ==> n in entities
    ensures LateMerges(entities, index, order[..i + 1]) ==
      LateMerges(entities, index, order[..i]) + LateOwners(index, order[i], NamesOf(entities, order[i]))
  {
    hide LateOwners, NamesOf;
    assert order[..i + 1][..i] == order[..i] && order[..i + 1][i] == order[i];
  }

  lemma {:induction false} MergesPrefix(entities: Entities, index: AliasIndex, order: seq<string>, i: nat)
    returns (more: seq<(string, string)>)
    requires i <= |order| && forall n :: n in order ==> n in entities
    ensures forall n :: n in order[..i] ==> n in entities
    ensures LateMerges(entities, index, order) == LateMerges(entities, index, order[..i]) + more
    decreases |order|
  {
    hide LateOwners, NamesOf;
    if i == |order| {
      more := [];
      assert order[..i] == order;
    } else {
      more := MergesPrefix(entities, index, order[..|order| - 1], i);
      assert order[..|order| - 1][..i] == order[..i];
      more := more + LateOwners(index, order[|order| - 1], NamesOf(entities, order[|order| - 1]));
    }
  }

  lemma ServedForRebuild(entities: Entities, order: seq<string>)
    requires WellNamed(entities) && InMentionOrder(entities, order)
    ensures ServesEarliest(entities, order, ServeAll(AllClaims(entities, order)))
    ensures var index := ServeAll(AllClaims(entities, order));
      DeferAll(AllClaims(entities, order)) == LateMerges(entities, index, order)
  {
    hide ServeAll, DeferAll, AllClaims, LateMerges, ServesEarliest, Before, WellNamed;
    KeysGoToEarliest(entities, order);
    MergesAreLate(entities, order, ServeAll(AllClaims(entities, order)));
  }

  lemma OwnersClaim(entities: Entities, order: seq<string>, index: AliasIndex)
    requires ServesEarliest(entities, order, index)
    ensures OwnersHaveKeys(entities, index)
  {
    hide IsKeyOf;
  }

  lemma UnmergedTracks(entities: Entities, mentions: MentionLists, rels: set<Relation>, index: AliasIndex)
    requires WellNamed(entities) && MentionsKnown(entities, mentions)
    requires OnePerTriple(rels) && OwnersHaveKeys(entities, index)
    ensures Tracks(entities, mentions, rels, State(entities, mentions, index, rels, map[]))
  {
    InitialClasses(entities);
    InitialSpans(entities);
    InitialQuotient(rels);
    InitialMentions(mentions);
    hide MergedClasses, AllSpan, IsQuotient, MergedMentions, Linked;
    forall x | x in entities
      ensures Linked(entities, x, Rep(map[], x))
    {
      LinkedSelf(entities, x);
    }
  }

  // Whatever the stored entities: names, counts, mentions and relations are
  // carried over, only connected entities come together, and every key of a
  // stored entity has an owner.
  lemma RebuildTracks(entities: Entities, mentions: MentionLists, rels: set<Relation>, order: seq<string>)
    requires WellNamed(entities) && MentionsKnown(entities, mentions)
    requires OnePerTriple(rels) && InMentionOrder(entities, order)
    ensures var s := Rebuilt(entities, mentions, rels, order);
      && Tracks(entities, mentions, rels, s)
      && forall n, k :: IsKeyOf(entities, n, k) ==> k in s.index
  {
    hide ServeAll, DeferAll, AllClaims, LateMerges, ServesEarliest, Tracks, WellNamed, MentionsKnown, OnePerTriple,
      Before, MergesSharing, IsKeyOf, MergeFold;
    var index := ServeAll(AllClaims(entities, order));
    var s := State(entities, mentions, index, rels, map[]);
    ServedForRebuild(entities, order);
    OwnersClaim(entities, order, index);
    UnmergedTracks(entities, mentions, rels, index);
    AllLateShare(entities, order, index, order);
    FoldTracks(entities, mentions, rels, s, LateMerges(entities, index, order));
    FoldKeepsKeys(entities, mentions, rels, s, LateMerges(entities, index, order));
    forall n, k | IsKeyOf(entities, n, k)
      ensures k in index
    {
      OwnerIsEarliest(entities, order, index, n, k);
    }
  }
}
