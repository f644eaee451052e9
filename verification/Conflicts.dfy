// What rebuilding the alias index does to an entity that shares keys with two
// entities which share none: the one it lists first goes, even if it was
// mentioned first of all.
module Conflicts {
  import opened Types
  import opened Names
  import opened Quotient
  import opened Mentions
  import opened Rebuild
  import opened Roots
  import opened Classes
  import opened Merging
  import opened Outcome

  // Every name of a class refers to the entity last merged into.
  lemma ClassResolves(original: Entities, t: State, before: AliasIndex, a: string, r: string, x: string)
    requires WellNamed(original) && MergedClasses(original, t.reps, t.entities) && r in t.entities
    requires Redirected(t.entities, t.index, r, before, a) && x in original && Rep(t.reps, x) == r
    ensures ResolveIn(t.entities, t.index, x) == Some(r)
  {
    OwnKey(original, x);
    RemainsOrGone(original, t.reps, t.entities, x);
    hide EntityKey, MergedClasses, WellNamed, IsNameOf;
    assert ClassHasKey(original, t.reps, r, EntityKey(x)) by { hide IsKeyOf; }
    KeysOfClass(original, t.reps, t.entities, r, EntityKey(x));
    hide ClassHasKey;
  }

  // n has been folded into r.
  ghost predicate IsFoldedInto(c: Rooted, done: set<string>, s: State, n: string, r: string, t: State) {
    && n in s.entities && r in s.entities && n != r && t == MergeInto(s, n, r)
    && IsClean(c, done, s)
  }

  lemma FoldedResolves(c: Rooted, done: set<string>, s: State, n: string, r: string, t: State, x: string)
    requires WellNamed(c.entities) && IsFoldedInto(c, done, s, n, r, t)
    requires x == n || (x in done && c.root[x] == r)
    requires x in c.entities
    ensures ResolveIn(t.entities, t.index, x) == Some(r)
  {
    CleanReps(c, done, s);
    RemainingRedirects(c.entities, s.reps, s.entities, n, r);
    if x != n {
      RootIsRep(c.root, done, x);
    } else {
      RemainsOrGone(c.entities, s.reps, s.entities, n);
    }
    RedirectedRep(s.reps, n, r, x);
    hide IsClean, MergedClasses, WellNamed, Redirect, RootedReps, Followed, AbsorbInto, MergedIndex, Redirected,
      CanRedirect, MoveMentions, Merged, ResolveIn;
    MergedClassesStep(c.entities, s.reps, s.entities, n, r);
    MergedIndexRedirects(s.entities, s.index, n, r);
    ClassResolves(c.entities, t, s.index, n, r, x);
  }

  // The keys listed in names belong to n alone or to entities with root r.
  ghost predicate KeysLeadTo(entities: Entities, root: map<string, string>, names: seq<string>, r: string) {
    forall l, m :: 0 <= l < |names| && m in root && IsKeyOf(entities, m, EntityKey(names[l])) ==> root[m] == r
  }

  ghost predicate SomeKeyTaken(entities: Entities, part: set<string>, names: seq<string>) {
    exists l, m :: 0 <= l < |names| && m in part && IsKeyOf(entities, m, EntityKey(names[l]))
  }

  // The entities before n are rooted; n is next in the mention order.
  ghost predicate IsNext(c: Rooted, n: string) {
    && IsRooted(c) && n in c.entities && n !in c.root
    && IsInitial(c.entities, c.root.Keys + {n})
  }

  lemma {:induction false} SameRootFold(c: Rooted, s: State, n: string, r: string, names: seq<string>)
    requires IsNext(c, n) && IsClean(c, c.root.Keys, s)
    requires r in s.entities && r in c.root && KeysLeadTo(c.entities, c.root, names, r)
    requires forall j :: 0 <= j < |names| ==> IsKeyOf(c.entities, n, EntityKey(names[j]))
    ensures var late := LateOwners(c.index, n, names);
      if late == [] then MergeFold(s, late) == s
      else IsFoldedInto(c, c.root.Keys, s, n, r, MergeFold(s, late))
    decreases |names|
  {
    hide EntityKey, IsKeyOf, IsNext, IsClean, MergeStep, IsFoldedInto;
    if names != [] {
      var rest, k := names[..|names| - 1], EntityKey(names[|names| - 1]);
      assert forall j :: 0 <= j < |rest| ==> rest[j] == names[j];
      SameRootFold(c, s, n, r, rest);
      var late := LateOwners(c.index, n, rest);
      if k in c.index && c.index[k] != n {
        MergeFoldNext(s, late, (n, c.index[k]));
        LateBefore(c, n, k);
        assert c.root[c.index[k]] == r;
        SameRootStep(c, s, n, r, c.index[k], MergeFold(s, late), late == []);
      } else {
        assert late + [] == late;
      }
    }
  }

  lemma LateBefore(c: Rooted, n: string, k: string)
    requires IsNext(c, n) && IsKeyOf(c.entities, n, k) && k in c.index && c.index[k] != n
    ensures c.index[k] in c.root && IsKeyOf(c.entities, c.index[k], k) && Before(c.entities, c.index[k], n)
  {
    hide IsKeyOf, Before, SharesKey, ServesEarliest, InMentionOrder, WellNamed;
    OwnerIsEarliest(c.entities, c.order, c.index, n, k);
    OwnerHasKey(c.entities, c.order, c.index, k);
  }

  lemma SameRootStep(c: Rooted, s: State, n: string, r: string, o: string, t: State, first: bool)
    requires IsNext(c, n) && IsClean(c, c.root.Keys, s)
    requires r in s.entities && r in c.root && o in c.root && c.root[o] == r
    requires if first then t == s else IsFoldedInto(c, c.root.Keys, s, n, r, t)
    ensures IsFoldedInto(c, c.root.Keys, s, n, r, MergeStep(t, n, o))
  {
    NextRemains(c, s, n);
    assert o in c.entities && WellNamed(c.entities) by { hide Before, SharesKey, Stays; }
    hide IsRooted, IsClean, ResolveIn, MergeInto, MergeStep, WellNamed, IsInitial;
    if first {
      ResolvesItself(s.entities, s.index, n);
      CleanResolves(c, c.root.Keys, s, o);
      StepMerges(s, n, o, n, r);
    } else {
      FoldedResolves(c, c.root.Keys, s, n, r, t, n);
      FoldedResolves(c, c.root.Keys, s, n, r, t, o);
      StepIsIdle(t, n, o);
    }
  }

  lemma NextRemains(c: Rooted, s: State, n: string)
    requires IsNext(c, n) && IsClean(c, c.root.Keys, s)
    ensures n in s.entities && IsInitial(c.entities, c.root.Keys)
  {
    hide Before, SharesKey, Stays, WellNamed;
    RemainsOrGone(c.entities, s.reps, s.entities, n);
  }

  lemma {:induction false} LatePrefix(index: AliasIndex, n: string, names: seq<string>, q: nat)
    returns (more: seq<(string, string)>)
    requires q <= |names|
    ensures LateOwners(index, n, names) == LateOwners(index, n, names[..q]) + more
    decreases |names|
  {
    hide EntityKey;
    if q == |names| {
      more := [];
      assert names[..q] == names;
    } else {
      var k := EntityKey(names[|names| - 1]);
      more := LatePrefix(index, n, names[..|names| - 1], q);
      assert names[..|names| - 1][..q] == names[..q];
      more := more + if k in index && index[k] != n then [(n, index[k])] else [];
    }
  }

  lemma {:induction false} SomeLate(c: Rooted, n: string, names: seq<string>)
    requires IsNext(c, n) && SomeKeyTaken(c.entities, c.root.Keys, names)
    requires forall j :: 0 <= j < |names| ==> IsKeyOf(c.entities, n, EntityKey(names[j]))
    ensures LateOwners(c.index, n, names) != []
  {
    hide EntityKey, LateOwners, IsKeyOf;
    if LateOwners(c.index, n, names) == [] {
      NoLateOwner(c.index, n, names);
      var l, m :| 0 <= l < |names| && m in c.root && IsKeyOf(c.entities, m, EntityKey(names[l]));
      OwnerIsRooted(c, m, EntityKey(names[l]));
      assert false;
    }
  }

  // A staying entity owns its keys.
  lemma StayerOwns(entities: Entities, order: seq<string>, index: AliasIndex, r: string, k: string)
    requires InMentionOrder(entities, order) && ServesEarliest(entities, order, index) && Stays(entities, r)
    requires IsKeyOf(entities, r, k)
    ensures k in index && index[k] == r
  {
    OwnerIsEarliest(entities, order, index, r, k);
    hide InMentionOrder, ServesEarliest, Before, IsKeyOf;
    if index[k] != r {
      SharesBack(entities, r, index[k]);
    }
  }

  // Once folded into r, n is merged on into another root, and r with it.
  lemma FoldedIsLost(c: Rooted, s: State, n: string, r: string, t: State, other: string)
    requires IsNext(c, n) && IsFoldedInto(c, c.root.Keys, s, n, r, t)
    requires other in c.root && other != r && Stays(c.entities, other)
    ensures r !in MergeStep(t, n, other).entities
  {
    OtherRemains(c, s, n, r, t, other);
    hide IsRooted, IsFoldedInto, IsInitial, Stays;
    FoldedResolves(c, c.root.Keys, s, n, r, t, n);
    hide IsNext, ResolveIn, MergeInto, MergeStep;
    ResolvesItself(t.entities, t.index, other);
    StepMerges(t, n, other, r, other);
    MergedAway(t, r, other);
  }

  lemma OtherRemains(c: Rooted, s: State, n: string, r: string, t: State, other: string)
    requires IsNext(c, n) && IsFoldedInto(c, c.root.Keys, s, n, r, t)
    requires other in c.root && Stays(c.entities, other)
    ensures WellNamed(c.entities) && other in t.entities && r in t.entities
  {
    CleanReps(c, c.root.Keys, s);
    RootRemains(c.entities, c.root.Keys, c.root, c.root.Keys, other);
    assert c.root[other] == other && other in c.entities by { hide Before, SharesKey, MergedClasses; }
    hide IsRooting, IsClean, Stays, IsInitial;
    RemainsOrGone(c.entities, s.reps, s.entities, other);
    hide MergedClasses, Absorb;
    AbsorbedInto(s.entities, n, r);
  }

  lemma LateReaches(index: AliasIndex, n: string, names: seq<string>, q: nat, other: string)
    returns (more: seq<(string, string)>)
    requires q < |names| && EntityKey(names[q]) in index && index[EntityKey(names[q])] == other != n
    ensures LateOwners(index, n, names) == LateOwners(index, n, names[..q]) + [(n, other)] + more
  {
    hide EntityKey;
    more := LatePrefix(index, n, names, q + 1);
    assert names[..q + 1][..q] == names[..q];
  }

  // n's names list keys that lead to r, then one of another root.
  ghost predicate ListsFirst(entities: Entities, root: map<string, string>, names: seq<string>, q: nat, r: string,
                             other: string)
  {
    && q < |names| && SomeKeyTaken(entities, root.Keys, names[..q]) && KeysLeadTo(entities, root, names[..q], r)
    && other in root && Stays(entities, other) && IsKeyOf(entities, other, EntityKey(names[q])) && other != r
  }

  // The merges for n, from a clean state before it.
  lemma BlockLoses(c: Rooted, s: State, n: string, names: seq<string>, q: nat, r: string, other: string)
    requires IsNext(c, n) && IsClean(c, c.root.Keys, s)
    requires r in s.entities && r in c.root && ListsFirst(c.entities, c.root, names, q, r, other)
    requires forall j :: 0 <= j < |names| ==> IsKeyOf(c.entities, n, EntityKey(names[j]))
    ensures r !in MergeFold(s, LateOwners(c.index, n, names)).entities
  {
    hide EntityKey, IsClean, IsKeyOf, IsInitial, MergeStep, IsFoldedInto, Stays, SomeKeyTaken, KeysLeadTo, IsRooting,
      Before, ServesEarliest, InMentionOrder, LateOwners, MergeFold, WellNamed;
    StayerOwns(c.entities, c.order, c.index, other, EntityKey(names[q]));
    assert forall j :: 0 <= j < q ==> names[..q][j] == names[j];
    SameRootFold(c, s, n, r, names[..q]);
    SomeLate(c, n, names[..q]);
    var late := LateOwners(c.index, n, names[..q]);
    FoldedIsLost(c, s, n, r, MergeFold(s, late), other);
    MergeFoldNext(s, late, (n, other));
    var more := LateReaches(c.index, n, names, q, other);
    MergeFoldAppend(s, late + [(n, other)], more);
    FoldShrinks(MergeFold(s, late + [(n, other)]), more);
  }

  lemma NextIsNext(c: Rooted, i: nat)
    requires WellNamed(c.entities) && InMentionOrder(c.entities, c.order)
    requires i < |c.order| && ServesEarliest(c.entities, c.order, c.index)
    requires IsRooting(c.entities, Members(c.order[..i]), c.root)
    ensures c.order[i] in c.entities && IsNext(c, c.order[i]) && c.root.Keys == Members(c.order[..i])
  {
    NextInOrder(c.entities, c.order, i);
    OrderIsInitial(c.entities, c.order, i + 1);
    Ordered(c.entities, c.order, c.order[i]);
    hide InMentionOrder, ServesEarliest, WellNamed, IsInitial, Stays, SharesKey, Members;
  }

  // An entity that lists a key leading to one root before a key of another
  // root makes the first of the two roots disappear, the earlier one too.
  lemma FirstListedIsLost(entities: Entities, mentions: MentionLists, rels: set<Relation>, order: seq<string>, i: nat,
                          root: map<string, string>, q: nat, r: string, other: string)
    requires WellNamed(entities) && InMentionOrder(entities, order) && i < |order|
    requires IsRooting(entities, Members(order[..i]), root) && r in root && root[r] == r
    requires order[i] in entities && ListsFirst(entities, root, NamesOf(entities, order[i]), q, r, other)
    ensures r !in Rebuilt(entities, mentions, rels, order).entities
  {
    hide ServeAll, DeferAll, AllClaims, ServesEarliest, InMentionOrder, WellNamed, IsRooting, ListsFirst, LateOwners,
      NamesOf, Members, MergeFold, IsNext, IsClean;
    OrderMembers(entities, order);
    ServedForRebuild(entities, order);
    var index, n := ServeAll(AllClaims(entities, order)), order[i];
    var c := Rooted(entities, order, index, root);
    NextIsNext(c, i);
    var s := State(entities, mentions, index, rels, map[]);
    PrefixIsClean(c, s, i);
    var t := MergeFold(s, LateMerges(entities, index, order[..i]));
    RootStillThere(c, t, n, r);
    NamesAreKeys(entities, n);
    var late := LateOwners(index, n, NamesOf(entities, n));
    BlockLoses(c, t, n, NamesOf(entities, n), q, r, other);
    MergesUpTo(entities, index, order, i);
    var more := MergesPrefix(entities, index, order, i + 1);
    MergeFoldAppend(s, LateMerges(entities, index, order[..i]), late);
    MergeFoldAppend(s, LateMerges(entities, index, order[..i]) + late, more);
    FoldShrinks(MergeFold(t, late), more);
  }

  lemma PrefixIsClean(c: Rooted, s: State, i: nat)
    requires i < |c.order| && IsNext(c, c.order[i]) && c.root.Keys == Members(c.order[..i])
    requires s.entities == c.entities && s.index == c.index && s.reps == map[]
    requires forall n :: n in c.order ==> n in c.entities
    ensures IsClean(c, c.root.Keys, MergeFold(s, LateMerges(c.entities, c.index, c.order[..i])))
  {
    hide IsRooted, IsClean;
    FoldIsRooted(c, s, i);
  }

  lemma RootStillThere(c: Rooted, s: State, n: string, r: string)
    requires IsNext(c, n) && IsClean(c, c.root.Keys, s)
    requires r in c.root && c.root[r] == r
    ensures r in s.entities
  {
    hide Before, SharesKey, Stays, WellNamed;
    RemainsOrGone(c.entities, s.reps, s.entities, r);
  }
}
