// When rebuilding the alias index makes the entities go that share a key with
// an earlier one, keeps all others, and leaves every key with one entity: just
// when connected entities have one root. Then it does what it is meant to,
// and every group becomes its earliest entity.
module Outcome {
  import opened Types
  import opened DiGraph
  import opened Names
  import opened Quotient
  import opened Mentions
  import opened GraphState
  import opened Rebuild
  import opened Roots
  import opened Classes
  import opened Merging

  // Stored entities in mention order, the index their claims give, and the
  // root of every entity of an initial part.
  datatype Rooted = Rooted(entities: Entities, order: seq<string>, index: AliasIndex, root: map<string, string>)

  // The entities of done that are not roots go to theirs.
  function RootedReps(root: map<string, string>, done: set<string>): Reps
    requires done <= root.Keys
  {
    map x | x in done && root[x] != x :: root[x]
  }

  function Followed(index: AliasIndex, m: Reps): AliasIndex {
    map k | k in index :: Rep(m, index[k])
  }

  // The state once the entities of done were merged into their roots.
  ghost predicate IsClean(c: Rooted, done: set<string>, s: State) {
    && done <= c.root.Keys && s.reps == RootedReps(c.root, done) && s.index == Followed(c.index, s.reps)
    && MergedClasses(c.entities, s.reps, s.entities)
  }

  // The index before any merge, and roots of some initial entities.
  ghost predicate IsRooted(c: Rooted) {
    && WellNamed(c.entities) && InMentionOrder(c.entities, c.order) && ServesEarliest(c.entities, c.order, c.index)
    && IsRooting(c.entities, c.root.Keys, c.root)
  }

  lemma {:induction false} RootComesFirst(entities: Entities, part: set<string>, root: map<string, string>, n: string)
    requires IsRooting(entities, part, root) && n in part
    ensures n in root && (root[n] == n || Before(entities, root[n], n))
    decreases EarlierThan(entities, n)
  {
    BeforeIsOrder(entities);
    assert n in root;
    if !Stays(entities, n) {
      var m :| Before(entities, m, n) && SharesKey(entities, m, n);
      EarlierThanShrinks(entities, m, n);
      hide Before, SharesKey, Stays;
      RootComesFirst(entities, part, root, m);
    }
  }

  // An entity's keys are owned by entities with its root.
  lemma OwnerIsRooted(c: Rooted, n: string, k: string)
    requires IsRooted(c) && n in c.root.Keys && IsKeyOf(c.entities, n, k)
    ensures k in c.index && (c.index[k] == n || Before(c.entities, c.index[k], n))
    ensures n in c.root && c.index[k] in c.root.Keys && c.index[k] in c.root && c.root[c.index[k]] == c.root[n]
  {
    hide Before, IsKeyOf, SharesKey, ServesEarliest, InMentionOrder, Stays, WellNamed;
    OwnerIsEarliest(c.entities, c.order, c.index, n, k);
  }

  lemma RootIsRep(root: map<string, string>, done: set<string>, x: string)
    requires done <= root.Keys && (x in done || (x in root && root[x] == x))
    ensures Rep(RootedReps(root, done), x) == root[x]
  {
  }

  lemma RemainsOrGone(original: Entities, m: Reps, entities: Entities, n: string)
    requires MergedClasses(original, m, entities) && n in original
    ensures n in entities <==> n !in m
  {
  }

  lemma RootRemains(entities: Entities, part: set<string>, root: map<string, string>, done: set<string>, n: string)
    requires IsRooting(entities, part, root) && done <= part && n in part
    ensures root[n] in entities && root[n] !in RootedReps(root, done) && root[n] in root && root[root[n]] == root[n]
  {
    hide Stays, Before, SharesKey;
  }

  // Names of treated entities refer to their roots.
  lemma CleanResolves(c: Rooted, done: set<string>, s: State, n: string)
    requires IsRooted(c) && done <= c.root.Keys && IsInitial(c.entities, done)
    requires IsClean(c, done, s) && n in done
    ensures n in c.root && ResolveIn(s.entities, s.index, n) == Some(c.root[n])
  {
    hide Before, IsKeyOf, SharesKey, ServesEarliest, InMentionOrder, Stays, MergedClasses, EntityKey;
    assert n in c.entities;
    RemainsOrGone(c.entities, s.reps, s.entities, n);
    RootIsRep(c.root, done, n);
    if n !in s.entities {
      hide WellNamed;
      OwnKey(c.entities, n);
      OwnerIsRooted(c, n, EntityKey(n));
      RootIsRep(c.root, done, c.index[EntityKey(n)]);
    }
  }

  // Folding n into its root in a clean state.
  ghost predicate CanFold(c: Rooted, done: set<string>, s: State, n: string) {
    && IsRooted(c) && IsClean(c, done, s)
    && done + {n} <= c.root.Keys && n !in done && c.root[n] != n
    && IsInitial(c.entities, done) && IsInitial(c.entities, done + {n})
  }

  lemma RedirectsToRoot(entities: Entities, part: set<string>, root: map<string, string>, done: set<string>, n: string)
    requires IsRooting(entities, part, root) && done + {n} <= part && n !in done && root[n] != n
    ensures CanRedirect(RootedReps(root, done), n, root[n])
    ensures Redirect(RootedReps(root, done), n, root[n]) == RootedReps(root, done + {n})
  {
    RootRemains(entities, part, root, done, n);
    hide Before, SharesKey, IsInitial, Stays;
    forall x | x in done
      ensures root[x] != n
    {
    }
  }

  lemma CleanReps(c: Rooted, done: set<string>, s: State)
    requires IsClean(c, done, s)
    ensures done <= c.root.Keys && s.reps == RootedReps(c.root, done) && s.index == Followed(c.index, s.reps)
    ensures MergedClasses(c.entities, s.reps, s.entities) && WellNamed(s.entities)
  {
  }

  lemma FoldEnds(entities: Entities, part: set<string>, root: map<string, string>, done: set<string>,
                 remaining: Entities, n: string)
    requires IsRooting(entities, part, root) && IsInitial(entities, done + {n})
    requires done + {n} <= part && n !in done && root[n] != n
    requires MergedClasses(entities, RootedReps(root, done), remaining)
    ensures n in remaining && root[n] in remaining && root[n] in done
  {
    RootRemains(entities, part, root, done, n);
    RootComesFirst(entities, part, root, n);
    assert n in entities && root[n] in done by { hide Before, MergedClasses; }
    hide IsRooting, IsInitial, Before;
    RemainsOrGone(entities, RootedReps(root, done), remaining, n);
    RemainsOrGone(entities, RootedReps(root, done), remaining, root[n]);
  }

  lemma FoldTarget(c: Rooted, done: set<string>, s: State, n: string)
    requires CanFold(c, done, s, n)
    ensures n in s.entities && c.root[n] in s.entities && c.root[n] in done && n != c.root[n]
    ensures WellNamed(s.entities) && CanRedirect(s.reps, n, c.root[n])
    ensures Redirect(s.reps, n, c.root[n]) == RootedReps(c.root, done + {n})
    ensures MergedClasses(c.entities, Redirect(s.reps, n, c.root[n]), AbsorbInto(s.entities, n, c.root[n]))
  {
    CleanReps(c, done, s);
    hide Before, ServesEarliest, InMentionOrder, IsRooting, IsInitial, Redirect, AbsorbInto, RootedReps, Followed,
      IsClean, MergedClasses, WellNamed;
    RedirectsToRoot(c.entities, c.root.Keys, c.root, done, n);
    FoldEnds(c.entities, c.root.Keys, c.root, done, s.entities, n);
    MergedClassesStep(c.entities, s.reps, s.entities, n, c.root[n]);
  }

  // A key the root has taken over belongs to an entity with that root.
  lemma TakenKey(c: Rooted, done: set<string>, r: string, k: string)
    requires IsRooted(c) && done <= c.root.Keys && IsInitial(c.entities, done) && r in done
    requires c.root[r] == r && ClassHasKey(c.entities, RootedReps(c.root, done), r, k)
    ensures k in c.index && c.index[k] in done && Rep(RootedReps(c.root, done), c.index[k]) == r
  {
    hide Before, IsKeyOf, SharesKey, ServesEarliest, InMentionOrder, Stays, WellNamed;
    var y :| y in c.entities && Rep(RootedReps(c.root, done), y) == r && IsKeyOf(c.entities, y, k);
    assert y in done && c.root[y] == r;
    OwnerIsRooted(c, y, k);
    RootIsRep(c.root, done, c.index[k]);
  }

  // One entry of the index across the merge of n into r.
  lemma EntryStep(m: Reps, merged: Entities, index: AliasIndex, after: AliasIndex, n: string, r: string, k: string)
    requires r in merged && CanRedirect(m, n, r) && Redirected(merged, after, r, Followed(index, m), n)
    requires IsKeyOf(merged, r, k) ==> k in index && Rep(Redirect(m, n, r), index[k]) == r
    requires k in index && Rep(m, index[k]) == n ==> IsKeyOf(merged, r, k)
    ensures (k in after <==> k in index) && (k in after ==> after[k] == Rep(Redirect(m, n, r), index[k]))
  {
    if k in index {
      RedirectedRep(m, n, r, index[k]);
    }
    hide Redirect, Rep, IsNameOf, EntityKey;
  }

  lemma KeysOfFolded(c: Rooted, done: set<string>, n: string, k: string)
    requires IsRooted(c) && done + {n} <= c.root.Keys && n !in done && c.root[n] != n
    requires IsInitial(c.entities, done + {n}) && c.root[n] in done
    ensures var m := RootedReps(c.root, done + {n});
      && (ClassHasKey(c.entities, m, c.root[n], k) ==> k in c.index && Rep(m, c.index[k]) == c.root[n])
      && (k in c.index && Rep(RootedReps(c.root, done), c.index[k]) == n ==> ClassHasKey(c.entities, m, c.root[n], k))
  {
    RootRemains(c.entities, c.root.Keys, c.root, done, n);
    RedirectsToRoot(c.entities, c.root.Keys, c.root, done, n);
    hide Before, ServesEarliest, InMentionOrder, IsRooting, IsInitial, IsKeyOf, WellNamed;
    var r, m := c.root[n], RootedReps(c.root, done + {n});
    if ClassHasKey(c.entities, m, r, k) {
      TakenKey(c, done + {n}, r, k);
    }
    if k in c.index && Rep(RootedReps(c.root, done), c.index[k]) == n {
      OwnerHasKey(c.entities, c.order, c.index, k);
      RedirectedRep(RootedReps(c.root, done), n, r, c.index[k]);
      OwnerKnown(c.entities, c.index[k], k);
    }
  }

  lemma FoldedEntry(c: Rooted, done: set<string>, s: State, n: string, k: string)
    requires CanFold(c, done, s, n)
    requires n in s.entities && c.root[n] in s.entities
    ensures var after := MergedIndex(s.entities, s.index, n, c.root[n]); var m := RootedReps(c.root, done + {n});
      (k in after <==> k in c.index) && (k in after ==> after[k] == Rep(m, c.index[k]))
  {
    FoldTarget(c, done, s, n);
    CleanReps(c, done, s);
    KeysOfFolded(c, done, n, k);
    hide IsRooted, IsInitial, IsClean, AbsorbInto, MergedIndex, MergedClasses, WellNamed, RootedReps, Redirect,
      Redirected, Followed, IsKeyOf, ClassHasKey, CanRedirect;
    MergedIndexRedirects(s.entities, s.index, n, c.root[n]);
    var merged := AbsorbInto(s.entities, n, c.root[n]);
    KeysOfClass(c.entities, RootedReps(c.root, done + {n}), merged, c.root[n], k);
    EntryStep(s.reps, merged, c.index, MergedIndex(s.entities, s.index, n, c.root[n]), n, c.root[n], k);
  }

  lemma OwnerHasKey(entities: Entities, order: seq<string>, index: AliasIndex, k: string)
    requires ServesEarliest(entities, order, index) && k in index
    ensures IsKeyOf(entities, index[k], k)
  {
    hide IsKeyOf;
  }

  lemma FoldIsClean(c: Rooted, done: set<string>, s: State, n: string)
    requires CanFold(c, done, s, n)
    ensures n in s.entities && c.root[n] in s.entities
    ensures IsClean(c, done + {n}, MergeInto(s, n, c.root[n]))
  {
    hide IsRooted, IsInitial, MergedIndex, MergedClasses, AbsorbInto, MoveMentions, Merged, Redirect, RootedReps,
      WellNamed, Rep, Followed;
    FoldTarget(c, done, s, n);
    CleanReps(c, done, s);
    var after, m := MergedIndex(s.entities, s.index, n, c.root[n]), RootedReps(c.root, done + {n});
    forall k
      ensures (k in after <==> k in c.index) && (k in after ==> after[k] == Rep(m, c.index[k]))
    {
      FoldedEntry(c, done, s, n, k);
    }
    SameEntries(c.index, after, m);
    assert done + {n} <= c.root.Keys;
    hide CanFold;
  }

  lemma SameEntries(index: AliasIndex, after: AliasIndex, m: Reps)
    requires forall k :: (k in after <==> k in index) && (k in after ==> after[k] == Rep(m, index[k]))
    ensures after == Followed(index, m)
  {
    hide Rep;
  }

  // The merges one entity's names call for.
  lemma {:induction false} LateFold(c: Rooted, done: set<string>, s: State, n: string, names: seq<string>)
    requires IsRooted(c) && IsClean(c, done, s)
    requires done + {n} <= c.root.Keys && n !in done && IsInitial(c.entities, done) && IsInitial(c.entities, done + {n})
    requires forall j :: 0 <= j < |names| ==> IsKeyOf(c.entities, n, EntityKey(names[j]))
    ensures var late := LateOwners(c.index, n, names);
      if late == [] then MergeFold(s, late) == s else IsClean(c, done + {n}, MergeFold(s, late))
    decreases |names|
  {
    hide EntityKey, IsKeyOf, IsRooted, IsClean, IsInitial, MergeStep;
    if names != [] {
      var rest, k := names[..|names| - 1], EntityKey(names[|names| - 1]);
      assert forall j :: 0 <= j < |rest| ==> rest[j] == names[j];
      LateFold(c, done, s, n, rest);
      var late := LateOwners(c.index, n, rest);
      if k in c.index && c.index[k] != n {
        MergeFoldNext(s, late, (n, c.index[k]));
        LateStep(c, done, s, n, k, MergeFold(s, late), late == []);
      } else {
        assert late + [] == late;
      }
    }
  }

  lemma LateStep(c: Rooted, done: set<string>, s: State, n: string, k: string, t: State, first: bool)
    requires IsRooted(c) && IsClean(c, done, s)
    requires done + {n} <= c.root.Keys && n !in done && IsInitial(c.entities, done) && IsInitial(c.entities, done + {n})
    requires IsKeyOf(c.entities, n, k) && k in c.index && c.index[k] != n
    requires if first then t == s else IsClean(c, done + {n}, t)
    ensures IsClean(c, done + {n}, MergeStep(t, n, c.index[k]))
  {
    LateOwner(c, done, n, k);
    hide Before, IsKeyOf, IsRooted, IsClean, IsInitial, ResolveIn, MergeInto, MergeStep;
    if first {
      FirstLate(c, done, s, n, c.index[k]);
    } else {
      CleanResolves(c, done + {n}, t, n);
      CleanResolves(c, done + {n}, t, c.index[k]);
      StepIsIdle(t, n, c.index[k]);
    }
  }

  lemma FirstLate(c: Rooted, done: set<string>, s: State, n: string, o: string)
    requires CanFold(c, done, s, n) && o in done && c.root[o] == c.root[n]
    ensures IsClean(c, done + {n}, MergeStep(s, n, o))
  {
    assert n in c.root;
    hide IsRooted, IsClean, IsInitial, ResolveIn, MergeInto, MergeStep;
    FoldIsClean(c, done, s, n);
    ResolvesItself(s.entities, s.index, n);
    CleanResolves(c, done, s, o);
    StepMerges(s, n, o, n, c.root[n]);
  }

  lemma StepMerges(s: State, alias: string, into: string, a: string, i: string)
    requires ResolveIn(s.entities, s.index, alias) == Some(a) && ResolveIn(s.entities, s.index, into) == Some(i)
    requires a in s.entities && i in s.entities && a != i
    ensures MergeStep(s, alias, into) == MergeInto(s, a, i)
  {
    hide ResolveIn, MergeInto;
  }

  lemma StepIsIdle(s: State, alias: string, into: string)
    requires ResolveIn(s.entities, s.index, alias) == ResolveIn(s.entities, s.index, into)
    ensures MergeStep(s, alias, into) == s
  {
    hide ResolveIn, MergeInto;
  }

  lemma MergedAway(s: State, a: string, i: string)
    requires a in s.entities && i in s.entities && a != i
    ensures a !in MergeInto(s, a, i).entities
  {
    AbsorbedInto(s.entities, a, i);
    hide AbsorbInto;
  }

  lemma LateOwner(c: Rooted, done: set<string>, n: string, k: string)
    requires IsRooted(c)
    requires done + {n} <= c.root.Keys && IsInitial(c.entities, done + {n})
    requires IsKeyOf(c.entities, n, k) && k in c.index && c.index[k] != n
    ensures c.index[k] in done && c.index[k] in c.root && c.root[c.index[k]] == c.root[n] != n
  {
    hide IsKeyOf, SharesKey, ServesEarliest, InMentionOrder, WellNamed, Before, Stays;
    OwnerIsRooted(c, n, k);
    OwnerIsEarliest(c.entities, c.order, c.index, n, k);
    NotStaying(c.entities, c.index[k], n);
  }

  lemma ResolvesItself(entities: Entities, index: AliasIndex, n: string)
    requires n in entities
    ensures ResolveIn(entities, index, n) == Some(n)
  {
  }

  lemma NotStaying(entities: Entities, o: string, n: string)
    requires Before(entities, o, n) && SharesKey(entities, n, o)
    ensures !Stays(entities, n)
  {
    SharesBack(entities, n, o);
  }

  lemma {:induction false} NoLateOwner(index: AliasIndex, n: string, names: seq<string>)
    requires LateOwners(index, n, names) == []
    ensures forall j :: 0 <= j < |names| && EntityKey(names[j]) in index ==> index[EntityKey(names[j])] == n
  {
    hide EntityKey;
    if names != [] {
      var rest := names[..|names| - 1];
      NoLateOwner(index, n, rest);
      assert forall j :: 0 <= j < |rest| ==> rest[j] == names[j];
    }
  }

  // An entity with no late key stays.
  lemma NothingLate(entities: Entities, order: seq<string>, index: AliasIndex, n: string)
    requires WellNamed(entities) && InMentionOrder(entities, order)
    requires ServesEarliest(entities, order, index) && n in entities
    requires LateOwners(index, n, NamesOf(entities, n)) == []
    ensures Stays(entities, n)
  {
    hide EntityKey, LateOwners, NamesOf, Before, IsKeyOf, InMentionOrder;
    NoLateOwner(index, n, NamesOf(entities, n));
    NamesHaveKeys(entities, n);
    forall m | Before(entities, m, n)
      ensures !SharesKey(entities, m, n)
    {
      if SharesKey(entities, m, n) {
        var k :| IsKeyOf(entities, m, k) && IsKeyOf(entities, n, k);
        OwnerIsEarliest(entities, order, index, n, k);
        BeforeKnown(entities, m, n);
        Ordered(entities, order, m);
        assert false;
      }
    }
  }

  lemma Ordered(entities: Entities, order: seq<string>, n: string)
    requires InMentionOrder(entities, order)
    ensures n in order <==> n in entities
  {
  }

  lemma BlockIsClean(c: Rooted, done: set<string>, s: State, n: string)
    requires IsRooted(c) && IsClean(c, done, s)
    requires done + {n} <= c.root.Keys && n !in done && n in c.entities
    requires IsInitial(c.entities, done) && IsInitial(c.entities, done + {n})
    ensures IsClean(c, done + {n}, MergeFold(s, LateOwners(c.index, n, NamesOf(c.entities, n))))
  {
    hide EntityKey, NamesOf, LateOwners, ServesEarliest, InMentionOrder, WellNamed, IsRooting, IsClean, IsInitial,
      IsKeyOf;
    NamesAreKeys(c.entities, n);
    LateFold(c, done, s, n, NamesOf(c.entities, n));
    if LateOwners(c.index, n, NamesOf(c.entities, n)) == [] {
      NothingLate(c.entities, c.order, c.index, n);
      StayingIsClean(c, done, s, n);
    }
  }

  lemma StayingIsClean(c: Rooted, done: set<string>, s: State, n: string)
    requires IsRooting(c.entities, c.root.Keys, c.root) && IsClean(c, done, s)
    requires done + {n} <= c.root.Keys && Stays(c.entities, n)
    ensures IsClean(c, done + {n}, s)
  {
    hide Stays, SharesKey, IsInitial, MergedClasses, Followed;
    assert RootedReps(c.root, done + {n}) == RootedReps(c.root, done);
  }

  function Members(names: seq<string>): set<string> {
    set n | n in names
  }

  lemma InPosition(entities: Entities, order: seq<string>, j: nat, k: nat)
    requires InMentionOrder(entities, order) && j < |order| && k < |order| && Before(entities, order[j], order[k])
    ensures j < k
  {
    hide Before;
    BeforeIsOrder(entities);
  }

  lemma OrderIsInitial(entities: Entities, order: seq<string>, i: nat)
    requires InMentionOrder(entities, order) && i <= |order|
    ensures IsInitial(entities, Members(order[..i]))
  {
    hide Before;
    BeforeIsOrder(entities);
    forall m, n | n in Members(order[..i]) && Before(entities, m, n)
      ensures m in Members(order[..i])
    {
      BeforeKnown(entities, m, n);
      var j :| 0 <= j < |order| && order[j] == m;
      var k :| 0 <= k < i && order[k] == n;
      InPosition(entities, order, j, k);
      assert order[..i][j] == m;
    }
  }

  lemma NextInOrder(entities: Entities, order: seq<string>, i: nat)
    requires InMentionOrder(entities, order) && i < |order|
    ensures Members(order[..i + 1]) == Members(order[..i]) + {order[i]} && order[i] !in Members(order[..i])
  {
    hide Before;
    BeforeIsOrder(entities);
    assert order[..i + 1] == order[..i] + [order[i]];
    assert forall j :: 0 <= j < i ==> Before(entities, order[j], order[i]);
  }

  // Entity after entity is merged into its root.
  lemma {:induction false} FoldIsRooted(c: Rooted, s: State, i: nat)
    requires IsRooted(c) && i <= |c.order| && Members(c.order[..i]) <= c.root.Keys
    requires s.entities == c.entities && s.index == c.index && s.reps == map[]
    requires forall n :: n in c.order[..i] ==> n in c.entities
    ensures IsClean(c, Members(c.order[..i]), MergeFold(s, LateMerges(c.entities, c.index, c.order[..i])))
    decreases i
  {
    hide IsClean, IsRooted, LateOwners, NamesOf, IsInitial;
    if i == 0 {
      StartIsClean(c, s);
      assert Members(c.order[..0]) == {};
    } else {
      hide LateMerges;
      var n := c.order[i - 1];
      assert InMentionOrder(c.entities, c.order) by { RootedOrder(c); }
      hide InMentionOrder;
      NextInOrder(c.entities, c.order, i - 1);
      OrderIsInitial(c.entities, c.order, i - 1);
      OrderIsInitial(c.entities, c.order, i);
      FoldIsRooted(c, s, i - 1);
      MergesUpTo(c.entities, c.index, c.order, i - 1);
      var merges, late := LateMerges(c.entities, c.index, c.order[..i - 1]),
        LateOwners(c.index, n, NamesOf(c.entities, n));
      MergeFoldAppend(s, merges, late);
      hide Members, MergeFold;
      BlockIsClean(c, Members(c.order[..i - 1]), MergeFold(s, merges), n);
    }
  }

  lemma RootedOrder(c: Rooted)
    requires IsRooted(c)
    ensures InMentionOrder(c.entities, c.order)
  {
  }

  lemma StartIsClean(c: Rooted, s: State)
    requires IsRooted(c)
    requires s.entities == c.entities && s.index == c.index && s.reps == map[]
    ensures IsClean(c, {}, s)
  {
    hide WellNamed, MergedClasses, IsRooting;
    InitialClasses(c.entities);
    assert RootedReps(c.root, {}) == map[];
    assert Followed(c.index, map[]) == c.index;
  }

  // Just those entities remain that no earlier one shares a key with, and
  // every key is left with one of them.
  ghost predicate IsResolved(entities: Entities, s: State) {
    AliasExact(s.entities, s.index) && s.entities.Keys == Stayers(entities)
  }

  // Connected entities end up as one, the earliest of them.
  ghost predicate IntoEarliest(entities: Entities, m: Reps) {
    && (forall a, b :: a in entities && b in entities ==> (Rep(m, a) == Rep(m, b) <==> Linked(entities, a, b)))
    && (forall a :: a in entities ==> Rep(m, a) == a || Before(entities, Rep(m, a), a))
  }

  lemma EarliestAreFirsts(entities: Entities, m: Reps, remaining: Entities)
    requires MergedClasses(entities, m, remaining) && IntoEarliest(entities, m)
    ensures remaining.Keys == Firsts(entities)
  {
    hide Linked, Before;
    BeforeIsOrder(entities);
    forall e
      ensures e in remaining <==> e in entities && IsFirst(entities, e)
    {
      if e in entities {
        RemainsOrGone(entities, m, remaining, e);
        RemainIsFirst(entities, m, e);
      }
    }
    hide IsFirst, IntoEarliest;
  }

  lemma RemainIsFirst(entities: Entities, m: Reps, e: string)
    requires IntoEarliest(entities, m) && e in entities
    requires forall x :: x in entities ==> Rep(m, x) in entities && Rep(m, x) !in m
    ensures e !in m <==> IsFirst(entities, e)
  {
    hide Linked, Before;
    BeforeIsOrder(entities);
    if e !in m {
      forall y | y in entities && Linked(entities, e, y)
        ensures y == e || Before(entities, e, y)
      {
        assert Rep(m, e) == Rep(m, y);
      }
    }
    if IsFirst(entities, e) {
      assert Rep(m, Rep(m, e)) == Rep(m, e);
      assert Linked(entities, e, Rep(m, e));
    }
  }

  lemma CleanEntry(c: Rooted, s: State, k: string)
    requires IsRooted(c) && c.root.Keys == c.entities.Keys && IsClean(c, c.entities.Keys, s)
    ensures k in s.index ==> IsKeyOf(s.entities, s.index[k], k)
    ensures forall n :: IsKeyOf(s.entities, n, k) ==> k in s.index && s.index[k] == n
  {
    CleanReps(c, c.entities.Keys, s);
    hide IsRooting, InMentionOrder, ServesEarliest, IsClean, IsKeyOf, WellNamed, ClassHasKey, MergedClasses;
    if k in s.index {
      OwnerHasKey(c.entities, c.order, c.index, k);
      CleanOwner(c, s, c.index[k], k);
    }
    forall n | IsKeyOf(s.entities, n, k)
      ensures k in s.index && s.index[k] == n
    {
      OwnerKnown(s.entities, n, k);
      KeysOfClass(c.entities, s.reps, s.entities, n, k);
      CleanClassKey(c, s, n, k);
    }
  }

  lemma CleanClassKey(c: Rooted, s: State, n: string, k: string)
    requires IsRooted(c) && c.root.Keys == c.entities.Keys && IsClean(c, c.entities.Keys, s)
    requires ClassHasKey(c.entities, s.reps, n, k)
    ensures k in s.index && s.index[k] == n
  {
    hide IsRooting, InMentionOrder, ServesEarliest, IsKeyOf, WellNamed, MergedClasses, RootedReps, Rep, Before;
    var y :| y in c.entities && Rep(s.reps, y) == n && IsKeyOf(c.entities, y, k);
    OwnerIsRooted(c, y, k);
    RootIsRep(c.root, c.entities.Keys, y);
    RootIsRep(c.root, c.entities.Keys, c.index[k]);
  }

  lemma CleanOwner(c: Rooted, s: State, p: string, k: string)
    requires MergedClasses(c.entities, s.reps, s.entities) && IsKeyOf(c.entities, p, k)
    ensures IsKeyOf(s.entities, Rep(s.reps, p), k)
  {
    OwnerKnown(c.entities, p, k);
    assert Rep(s.reps, p) in s.entities;
    hide MergedClasses, IsKeyOf, Rep;
    assert ClassHasKey(c.entities, s.reps, Rep(s.reps, p), k);
    KeysOfClass(c.entities, s.reps, s.entities, Rep(s.reps, p), k);
  }

  lemma ExactByKey(entities: Entities, index: AliasIndex)
    requires forall k :: k in index ==> IsKeyOf(entities, index[k], k)
    requires forall k, n :: IsKeyOf(entities, n, k) ==> k in index && index[k] == n
    ensures AliasExact(entities, index)
  {
    hide EntityKey, IsNameOf;
    forall n, x | n in entities && IsNameOf(entities[n], x)
      ensures EntityKey(x) in index && index[EntityKey(x)] == n
    {
      assert IsKeyOf(entities, n, EntityKey(x));
    }
  }

  lemma CleanIsExact(c: Rooted, s: State)
    requires IsRooted(c) && c.root.Keys == c.entities.Keys && IsClean(c, c.entities.Keys, s)
    ensures AliasExact(s.entities, s.index)
  {
    hide IsRooted, IsClean, IsKeyOf, AliasExact;
    forall k {
      CleanEntry(c, s, k);
    }
    ExactByKey(s.entities, s.index);
  }

  lemma CleanRemainder(c: Rooted, s: State)
    requires IsRooting(c.entities, c.entities.Keys, c.root) && IsClean(c, c.entities.Keys, s)
    ensures s.entities.Keys == Stayers(c.entities)
  {
    CleanReps(c, c.entities.Keys, s);
    hide IsInitial, SharesKey, WellNamed, IsClean, Followed, Before;
    forall n
      ensures n in s.entities <==> n in c.entities && Stays(c.entities, n)
    {
      StaysOrNot(c.entities, c.root, n);
    }
    hide Stays, MergedClasses;
  }

  lemma StaysOrNot(entities: Entities, root: map<string, string>, n: string)
    requires IsRooting(entities, entities.Keys, root)
    ensures n in entities ==> n in root && (Stays(entities, n) <==> root[n] == n)
  {
    hide Stays, SharesKey, IsInitial;
  }

  lemma CleanIsEarliest(c: Rooted, s: State)
    requires IsRooting(c.entities, c.entities.Keys, c.root) && IsClean(c, c.entities.Keys, s)
    ensures IntoEarliest(c.entities, s.reps)
  {
    CleanReps(c, c.entities.Keys, s);
    assert c.root.Keys == c.entities.Keys;
    hide IsRooting, Linked, Before, MergedClasses, WellNamed, RootedReps, Rep, IsClean;
    forall a | a in c.entities {
      RootIsRep(c.root, c.entities.Keys, a);
    }
    forall a, b | a in c.entities && b in c.entities {
      RootIsEarliest(c.entities, c.root, a, b);
    }
    forall a | a in c.entities
      ensures c.root[a] == a || Before(c.entities, c.root[a], a)
    {
      RootIsEarliest(c.entities, c.root, a, a);
    }
  }

  lemma OrderMembers(entities: Entities, order: seq<string>)
    requires InMentionOrder(entities, order)
    ensures Members(order) == entities.Keys && forall n :: n in order ==> n in entities
  {
    hide Before;
  }

  lemma RebuiltIsClean(entities: Entities, mentions: MentionLists, rels: set<Relation>, order: seq<string>,
                       root: map<string, string>)
    returns (c: Rooted)
    requires WellNamed(entities) && InMentionOrder(entities, order) && IsRooting(entities, entities.Keys, root)
    requires forall n :: n in order ==> n in entities
    ensures c.entities == entities && c.root == root && IsRooted(c)
    ensures IsClean(c, entities.Keys, Rebuilt(entities, mentions, rels, order))
  {
    hide WellNamed, ServeAll, DeferAll, AllClaims, LateMerges, ServesEarliest, InMentionOrder, MergeFold, IsClean,
      Members, Before, Stays, SharesKey, IsInitial;
    OrderMembers(entities, order);
    var index := ServeAll(AllClaims(entities, order));
    ServedForRebuild(entities, order);
    assert order[..|order|] == order;
    c := Rooted(entities, order, index, root);
    FoldIsRooted(c, State(entities, mentions, index, rels, map[]), |order|);
  }

  // With single roots the rebuild does what it is meant to.
  lemma SingleRootsResolve(entities: Entities, mentions: MentionLists, rels: set<Relation>, order: seq<string>)
    requires WellNamed(entities) && InMentionOrder(entities, order) && SingleRoots(entities)
    ensures var s := Rebuilt(entities, mentions, rels, order); IsResolved(entities, s) && IntoEarliest(entities, s.reps)
  {
    OrderMembers(entities, order);
    hide WellNamed, SingleRoots, InMentionOrder, AliasExact, Stayers, IsRooting, IntoEarliest, IsClean, IsRooted,
      Rebuilt, Members;
    var root := RootingExists(entities);
    assert root.Keys == entities.Keys by { RootingCovers(entities, root); }
    var c := RebuiltIsClean(entities, mentions, rels, order, root);
    assert IsRooting(c.entities, c.entities.Keys, c.root);
    var t := Rebuilt(entities, mentions, rels, order);
    CleanIsExact(c, t);
    CleanRemainder(c, t);
    CleanIsEarliest(c, t);
  }

  lemma RootingCovers(entities: Entities, root: map<string, string>)
    requires IsRooting(entities, entities.Keys, root)
    ensures root.Keys == entities.Keys
  {
  }

  lemma ExactSharesRep(entities: Entities, m: Reps, after: Entities, index: AliasIndex, a: string, b: string)
    requires MergedClasses(entities, m, after) && AliasExact(after, index) && SharesKey(entities, a, b)
    ensures Rep(m, a) == Rep(m, b)
  {
    var k :| IsKeyOf(entities, a, k) && IsKeyOf(entities, b, k);
    SharingKnown(entities, a, b);
    assert Rep(m, a) in after && Rep(m, b) in after;
    hide MergedClasses, Rep, EntityKey;
    assert ClassHasKey(entities, m, Rep(m, a), k) && ClassHasKey(entities, m, Rep(m, b), k);
    KeysOfClass(entities, m, after, Rep(m, a), k);
    KeysOfClass(entities, m, after, Rep(m, b), k);
    hide ClassHasKey;
    ExactHasKey(after, index, Rep(m, a), k);
    ExactHasKey(after, index, Rep(m, b), k);
  }

  lemma ExactHasKey(entities: Entities, index: AliasIndex, n: string, k: string)
    requires AliasExact(entities, index) && IsKeyOf(entities, n, k)
    ensures k in index && index[k] == n
  {
    hide EntityKey;
    var x :| IsNameOf(entities[n], x) && EntityKey(x) == k;
  }

  // Only with single roots does it.
  lemma ResolvedHasSingleRoots(entities: Entities, s: State)
    requires MergedClasses(entities, s.reps, s.entities) && IsResolved(entities, s)
    ensures SingleRoots(entities)
  {
    var root := map n | n in entities :: Rep(s.reps, n);
    forall a, b | SharesKey(entities, a, b)
      ensures a in entities && b in entities && root[a] == root[b]
    {
      SharingKnown(entities, a, b);
      ExactSharesRep(entities, s.reps, s.entities, s.index, a, b);
    }
    forall n | n in entities
      ensures root[n] in Stayers(entities) && (Stays(entities, n) ==> root[n] == n)
    {
      StayerRemains(entities, s, n);
    }
    forall m, n | Before(entities, m, n) { BeforeKnown(entities, m, n); }
    hide SharesKey, Stays, Before, MergedClasses, AliasExact, SingleRoots, Rep;
    assert IsRooting(entities, entities.Keys, root);
    RootingIsSingle(entities, root);
  }

  lemma StayerRemains(entities: Entities, s: State, n: string)
    requires MergedClasses(entities, s.reps, s.entities) && s.entities.Keys == Stayers(entities) && n in entities
    ensures Rep(s.reps, n) in Stayers(entities) && (Stays(entities, n) ==> Rep(s.reps, n) == n)
  {
    hide Stays, WellNamed, AllStand;
    RemainsOrGone(entities, s.reps, s.entities, n);
  }

  // Just the entities remain that no earlier one shares a key with exactly
  // when every group connected by shared keys has one such entity; then it is
  // the earliest, and what remains of the group.
  lemma RebuildExactlyWhen(entities: Entities, mentions: MentionLists, rels: set<Relation>, order: seq<string>)
    requires WellNamed(entities) && MentionsKnown(entities, mentions)
    requires OnePerTriple(rels) && InMentionOrder(entities, order)
    ensures var s := Rebuilt(entities, mentions, rels, order);
      && (IsResolved(entities, s) <==> SingleRoots(entities))
      && (SingleRoots(entities) ==> IntoEarliest(entities, s.reps) && s.entities.Keys == Firsts(entities))
  {
    hide WellNamed, MentionsKnown, OnePerTriple, Before, SingleRoots, Firsts, IsResolved, IntoEarliest, MergedClasses,
      IsQuotient, MergedMentions, OnlyLinked, OwnersHaveKeys, Rebuilt;
    var s := Rebuilt(entities, mentions, rels, order);
    RebuildTracks(entities, mentions, rels, order);
    if SingleRoots(entities) {
      SingleRootsResolve(entities, mentions, rels, order);
      EarliestAreFirsts(entities, s.reps, s.entities);
    }
    if IsResolved(entities, s) {
      ResolvedHasSingleRoots(entities, s);
    }
  }

  // Entities without aliases go to the earliest with their key.
  ghost predicate AreRepresentatives(entities: Entities, m: Reps) {
    && (forall x :: x in m <==> x in entities && !IsEarliest(entities, x))
    && (forall x :: x in m ==> EntityKey(m[x]) == EntityKey(x) && IsEarliest(entities, m[x]))
  }

  lemma PlainRepresentatives(entities: Entities, m: Reps, remaining: Entities)
    requires WellNamed(entities) && NoAliases(entities)
    requires OnlyLinked(entities, m) && MergedClasses(entities, m, remaining)
    requires remaining.Keys == Stayers(entities)
    ensures AreRepresentatives(entities, m)
  {
    hide EntityKey, NoAliases, WellNamed, MergedClasses, OnlyLinked, Stayers, IsEarliest, Rep;
    forall x | x in entities
      ensures EntityKey(Rep(m, x)) == EntityKey(x) && IsEarliest(entities, Rep(m, x))
      ensures x in m <==> !IsEarliest(entities, x)
    {
      PlainRep(entities, m, remaining, x);
    }
    forall x | x in m
      ensures Rep(m, x) == m[x] && x in entities
    {
      GoneRep(entities, m, remaining, x);
    }
    EarliestKnown(entities);
  }

  lemma GoneRep(original: Entities, m: Reps, entities: Entities, x: string)
    requires MergedClasses(original, m, entities) && x in m
    ensures Rep(m, x) == m[x] && x in original
  {
    hide WellNamed, AllStand, RepsAmong;
  }

  lemma EarliestKnown(entities: Entities)
    ensures forall x :: IsEarliest(entities, x) ==> x in entities
  {
  }

  lemma PlainRep(entities: Entities, m: Reps, remaining: Entities, x: string)
    requires WellNamed(entities) && NoAliases(entities)
    requires OnlyLinked(entities, m) && MergedClasses(entities, m, remaining)
    requires remaining.Keys == Stayers(entities) && x in entities
    ensures EntityKey(Rep(m, x)) == EntityKey(x) && IsEarliest(entities, Rep(m, x))
    ensures x in m <==> !IsEarliest(entities, x)
  {
    PlainKeysAgree(entities, x, Rep(m, x));
    PlainSingleRoots(entities);
    hide EntityKey, NoAliases, WellNamed, Stays, AllStand, Linked, IsEarliest;
  }
}
