// Rebuilding the alias index where no alias has the key of another entity's
// own name: every group connected by shared keys becomes one entity, and
// which one follows from the order in which names are listed.
module Grouping {
  import opened Types
  import opened Names
  import opened Quotient
  import opened DiGraph
  import opened Mentions
  import opened GraphState
  import opened Rebuild
  import opened Reach
  import opened Roots
  import opened Classes
  import opened Merging
  import opened Outcome

  ghost predicate OwnKeysApart(entities: Entities) {
    forall n, m, x :: n in entities && m in entities && n != m && x in entities[n].aliases ==>
      EntityKey(x) != EntityKey(m)
  }

  // The entities mentioned before n.
  ghost function BeforeAll(entities: Entities, n: string): Entities {
    map m | m in entities && Before(entities, m, n) :: entities[m]
  }

  // Name j of n has a key of an earlier entity that is connected with x by
  // shared keys of entities mentioned before n.
  ghost predicate Leads(entities: Entities, n: string, j: nat, x: string)
    requires n in entities
  {
    j < |NamesOf(entities, n)| && exists o :: LeadsOver(entities, n, j, o, x)
  }

  ghost predicate LeadsOver(entities: Entities, n: string, j: nat, o: string, x: string)
    requires n in entities && j < |NamesOf(entities, n)|
  {
    IsKeyOf(BeforeAll(entities, n), o, EntityKey(NamesOf(entities, n)[j])) && Linked(BeforeAll(entities, n), o, x)
  }

  // One of the first j names of n leads to x.
  ghost predicate Reaches(entities: Entities, n: string, j: nat, x: string)
    requires n in entities
  {
    exists i: nat :: i < j && Leads(entities, n, i, x)
  }

  // Once a name of n leads to the earliest of n's group, no later name leads
  // to anything the names so far do not lead to.
  ghost predicate FirstComesLast(entities: Entities) {
    forall n, p: nat, q: nat, e, x ::
      n in entities && p < q && IsFirst(entities, e) && Leads(entities, n, p, e) && Leads(entities, n, q, x) ==>
        Reaches(entities, n, p + 1, x)
  }

  // Stored entities and what the claims of their keys give.
  datatype Claimed = Claimed(entities: Entities, order: seq<string>, index: AliasIndex)

  ghost predicate IsClaimed(c: Claimed) {
    && WellNamed(c.entities) && InMentionOrder(c.entities, c.order) && ServesEarliest(c.entities, c.order, c.index)
    && OwnKeysApart(c.entities)
  }

  // The entity that an entity's own key belongs to has that key as its own.
  lemma OwnKeyOwner(c: Claimed, x: string)
    requires IsClaimed(c) && x in c.entities
    ensures EntityKey(x) in c.index
    ensures var h := c.index[EntityKey(x)];
      && h in c.entities && EntityKey(h) == EntityKey(x) && (h == x || Before(c.entities, h, x))
      && IsKeyOf(c.entities, h, EntityKey(x)) && IsKeyOf(c.entities, x, EntityKey(x))
  {
    OwnKey(c.entities, x);
    OwnerIsEarliest(c.entities, c.order, c.index, x, EntityKey(x));
    OwnerHasKey(c.entities, c.order, c.index, EntityKey(x));
    hide EntityKey, Before, SharesKey, InMentionOrder, ServesEarliest;
    KeyIsOwn(c, c.index[EntityKey(x)], x);
  }

  // Who has an entity's own key has it as its own.
  lemma KeyIsOwn(c: Claimed, y: string, x: string)
    requires IsClaimed(c) && x in c.entities && IsKeyOf(c.entities, y, EntityKey(x))
    ensures y in c.entities && EntityKey(y) == EntityKey(x)
  {
    hide EntityKey, InMentionOrder, ServesEarliest;
    var z :| IsNameOf(c.entities[y], z) && EntityKey(z) == EntityKey(x);
    if y != x && z in c.entities[y].aliases {
      assert false;
    }
  }

  // The index follows the owners of own keys.
  ghost predicate OwnKeysFollow(c: Claimed, s: State) {
    forall x :: x in c.entities && EntityKey(x) in c.index && c.index[EntityKey(x)] == x ==>
      EntityKey(x) in s.index && s.index[EntityKey(x)] == Rep(s.reps, x)
  }

  // Within part, an initial part of the entities, groups became one.
  ghost predicate IsGrouped(c: Claimed, part: Entities, s: State) {
    && MergedClasses(c.entities, s.reps, s.entities) && OwnKeysFollow(c, s)
    && (forall x :: x in s.reps ==> x in part) && (forall x :: x in part ==> Rep(s.reps, x) in part)
    && forall x, y :: x in part && y in part ==> (Rep(s.reps, x) == Rep(s.reps, y) <==> Linked(part, x, y))
  }

  // The merges for the first j names of n were made.
  ghost predicate IsJoining(c: Claimed, n: string, j: nat, s: State)
    requires n in c.entities
  {
    && MergedClasses(c.entities, s.reps, s.entities) && OwnKeysFollow(c, s) && (j == 0 ==> n !in s.reps)
    && RepsWithin(BeforeAll(c.entities, n), n, s.reps) && IsJoined(c.entities, n, j, s.reps)
  }

  ghost predicate RepsWithin(part: Entities, n: string, m: Reps) {
    && (forall x :: x in m ==> x in part || x == n)
    && forall x :: x in part || x == n ==> Rep(m, x) in part || Rep(m, x) == n
  }

  // n came together with all that its first j names lead to.
  ghost predicate IsJoined(entities: Entities, n: string, j: nat, m: Reps)
    requires n in entities
  {
    var part := BeforeAll(entities, n);
    && (forall x :: x in part ==> (Rep(m, x) == Rep(m, n) <==> Reaches(entities, n, j, x)))
    && forall x, y :: x in part && y in part ==>
         (Rep(m, x) == Rep(m, y) <==>
           Linked(part, x, y) || (Reaches(entities, n, j, x) && Reaches(entities, n, j, y)))
  }

  lemma ReachesNext(entities: Entities, n: string, j: nat, x: string)
    requires n in entities
    ensures Reaches(entities, n, j + 1, x) <==> Reaches(entities, n, j, x) || Leads(entities, n, j, x)
    ensures !Reaches(entities, n, 0, x)
  {
    hide Leads;
  }

  lemma ReachesOn(entities: Entities, n: string, j: nat, x: string, y: string)
    requires n in entities && Reaches(entities, n, j, x) && Linked(BeforeAll(entities, n), x, y)
    ensures Reaches(entities, n, j, y)
  {
    hide Linked, BeforeAll, IsKeyOf;
    var i: nat :| i < j && Leads(entities, n, i, x);
    var o :| LeadsOver(entities, n, i, o, x);
    LinkedTransitive(BeforeAll(entities, n), o, x, y);
    assert LeadsOver(entities, n, i, o, y);
    assert Leads(entities, n, i, y);
  }

  lemma BeforeAllKeys(entities: Entities, n: string, o: string, k: string)
    ensures IsKeyOf(BeforeAll(entities, n), o, k) <==> IsKeyOf(entities, o, k) && Before(entities, o, n)
  {
    hide EntityKey, Before;
  }

  // Two earlier entities with one key are connected before n.
  lemma LinkedByKey(part: Entities, x: string, y: string, k: string)
    requires IsKeyOf(part, x, k) && IsKeyOf(part, y, k)
    ensures Linked(part, x, y)
  {
    hide IsKeyOf, Linked;
    LinkedSelf(part, x);
    assert SharesKey(part, x, y);
    LinkedStep(part, x, x, y);
  }

  // Name j leads where the owner of its key leads, if that is not n.
  lemma LeadsByOwner(c: Claimed, n: string, j: nat, x: string)
    requires IsClaimed(c) && n in c.entities && j < |NamesOf(c.entities, n)|
    ensures var k := EntityKey(NamesOf(c.entities, n)[j]);
      && k in c.index && (c.index[k] != n ==> IsKeyOf(BeforeAll(c.entities, n), c.index[k], k))
      && (Leads(c.entities, n, j, x) <==> c.index[k] != n && Linked(BeforeAll(c.entities, n), c.index[k], x))
  {
    var part, k := BeforeAll(c.entities, n), EntityKey(NamesOf(c.entities, n)[j]);
    NamesAreKeys(c.entities, n);
    OwnerIsEarliest(c.entities, c.order, c.index, n, k);
    OwnerHasKey(c.entities, c.order, c.index, k);
    BeforeAllKeys(c.entities, n, c.index[k], k);
    if o :| LeadsOver(c.entities, n, j, o, x) {
      BeforeAllKeys(c.entities, n, o, k);
      OwnerIsEarliest(c.entities, c.order, c.index, o, k);
      hide EntityKey, IsKeyOf, Linked, BeforeAll, NamesOf, ServesEarliest, InMentionOrder, SharesKey, OwnKeysApart,
        WellNamed, Before;
      BeforeIsOrder(c.entities);
      LinkedByKey(part, c.index[k], o, k);
      LinkedTransitive(part, c.index[k], o, x);
    }
    hide EntityKey, IsKeyOf, Linked, BeforeAll, NamesOf, ServesEarliest, InMentionOrder, SharesKey, OwnKeysApart,
      WellNamed, Before;
    if c.index[k] != n && Linked(part, c.index[k], x) {
      assert LeadsOver(c.entities, n, j, c.index[k], x);
    }
  }

  // The first name of n leads to the owner of n's own key.
  lemma OwnKeyLeads(entities: Entities, n: string, j: nat, h: string)
    requires n in entities && j > 0 && IsKeyOf(entities, h, EntityKey(n)) && Before(entities, h, n)
    ensures h in BeforeAll(entities, n) && Reaches(entities, n, j, h)
  {
    var part := BeforeAll(entities, n);
    assert NamesOf(entities, n)[0] == n;
    BeforeAllKeys(entities, n, h, EntityKey(n));
    OwnerKnown(part, h, EntityKey(n));
    LinkedSelf(part, h);
    hide EntityKey, BeforeAll, IsKeyOf, Linked, NamesOf;
    assert LeadsOver(entities, n, 0, h, h);
    assert Leads(entities, n, 0, h);
  }

  // The owner of an entity's own key came together with it.
  lemma OwnerJoined(c: Claimed, n: string, j: nat, s: State, x: string)
    requires IsClaimed(c) && n in c.entities && IsJoined(c.entities, n, j, s.reps)
    requires x in BeforeAll(c.entities, n) || (x == n && j > 0)
    ensures EntityKey(x) in c.index && Rep(s.reps, c.index[EntityKey(x)]) == Rep(s.reps, x)
  {
    assert x in c.entities;
    OwnKeyOwner(c, x);
    var h := c.index[EntityKey(x)];
    hide IsClaimed, EntityKey, Rep, Reaches, Before, IsKeyOf;
    if h != x {
      if x != n {
        OwnersBefore(c, n, x, h, EntityKey(x));
        LinkedByKey(BeforeAll(c.entities, n), h, x, EntityKey(x));
        hide BeforeAll, Linked;
      } else {
        OwnKeyLeads(c.entities, n, j, h);
        hide BeforeAll, Linked;
      }
    }
  }

  lemma OwnersBefore(c: Claimed, n: string, x: string, h: string, k: string)
    requires x in BeforeAll(c.entities, n) && Before(c.entities, h, x)
    requires IsKeyOf(c.entities, h, k) && IsKeyOf(c.entities, x, k)
    ensures h in BeforeAll(c.entities, n) && x in BeforeAll(c.entities, n)
    ensures IsKeyOf(BeforeAll(c.entities, n), h, k) && IsKeyOf(BeforeAll(c.entities, n), x, k)
  {
    hide Before, IsKeyOf;
    BeforeIsOrder(c.entities);
    BeforeKnown(c.entities, h, x);
    BeforeAllKeys(c.entities, n, h, k);
    BeforeAllKeys(c.entities, n, x, k);
  }

  // A name treated so far refers to what became of its entity.
  lemma JoiningResolves(c: Claimed, n: string, j: nat, s: State, x: string)
    requires IsClaimed(c) && n in c.entities && IsJoining(c, n, j, s) && (x in BeforeAll(c.entities, n) || x == n)
    ensures Rep(s.reps, x) in s.entities && ResolveIn(s.entities, s.index, x) == Some(Rep(s.reps, x))
  {
    assert x in c.entities;
    RemainsOrGone(c.entities, s.reps, s.entities, x);
    RepRemains(c.entities, s.reps, s.entities, x);
    if x !in s.entities {
      assert IsJoined(c.entities, n, j, s.reps);
      OwnerJoined(c, n, j, s, x);
      OwnKeyOwner(c, x);
      hide EntityKey, IsClaimed, MergedClasses, IsJoined, RepsWithin, Before, IsKeyOf;
    }
  }

  lemma RepRemains(original: Entities, m: Reps, entities: Entities, x: string)
    requires MergedClasses(original, m, entities) && x in original
    ensures Rep(m, x) in entities && Rep(m, x) !in m
  {
    hide WellNamed, AllStand;
  }

  // Merging a into i keeps own keys right if it takes their owners along.
  ghost predicate TakesOwners(c: Claimed, m: Reps, a: string, i: string) {
    forall y :: y in c.entities && (Rep(m, y) == a || Rep(m, y) == i) && EntityKey(y) in c.index ==>
      Rep(m, c.index[EntityKey(y)]) == a || Rep(m, c.index[EntityKey(y)]) == i
  }

  lemma OwnKeyTaken(c: Claimed, m: Reps, a: string, i: string, x: string)
    requires IsClaimed(c) && CanRedirect(m, a, i) && TakesOwners(c, m, a, i)
    requires x in c.entities && EntityKey(x) in c.index && c.index[EntityKey(x)] == x
    ensures ClassHasKey(c.entities, Redirect(m, a, i), i, EntityKey(x)) <==> Rep(Redirect(m, a, i), x) == i
  {
    var k, after := EntityKey(x), Redirect(m, a, i);
    OwnKeyOwner(c, x);
    RedirectedRep(m, a, i, x);
    hide EntityKey, IsKeyOf, Rep, Redirect, WellNamed, InMentionOrder, ServesEarliest, OwnKeysApart, Before;
    if y :| y in c.entities && Rep(after, y) == i && IsKeyOf(c.entities, y, k) {
      KeyIsOwn(c, y, x);
      RedirectedRep(m, a, i, y);
    }
  }

  lemma OwnKeyStep(c: Claimed, s: State, a: string, i: string, x: string)
    requires IsClaimed(c) && MergedClasses(c.entities, s.reps, s.entities) && OwnKeysFollow(c, s)
    requires a in s.entities && i in s.entities && a != i && TakesOwners(c, s.reps, a, i)
    requires x in c.entities && EntityKey(x) in c.index && c.index[EntityKey(x)] == x
    ensures var t := MergeInto(s, a, i); EntityKey(x) in t.index && t.index[EntityKey(x)] == Rep(t.reps, x)
  {
    var k, merged := EntityKey(x), AbsorbInto(s.entities, a, i);
    RemainingRedirects(c.entities, s.reps, s.entities, a, i);
    OwnKeyTaken(c, s.reps, a, i, x);
    assert k in s.index && s.index[k] == Rep(s.reps, x);
    hide IsClaimed, OwnKeysFollow, TakesOwners, AbsorbInto, MergedIndex, MergedClasses, WellNamed, Redirect, Rep,
      EntityKey, CanRedirect, ClassHasKey, Redirected;
    MergedClassesStep(c.entities, s.reps, s.entities, a, i);
    MergedIndexRedirects(s.entities, s.index, a, i);
    RedirectedRep(s.reps, a, i, x);
    KeysOfClass(c.entities, Redirect(s.reps, a, i), merged, i, k);
    RedirectedEntry(merged, MergedIndex(s.entities, s.index, a, i), i, s.index, a, k);
  }

  lemma RedirectedEntry(entities: Entities, index: AliasIndex, i: string, before: AliasIndex, a: string, k: string)
    requires i in entities && Redirected(entities, index, i, before, a)
    ensures k in index <==> (k in before && before[k] != a) || IsKeyOf(entities, i, k)
    ensures k in index ==> index[k] == if IsKeyOf(entities, i, k) then i else before[k]
  {
    hide EntityKey, IsNameOf;
  }

  lemma OwnKeysStep(c: Claimed, s: State, a: string, i: string)
    requires IsClaimed(c) && MergedClasses(c.entities, s.reps, s.entities) && OwnKeysFollow(c, s)
    requires a in s.entities && i in s.entities && a != i && TakesOwners(c, s.reps, a, i)
    ensures OwnKeysFollow(c, MergeInto(s, a, i))
  {
    forall x | x in c.entities && EntityKey(x) in c.index && c.index[EntityKey(x)] == x {
      OwnKeyStep(c, s, a, i, x);
    }
    hide MergeInto, IsClaimed, MergedClasses, EntityKey, Rep;
  }

  // Name j leads just to what is connected with o.
  ghost predicate LeadsJustTo(entities: Entities, n: string, j: nat, o: string)
    requires n in entities
  {
    o in BeforeAll(entities, n) && forall x :: Leads(entities, n, j, x) <==> Linked(BeforeAll(entities, n), o, x)
  }

  lemma JoinedMore(entities: Entities, n: string, j: nat, m: Reps, o: string)
    requires n in entities && IsJoined(entities, n, j, m) && LeadsJustTo(entities, n, j, o)
    requires CanRedirect(m, Rep(m, n), Rep(m, o))
    ensures IsJoined(entities, n, j + 1, Redirect(m, Rep(m, n), Rep(m, o)))
  {
    var part, a, i := BeforeAll(entities, n), Rep(m, n), Rep(m, o);
    hide Linked, BeforeAll, Rep, Redirect, Reaches, Leads;
    forall x
      ensures Rep(Redirect(m, a, i), x) == if Rep(m, x) == a then i else Rep(m, x)
      ensures Reaches(entities, n, j + 1, x) <==> Reaches(entities, n, j, x) || Linked(part, o, x)
    {
      RedirectedRep(m, a, i, x);
      ReachesNext(entities, n, j, x);
    }
  }

  lemma JoinedAlready(entities: Entities, n: string, j: nat, m: Reps, o: string)
    requires n in entities && IsJoined(entities, n, j, m)
    requires (forall x :: !Leads(entities, n, j, x)) || (LeadsJustTo(entities, n, j, o) && Rep(m, o) == Rep(m, n))
    ensures IsJoined(entities, n, j + 1, m)
  {
    hide Linked, BeforeAll, Rep, Reaches, Leads;
    forall x
      ensures Reaches(entities, n, j + 1, x) <==> Reaches(entities, n, j, x)
    {
      ReachesNext(entities, n, j, x);
      if Leads(entities, n, j, x) {
        ReachesOn(entities, n, j, o, x);
      }
    }
  }

  // The key owner that name j leads to, if it is not n.
  lemma OwnerLed(c: Claimed, n: string, j: nat)
    requires IsClaimed(c) && n in c.entities && j < |NamesOf(c.entities, n)|
    ensures var k := EntityKey(NamesOf(c.entities, n)[j]);
      && k in c.index
      && (c.index[k] == n ==> forall x :: !Leads(c.entities, n, j, x))
      && (c.index[k] != n ==> LeadsJustTo(c.entities, n, j, c.index[k]))
  {
    var k := EntityKey(NamesOf(c.entities, n)[j]);
    LeadsByOwner(c, n, j, n);
    forall x { LeadsByOwner(c, n, j, x); }
    hide Leads, Linked, EntityKey, NamesOf, IsClaimed;
    if c.index[k] != n {
      OwnerKnown(BeforeAll(c.entities, n), c.index[k], k);
    }
  }

  lemma MergeTakesOwners(c: Claimed, n: string, j: nat, s: State, o: string)
    requires IsClaimed(c) && n in c.entities && j < |NamesOf(c.entities, n)| && IsJoining(c, n, j, s)
    requires EntityKey(NamesOf(c.entities, n)[j]) in c.index && c.index[EntityKey(NamesOf(c.entities, n)[j])] == o
    requires o in BeforeAll(c.entities, n)
    ensures TakesOwners(c, s.reps, Rep(s.reps, n), Rep(s.reps, o))
  {
    var m, a, i := s.reps, Rep(s.reps, n), Rep(s.reps, o);
    var part := BeforeAll(c.entities, n);
    assert NamesOf(c.entities, n)[0] == n;
    hide EntityKey, IsClaimed, MergedClasses, OwnKeysFollow, NamesOf, BeforeAll, IsJoined;
    forall y | y in c.entities && (Rep(m, y) == a || Rep(m, y) == i) && EntityKey(y) in c.index
      ensures Rep(m, c.index[EntityKey(y)]) == a || Rep(m, c.index[EntityKey(y)]) == i
    {
      assert y in part || y == n by { RepsStay(part, n, m, y, o); }
      hide RepsWithin, Rep;
      if y in part || j > 0 {
        OwnerJoined(c, n, j, s, y);
      }
    }
  }

  lemma RepsStay(part: Entities, n: string, m: Reps, y: string, o: string)
    requires RepsWithin(part, n, m) && o in part && (Rep(m, y) == Rep(m, n) || Rep(m, y) == Rep(m, o))
    ensures y in part || y == n
  {
  }

  lemma RepsStayWithin(part: Entities, n: string, m: Reps, o: string)
    requires RepsWithin(part, n, m) && o in part && CanRedirect(m, Rep(m, n), Rep(m, o))
    ensures RepsWithin(part, n, Redirect(m, Rep(m, n), Rep(m, o)))
  {
    var a, i := Rep(m, n), Rep(m, o);
    RedirectedKeys(m, a, i);
    forall x
      ensures Rep(Redirect(m, a, i), x) == if Rep(m, x) == a then i else Rep(m, x)
      ensures x in Redirect(m, a, i) <==> x in m || x == a
    {
      RedirectedRep(m, a, i, x);
    }
    hide Redirect, Rep;
  }

  // What treating name j of n makes of the state.
  ghost function NextJoin(c: Claimed, n: string, j: nat, s: State): State
    requires n in c.entities && j < |NamesOf(c.entities, n)|
  {
    var k := EntityKey(NamesOf(c.entities, n)[j]);
    if k in c.index && c.index[k] != n then MergeStep(s, n, c.index[k]) else s
  }

  // Treating name j does nothing, or takes what n belongs to into another
  // entity that the name leads to.
  ghost predicate IdlesOrMoves(c: Claimed, n: string, j: nat, s: State, t: State)
    requires n in c.entities
  {
    t == s || exists o :: MovesInto(c, n, j, s, t, o)
  }

  ghost predicate MovesInto(c: Claimed, n: string, j: nat, s: State, t: State, o: string)
    requires n in c.entities
  {
    && Leads(c.entities, n, j, o) && o in BeforeAll(c.entities, n) && Rep(s.reps, o) != Rep(s.reps, n)
    && t.reps == Redirect(s.reps, Rep(s.reps, n), Rep(s.reps, o)) && Rep(s.reps, n) !in t.entities
  }

  lemma JoinStep(c: Claimed, n: string, j: nat, s: State)
    requires IsClaimed(c) && n in c.entities && j < |NamesOf(c.entities, n)| && IsJoining(c, n, j, s)
    ensures IsJoining(c, n, j + 1, NextJoin(c, n, j, s)) && IdlesOrMoves(c, n, j, s, NextJoin(c, n, j, s))
  {
    OwnerLed(c, n, j);
    var o := c.index[EntityKey(NamesOf(c.entities, n)[j])];
    if o == n {
      JoinedAlready(c.entities, n, j, s.reps, o);
    } else {
      JoinWith(c, n, j, s, o);
    }
    hide IsClaimed, EntityKey, NamesOf, MergeStep, MergedClasses, OwnKeysFollow, RepsWithin, IsJoined, MovesInto;
  }

  lemma JoinWith(c: Claimed, n: string, j: nat, s: State, o: string)
    requires IsClaimed(c) && n in c.entities && j < |NamesOf(c.entities, n)| && IsJoining(c, n, j, s)
    requires EntityKey(NamesOf(c.entities, n)[j]) in c.index && c.index[EntityKey(NamesOf(c.entities, n)[j])] == o
    requires o != n && LeadsJustTo(c.entities, n, j, o)
    ensures IsJoining(c, n, j + 1, MergeStep(s, n, o)) && IdlesOrMoves(c, n, j, s, MergeStep(s, n, o))
  {
    hide IsClaimed, EntityKey, BeforeAll, NamesOf, ResolveIn, MergeStep, Linked, IsJoined, Rep, IsJoining, Leads;
    assert o in BeforeAll(c.entities, n);
    JoiningResolves(c, n, j, s, n);
    JoiningResolves(c, n, j, s, o);
    if Rep(s.reps, n) == Rep(s.reps, o) {
      StepIsIdle(s, n, o);
      JoinIdles(c, n, j, s, o);
    } else {
      StepMerges(s, n, o, Rep(s.reps, n), Rep(s.reps, o));
      JoinMerge(c, n, j, s, o);
      JoinMoves(c, n, j, s, o);
    }
  }

  lemma JoinIdles(c: Claimed, n: string, j: nat, s: State, o: string)
    requires n in c.entities && IsJoining(c, n, j, s) && LeadsJustTo(c.entities, n, j, o)
    requires Rep(s.reps, n) == Rep(s.reps, o)
    ensures IsJoining(c, n, j + 1, s)
  {
    JoinedAlready(c.entities, n, j, s.reps, o);
    hide IsJoined, RepsWithin, MergedClasses, OwnKeysFollow;
  }

  lemma JoinMoves(c: Claimed, n: string, j: nat, s: State, o: string)
    requires n in c.entities && LeadsJustTo(c.entities, n, j, o)
    requires Rep(s.reps, n) in s.entities && Rep(s.reps, o) in s.entities && Rep(s.reps, n) != Rep(s.reps, o)
    ensures MovesInto(c, n, j, s, MergeInto(s, Rep(s.reps, n), Rep(s.reps, o)), o)
  {
    LinkedSelf(BeforeAll(c.entities, n), o);
    MergedAway(s, Rep(s.reps, n), Rep(s.reps, o));
    hide BeforeAll, Linked, Leads, Rep, AbsorbInto, MergedIndex, Merged, MoveMentions, Redirect;
  }

  lemma JoinMerge(c: Claimed, n: string, j: nat, s: State, o: string)
    requires IsClaimed(c) && n in c.entities && j < |NamesOf(c.entities, n)| && IsJoining(c, n, j, s)
    requires EntityKey(NamesOf(c.entities, n)[j]) in c.index && c.index[EntityKey(NamesOf(c.entities, n)[j])] == o
    requires o in BeforeAll(c.entities, n) && LeadsJustTo(c.entities, n, j, o)
    requires Rep(s.reps, n) in s.entities && Rep(s.reps, o) in s.entities && Rep(s.reps, n) != Rep(s.reps, o)
    ensures IsJoining(c, n, j + 1, MergeInto(s, Rep(s.reps, n), Rep(s.reps, o)))
  {
    var a, i := Rep(s.reps, n), Rep(s.reps, o);
    RemainingRedirects(c.entities, s.reps, s.entities, a, i);
    MergeTakesOwners(c, n, j, s, o);
    hide IsClaimed, EntityKey, BeforeAll, NamesOf, LeadsJustTo, Linked, IsJoined, Rep, RepsWithin, MergedClasses,
      OwnKeysFollow, TakesOwners, Redirect, AbsorbInto, MergedIndex, Merged, MoveMentions, CanRedirect;
    MergedClassesStep(c.entities, s.reps, s.entities, a, i);
    OwnKeysStep(c, s, a, i);
    RepsStayWithin(BeforeAll(c.entities, n), n, s.reps, o);
    JoinedMore(c.entities, n, j, s.reps, o);
  }

  // The state after the first j names of n were treated.
  ghost function JoinFold(c: Claimed, n: string, j: nat, s: State): State
    requires n in c.entities && j <= |NamesOf(c.entities, n)|
  {
    if j == 0 then s else NextJoin(c, n, j - 1, JoinFold(c, n, j - 1, s))
  }

  lemma {:induction false} JoinFoldIs(c: Claimed, n: string, j: nat, s: State)
    requires n in c.entities && j <= |NamesOf(c.entities, n)|
    ensures JoinFold(c, n, j, s) == MergeFold(s, LateOwners(c.index, n, NamesOf(c.entities, n)[..j]))
    decreases j
  {
    hide EntityKey, NamesOf, MergeStep;
    if j > 0 {
      var names, late := NamesOf(c.entities, n), LateOwners(c.index, n, NamesOf(c.entities, n)[..j - 1]);
      JoinFoldIs(c, n, j - 1, s);
      assert names[..j][..j - 1] == names[..j - 1] && names[..j][j - 1] == names[j - 1];
      var k := EntityKey(names[j - 1]);
      if k in c.index && c.index[k] != n {
        MergeFoldNext(s, late, (n, c.index[k]));
      } else {
        assert late + [] == late;
      }
    }
  }

  lemma {:induction false} JoinAll(c: Claimed, n: string, j: nat, s: State)
    requires IsClaimed(c) && n in c.entities && j <= |NamesOf(c.entities, n)| && IsJoining(c, n, 0, s)
    ensures IsJoining(c, n, j, JoinFold(c, n, j, s))
    decreases j
  {
    hide IsClaimed, NamesOf, IsJoining, NextJoin;
    if j > 0 {
      JoinAll(c, n, j - 1, s);
      JoinStep(c, n, j - 1, JoinFold(c, n, j - 1, s));
    }
  }

  // part with n.
  ghost function WithNext(entities: Entities, n: string): Entities
    requires n in entities
  {
    BeforeAll(entities, n)[n := entities[n]]
  }

  lemma KeysWithNext(entities: Entities, n: string, x: string, k: string)
    requires n in entities
    ensures IsKeyOf(WithNext(entities, n), x, k) <==>
      if x == n then IsKeyOf(entities, n, k) else IsKeyOf(BeforeAll(entities, n), x, k)
  {
    hide EntityKey, Before;
  }

  lemma SharesWithNext(entities: Entities, n: string, x: string, y: string)
    requires n in entities && x != n && y != n
    ensures SharesKey(WithNext(entities, n), x, y) <==> SharesKey(BeforeAll(entities, n), x, y)
  {
    forall k
      ensures IsKeyOf(WithNext(entities, n), x, k) <==> IsKeyOf(BeforeAll(entities, n), x, k)
      ensures IsKeyOf(WithNext(entities, n), y, k) <==> IsKeyOf(BeforeAll(entities, n), y, k)
    {
      KeysWithNext(entities, n, x, k);
      KeysWithNext(entities, n, y, k);
    }
    hide IsKeyOf, WithNext, BeforeAll;
  }

  // What shares a key with n is led to by one of n's names.
  lemma NextShares(entities: Entities, n: string, x: string)
    requires WellNamed(entities) && n in entities && x != n
    ensures SharesKey(WithNext(entities, n), n, x) ==>
      x in BeforeAll(entities, n) && Reaches(entities, n, |NamesOf(entities, n)|, x)
  {
    var part := BeforeAll(entities, n);
    if k :| IsKeyOf(WithNext(entities, n), n, k) && IsKeyOf(WithNext(entities, n), x, k) {
      KeysWithNext(entities, n, n, k);
      KeysWithNext(entities, n, x, k);
      NamesHaveKeys(entities, n);
      OwnerKnown(part, x, k);
      LinkedSelf(part, x);
      hide EntityKey, IsKeyOf, Linked, BeforeAll, WithNext, NamesOf;
      var j :| 0 <= j < |NamesOf(entities, n)| && EntityKey(NamesOf(entities, n)[j]) == k;
      assert LeadsOver(entities, n, j, x, x);
      assert Leads(entities, n, j, x);
    }
  }

  // x is connected with u by shared keys of entities before n and n.
  ghost predicate ConnectsTo(entities: Entities, n: string, x: string, u: string)
    requires n in entities
  {
    var part, l := BeforeAll(entities, n), |NamesOf(entities, n)|;
    if u == n then Reaches(entities, n, l, x)
    else u in part && (Linked(part, x, u) || (Reaches(entities, n, l, x) && Reaches(entities, n, l, u)))
  }

  // A path over earlier entities and n, seen from an earlier one.
  lemma {:induction false} PathWithNext(entities: Entities, n: string, x: string, u: string, d: nat)
    requires WellNamed(entities) && n in entities && x in BeforeAll(entities, n)
    requires Within(Sharing(WithNext(entities, n)), x, u, d)
    ensures ConnectsTo(entities, n, x, u)
    decreases d
  {
    var part, l := BeforeAll(entities, n), |NamesOf(entities, n)|;
    NotBeforeItself(entities, n);
    LinkedSelf(part, x);
    hide WellNamed, SharesKey, Within, Linked, BeforeAll, WithNext, NamesOf, Reaches;
    NoStep(Sharing(WithNext(entities, n)), x, u);
    if d > 0 {
      var w := StepBefore(Sharing(WithNext(entities, n)), x, u, d);
      PathWithNext(entities, n, x, w, d - 1);
      if w != u {
        LastWithNext(entities, n, x, w, u);
      }
    }
  }

  lemma NotBeforeItself(entities: Entities, n: string)
    ensures n !in BeforeAll(entities, n)
  {
    hide Before;
    BeforeIsOrder(entities);
  }

  lemma LastWithNext(entities: Entities, n: string, x: string, w: string, u: string)
    requires WellNamed(entities) && n in entities && x in BeforeAll(entities, n) && w != u
    requires SharesKey(WithNext(entities, n), w, u)
    requires ConnectsTo(entities, n, x, w)
    ensures ConnectsTo(entities, n, x, u)
  {
    var part, l := BeforeAll(entities, n), |NamesOf(entities, n)|;
    hide WellNamed, SharesKey, Linked, BeforeAll, WithNext, NamesOf, Reaches;
    SharesBack(WithNext(entities, n), w, u);
    if w == n {
      NextShares(entities, n, u);
    } else if u == n {
      NextShares(entities, n, w);
      if Linked(part, x, w) {
        LinkedSymmetric(part, x, w);
        ReachesOn(entities, n, l, w, x);
      }
    } else {
      SharesWithNext(entities, n, w, u);
      SharingKnown(part, w, u);
      if Linked(part, x, w) {
        LinkedStep(part, x, w, u);
      } else {
        LinkedSelf(part, w);
        LinkedStep(part, w, w, u);
        ReachesOn(entities, n, l, w, u);
      }
    }
  }

  lemma {:induction false} LinkedMore(part: Entities, more: Entities, x: string, y: string, d: nat)
    requires forall a, b :: SharesKey(part, a, b) ==> SharesKey(more, a, b)
    requires Within(Sharing(part), x, y, d)
    ensures Linked(more, x, y)
    decreases d
  {
    hide SharesKey, Within, Linked;
    LinkedSelf(more, x);
    NoStep(Sharing(part), x, y);
    if d > 0 {
      var w := StepBefore(Sharing(part), x, y, d);
      LinkedMore(part, more, x, w, d - 1);
      if w != y {
        LinkedStep(more, x, w, y);
      }
    }
  }

  lemma LinkedWithNext(entities: Entities, n: string, x: string, y: string)
    requires n in entities && Linked(BeforeAll(entities, n), x, y)
    ensures Linked(WithNext(entities, n), x, y)
  {
    var part, more := BeforeAll(entities, n), WithNext(entities, n);
    NotBeforeItself(entities, n);
    forall a, b | SharesKey(part, a, b)
      ensures SharesKey(more, a, b)
    {
      SharingKnown(part, a, b);
      SharesWithNext(entities, n, a, b);
    }
    hide SharesKey;
    var d: nat :| Within(Sharing(part), x, y, d);
    LinkedMore(part, more, x, y, d);
  }

  lemma ReachedIsLinked(entities: Entities, n: string, j: nat, x: string)
    requires WellNamed(entities) && n in entities && Reaches(entities, n, j, x)
    ensures Linked(WithNext(entities, n), n, x)
  {
    var part, more := BeforeAll(entities, n), WithNext(entities, n);
    NotBeforeItself(entities, n);
    hide WellNamed, EntityKey, Linked, BeforeAll, WithNext, NamesOf, IsKeyOf;
    var i: nat :| i < j && Leads(entities, n, i, x);
    var o :| LeadsOver(entities, n, i, o, x);
    var k := EntityKey(NamesOf(entities, n)[i]);
    NamesAreKeys(entities, n);
    OwnerKnown(part, o, k);
    KeysWithNext(entities, n, n, k);
    KeysWithNext(entities, n, o, k);
    LinkedByKey(more, n, o, k);
    LinkedWithNext(entities, n, o, x);
    LinkedTransitive(more, n, o, x);
  }

  // Groups among the entities up to n.
  lemma GroupsWithNext(entities: Entities, n: string, x: string, y: string)
    requires WellNamed(entities) && n in entities && x in BeforeAll(entities, n)
    ensures var l := |NamesOf(entities, n)|;
      && (Linked(WithNext(entities, n), x, n) <==> Reaches(entities, n, l, x))
      && (y in BeforeAll(entities, n) ==>
           (Linked(WithNext(entities, n), x, y) <==>
             Linked(BeforeAll(entities, n), x, y) || (Reaches(entities, n, l, x) && Reaches(entities, n, l, y))))
  {
    var part, more, l := BeforeAll(entities, n), WithNext(entities, n), |NamesOf(entities, n)|;
    NotBeforeItself(entities, n);
    if Linked(more, x, n) {
      var d: nat :| Within(Sharing(more), x, n, d);
      PathWithNext(entities, n, x, n, d);
    }
    if Linked(more, x, y) && y != n {
      var d: nat :| Within(Sharing(more), x, y, d);
      PathWithNext(entities, n, x, y, d);
    }
    hide WellNamed, Linked, BeforeAll, WithNext, NamesOf, Reaches;
    if Reaches(entities, n, l, x) {
      ReachedIsLinked(entities, n, l, x);
      LinkedSymmetric(more, n, x);
      if Reaches(entities, n, l, y) {
        ReachedIsLinked(entities, n, l, y);
        LinkedTransitive(more, x, n, y);
      }
    }
    if Linked(part, x, y) {
      LinkedWithNext(entities, n, x, y);
    }
  }

  lemma StartJoining(c: Claimed, n: string, s: State)
    requires n in c.entities && IsGrouped(c, BeforeAll(c.entities, n), s)
    ensures IsJoining(c, n, 0, s)
  {
    NotBeforeItself(c.entities, n);
    hide BeforeAll, Linked, Leads, MergedClasses, OwnKeysFollow;
  }

  lemma EndJoining(c: Claimed, n: string, s: State)
    requires WellNamed(c.entities) && n in c.entities && IsJoining(c, n, |NamesOf(c.entities, n)|, s)
    ensures IsGrouped(c, WithNext(c.entities, n), s)
  {
    hide RepsWithin, IsJoined, MergedClasses, OwnKeysFollow, Linked, BeforeAll, WithNext, Rep, WellNamed, NamesOf;
    EndWithin(c.entities, n, s.reps);
    forall x, y | x in WithNext(c.entities, n) && y in WithNext(c.entities, n)
      ensures Rep(s.reps, x) == Rep(s.reps, y) <==> Linked(WithNext(c.entities, n), x, y)
    {
      EndGroups(c, n, s, x, y);
    }
  }

  lemma EndWithin(entities: Entities, n: string, m: Reps)
    requires n in entities && RepsWithin(BeforeAll(entities, n), n, m)
    ensures forall x :: x in m ==> x in WithNext(entities, n)
    ensures forall x :: x in WithNext(entities, n) ==> Rep(m, x) in WithNext(entities, n)
  {
    assert forall x :: x in WithNext(entities, n) <==> x in BeforeAll(entities, n) || x == n;
    hide BeforeAll, WithNext, Rep;
  }

  lemma EndGroups(c: Claimed, n: string, s: State, x: string, y: string)
    requires WellNamed(c.entities) && n in c.entities && IsJoined(c.entities, n, |NamesOf(c.entities, n)|, s.reps)
    requires x in WithNext(c.entities, n) && y in WithNext(c.entities, n)
    ensures Rep(s.reps, x) == Rep(s.reps, y) <==> Linked(WithNext(c.entities, n), x, y)
  {
    var part, more := BeforeAll(c.entities, n), WithNext(c.entities, n);
    assert (x in part || x == n) && (y in part || y == n);
    LinkedSelf(more, n);
    hide WithNext, BeforeAll, Linked, Reaches, NamesOf, Rep, WellNamed;
    if x in part {
      GroupsWithNext(c.entities, n, x, y);
    }
    if x == n && y in part {
      GroupsWithNext(c.entities, n, y, x);
      if Linked(more, x, y) {
        LinkedSymmetric(more, x, y);
      }
      if Linked(more, y, x) {
        LinkedSymmetric(more, y, x);
      }
    }
    NotBeforeItself(c.entities, n);
  }

  lemma BlockGroups(c: Claimed, n: string, s: State)
    requires IsClaimed(c) && n in c.entities && IsGrouped(c, BeforeAll(c.entities, n), s)
    ensures IsGrouped(c, WithNext(c.entities, n), MergeFold(s, LateOwners(c.index, n, NamesOf(c.entities, n))))
  {
    var l := |NamesOf(c.entities, n)|;
    assert NamesOf(c.entities, n)[..l] == NamesOf(c.entities, n);
    assert WellNamed(c.entities) by { ClaimedNamed(c); }
    hide IsClaimed, NamesOf, IsGrouped, IsJoining, WithNext, BeforeAll, WellNamed, JoinFold, MergeFold, LateOwners;
    StartJoining(c, n, s);
    JoinAll(c, n, l, s);
    EndJoining(c, n, JoinFold(c, n, l, s));
    JoinFoldIs(c, n, l, s);
  }

  lemma ClaimedNamed(c: Claimed)
    requires IsClaimed(c)
    ensures WellNamed(c.entities) && InMentionOrder(c.entities, c.order)
  {
  }

  // The entities of the first i names of the mention order.
  ghost function UpTo(entities: Entities, order: seq<string>, i: nat): Entities
    requires i <= |order| && forall n :: n in order ==> n in entities
  {
    map n | n in order[..i] :: entities[n]
  }

  lemma UpToNext(entities: Entities, order: seq<string>, i: nat)
    requires InMentionOrder(entities, order) && i < |order|
    ensures order[i] in entities && forall n :: n in order ==> n in entities
    ensures UpTo(entities, order, i) == BeforeAll(entities, order[i])
    ensures UpTo(entities, order, i + 1) == WithNext(entities, order[i])
  {
    OrderMembers(entities, order);
    OrderIsInitial(entities, order, i);
    NextInOrder(entities, order, i);
    assert order[i] in order;
    hide Before;
    forall m | m in entities
      ensures m in order[..i] <==> Before(entities, m, order[i])
    {
      InPrefix(entities, order, i, m);
    }
    assert UpTo(entities, order, i) == BeforeAll(entities, order[i]);
    assert forall m :: m in order[..i + 1] <==> m in order[..i] || m == order[i];
  }

  lemma InPrefix(entities: Entities, order: seq<string>, i: nat, m: string)
    requires InMentionOrder(entities, order) && i < |order| && m in entities
    ensures m in order[..i] <==> Before(entities, m, order[i])
  {
    hide Before;
    var j :| 0 <= j < |order| && order[j] == m;
    BeforeIsOrder(entities);
    if j < i {
      assert order[..i][j] == m;
    } else {
      assert forall k :: 0 <= k < i ==> Before(entities, order[k], order[j]);
      if Before(entities, m, order[i]) {
        InPosition(entities, order, j, i);
        assert false;
      }
    }
  }

  // Entity after entity, groups become one.
  lemma {:induction false} FoldGroups(c: Claimed, s: State, i: nat)
    requires IsClaimed(c) && i <= |c.order| && forall n :: n in c.order ==> n in c.entities
    requires s.entities == c.entities && s.index == c.index && s.reps == map[]
    requires forall n :: n in c.order[..i] ==> n in c.entities
    ensures IsGrouped(c, UpTo(c.entities, c.order, i), MergeFold(s, LateMerges(c.entities, c.index, c.order[..i])))
    decreases i
  {
    hide IsGrouped, UpTo, WithNext, BeforeAll, LateOwners, NamesOf;
    if i == 0 {
      StartGroups(c, s);
      assert c.order[..0] == [];
    } else {
      var n := c.order[i - 1];
      FoldGroups(c, s, i - 1);
      ClaimedNamed(c);
      hide IsClaimed, InMentionOrder, WellNamed;
      UpToNext(c.entities, c.order, i - 1);
      MergesUpTo(c.entities, c.index, c.order, i - 1);
      MergeFoldAppend(s, LateMerges(c.entities, c.index, c.order[..i - 1]),
        LateOwners(c.index, n, NamesOf(c.entities, n)));
      hide LateMerges, MergeFold;
      BlockGroups(c, n, MergeFold(s, LateMerges(c.entities, c.index, c.order[..i - 1])));
    }
  }

  lemma StartGroups(c: Claimed, s: State)
    requires IsClaimed(c) && s.entities == c.entities && s.index == c.index && s.reps == map[]
    requires forall n :: n in c.order ==> n in c.entities
    ensures IsGrouped(c, UpTo(c.entities, c.order, 0), s)
  {
    hide InMentionOrder, ServesEarliest, OwnKeysApart, MergedClasses, EntityKey;
    InitialClasses(c.entities);
  }

  // Connected entities ended up as one, others did not.
  ghost predicate OnePerGroup(entities: Entities, m: Reps) {
    forall a, b :: a in entities && b in entities ==> (Rep(m, a) == Rep(m, b) <==> Linked(entities, a, b))
  }

  lemma GroupedKeyOwner(entities: Entities, s: State, n: string, k: string)
    requires MergedClasses(entities, s.reps, s.entities) && OnePerGroup(entities, s.reps)
    requires OwnersHaveKeys(s.entities, s.index) && (forall y :: IsKeyOf(entities, y, k) ==> k in s.index)
    requires IsKeyOf(s.entities, n, k)
    ensures k in s.index && s.index[k] == n
  {
    OwnerKnown(s.entities, n, k);
    KeysOfClass(entities, s.reps, s.entities, n, k);
    hide MergedClasses, IsKeyOf, Linked, Rep;
    var y :| y in entities && Rep(s.reps, y) == n && IsKeyOf(entities, y, k);
    OwnerKnown(s.entities, s.index[k], k);
    KeysOfClass(entities, s.reps, s.entities, s.index[k], k);
    var z :| z in entities && Rep(s.reps, z) == s.index[k] && IsKeyOf(entities, z, k);
    LinkedByKey(entities, y, z, k);
  }

  lemma GroupedIsExact(entities: Entities, s: State)
    requires MergedClasses(entities, s.reps, s.entities) && OnePerGroup(entities, s.reps)
    requires OwnersHaveKeys(s.entities, s.index) && forall y, k :: IsKeyOf(entities, y, k) ==> k in s.index
    ensures AliasExact(s.entities, s.index)
  {
    hide MergedClasses, IsKeyOf, OnePerGroup;
    forall k, n | IsKeyOf(s.entities, n, k)
      ensures k in s.index && s.index[k] == n
    {
      GroupedKeyOwner(entities, s, n, k);
    }
    ExactByKey(s.entities, s.index);
  }

  ghost predicate FirstsRemain(entities: Entities, m: Reps) {
    forall e :: IsFirst(entities, e) ==> e !in m
  }

  lemma LinkedInPart(part: Entities, o: string, x: string)
    requires Linked(part, o, x) && o in part
    ensures x in part
  {
    var d: nat :| Within(Sharing(part), o, x, d);
    LinkedBackInPart(part, o, x, d);
  }

  lemma {:induction false} LinkedBackInPart(part: Entities, o: string, x: string, d: nat)
    requires Within(Sharing(part), o, x, d) && o in part
    ensures x in part
    decreases d
  {
    hide SharesKey, Within;
    NoStep(Sharing(part), o, x);
    if d > 0 {
      var u := StepBefore(Sharing(part), o, x, d);
      LinkedBackInPart(part, o, u, d - 1);
      if u != x {
        SharingKnown(part, u, x);
      }
    }
  }

  // What a name of n leads to is mentioned before n and connected with it.
  lemma LedIsLinked(entities: Entities, n: string, j: nat, x: string)
    requires WellNamed(entities) && n in entities && Leads(entities, n, j, x)
    ensures x in BeforeAll(entities, n) && Linked(entities, n, x) && Before(entities, x, n)
  {
    var part := BeforeAll(entities, n);
    var o :| LeadsOver(entities, n, j, o, x);
    var k := EntityKey(NamesOf(entities, n)[j]);
    BeforeAllKeys(entities, n, o, k);
    NamesAreKeys(entities, n);
    OwnerKnown(part, o, k);
    LinkedInPart(part, o, x);
    hide WellNamed, EntityKey, IsKeyOf, Linked, NamesOf, Before;
    LinkedByKey(entities, n, o, k);
    assert Linked(part, o, x);
    LinkedFromPart(entities, n, o, x);
    LinkedTransitive(entities, n, o, x);
  }

  lemma LinkedFromPart(entities: Entities, n: string, x: string, y: string)
    requires Linked(BeforeAll(entities, n), x, y)
    ensures Linked(entities, x, y)
  {
    var part := BeforeAll(entities, n);
    forall a, b | SharesKey(part, a, b)
      ensures SharesKey(entities, a, b)
    {
      var k :| IsKeyOf(part, a, k) && IsKeyOf(part, b, k);
      BeforeAllKeys(entities, n, a, k);
      BeforeAllKeys(entities, n, b, k);
    }
    hide SharesKey;
    var d: nat :| Within(Sharing(part), x, y, d);
    LinkedMore(part, entities, x, y, d);
  }

  // n, if it is not alone so far, and the earliest it has joined are not
  // taken into another entity.
  lemma MoverIsNotFirst(c: Claimed, n: string, j: nat, s: State, o: string)
    requires IsClaimed(c) && n in c.entities && j < |NamesOf(c.entities, n)| && IsJoining(c, n, j, s)
    requires FirstComesLast(c.entities) && Leads(c.entities, n, j, o) && Rep(s.reps, o) != Rep(s.reps, n)
    requires Rep(s.reps, n) in s.entities
    ensures !IsFirst(c.entities, Rep(s.reps, n))
  {
    var a := Rep(s.reps, n);
    ClaimedNamed(c);
    LedIsLinked(c.entities, n, j, o);
    assert IsJoined(c.entities, n, j, s.reps) && (a in BeforeAll(c.entities, n) || a == n);
    assert MergedClasses(c.entities, s.reps, s.entities);
    hide IsClaimed, IsJoining, NamesOf, BeforeAll, Linked, Leads, WellNamed, InMentionOrder, FirstComesLast, Reaches;
    if IsFirst(c.entities, a) {
      if a == n {
        BeforeIsOrder(c.entities);
        hide Before;
        BeforeKnown(c.entities, o, n);
        assert false;
      } else {
        RemainsOrGone(c.entities, s.reps, s.entities, a);
        hide MergedClasses, Before;
        FirstReachesAll(c.entities, n, j, a, o);
        assert false;
      }
    }
  }

  lemma FirstReachesAll(entities: Entities, n: string, j: nat, e: string, o: string)
    requires n in entities && FirstComesLast(entities) && IsFirst(entities, e)
    requires Reaches(entities, n, j, e) && Leads(entities, n, j, o)
    ensures Reaches(entities, n, j, o)
  {
    hide IsFirst, Leads;
    var p: nat :| p < j && Leads(entities, n, p, e);
    assert Reaches(entities, n, p + 1, o);
    ReachesLater(entities, n, p + 1, j, o);
  }

  lemma ReachesLater(entities: Entities, n: string, i: nat, j: nat, x: string)
    requires n in entities && i <= j && Reaches(entities, n, i, x)
    ensures Reaches(entities, n, j, x)
  {
    hide Leads;
  }

  lemma FirstsRemainNext(c: Claimed, n: string, j: nat, s: State, t: State)
    requires IsClaimed(c) && n in c.entities && j < |NamesOf(c.entities, n)| && IsJoining(c, n, j, s)
    requires FirstComesLast(c.entities) && FirstsRemain(c.entities, s.reps) && IdlesOrMoves(c, n, j, s, t)
    ensures FirstsRemain(c.entities, t.reps)
  {
    hide IsClaimed, FirstComesLast, FirstsRemain, IsJoining, NamesOf, Leads, BeforeAll, Rep, Redirect, IsFirst,
      ResolveIn;
    JoiningResolves(c, n, j, s, n);
    if t != s {
      var o :| MovesInto(c, n, j, s, t, o);
      MoverIsNotFirst(c, n, j, s, o);
      FirstsRemainMoved(c.entities, s.reps, Rep(s.reps, n), Rep(s.reps, o));
    }
  }

  lemma FirstsRemainMoved(entities: Entities, m: Reps, a: string, i: string)
    requires FirstsRemain(entities, m) && !IsFirst(entities, a)
    ensures FirstsRemain(entities, Redirect(m, a, i))
  {
    RedirectedKeys(m, a, i);
    hide Redirect, IsFirst;
    assert forall x :: x in Redirect(m, a, i) ==> x in m || x == a;
  }

  lemma {:induction false} JoinKeepsFirsts(c: Claimed, n: string, j: nat, s: State)
    requires IsClaimed(c) && n in c.entities && j <= |NamesOf(c.entities, n)| && IsJoining(c, n, 0, s)
    requires FirstComesLast(c.entities) && FirstsRemain(c.entities, s.reps)
    ensures FirstsRemain(c.entities, JoinFold(c, n, j, s).reps)
    decreases j
  {
    hide IsClaimed, NamesOf, IsJoining, NextJoin, FirstComesLast, FirstsRemain, IdlesOrMoves;
    if j > 0 {
      JoinKeepsFirsts(c, n, j - 1, s);
      JoinAll(c, n, j - 1, s);
      JoinStep(c, n, j - 1, JoinFold(c, n, j - 1, s));
      FirstsRemainNext(c, n, j - 1, JoinFold(c, n, j - 1, s), JoinFold(c, n, j, s));
    }
  }

  // The state before the names of the i-th entity are treated.
  ghost function StateAt(c: Claimed, s: State, i: nat): State
    requires i <= |c.order| && forall n :: n in c.order ==> n in c.entities
  {
    assert forall n :: n in c.order[..i] ==> n in c.entities;
    MergeFold(s, LateMerges(c.entities, c.index, c.order[..i]))
  }

  lemma StateAtNext(c: Claimed, s: State, i: nat)
    requires i < |c.order| && forall n :: n in c.order ==> n in c.entities
    ensures var n := c.order[i]; StateAt(c, s, i + 1) == JoinFold(c, n, |NamesOf(c.entities, n)|, StateAt(c, s, i))
  {
    var n := c.order[i];
    assert n in c.order;
    var names, merges := NamesOf(c.entities, n), LateMerges(c.entities, c.index, c.order[..i]);
    assert names[..|names|] == names;
    hide NamesOf, LateOwners, LateMerges, MergeFold, JoinFold;
    MergesUpTo(c.entities, c.index, c.order, i);
    MergeFoldAppend(s, merges, LateOwners(c.index, n, names));
    JoinFoldIs(c, n, |names|, MergeFold(s, merges));
  }

  // The unmerged state.
  ghost predicate IsStart(c: Claimed, s: State) {
    && IsClaimed(c) && s.entities == c.entities && s.index == c.index && s.reps == map[]
    && forall n :: n in c.order ==> n in c.entities
  }

  lemma JoiningAt(c: Claimed, s: State, i: nat)
    requires IsStart(c, s) && i < |c.order|
    ensures c.order[i] in c.entities && IsJoining(c, c.order[i], 0, StateAt(c, s, i))
  {
    assert c.order[i] in c.order;
    FoldGroups(c, s, i);
    ClaimedNamed(c);
    UpToNext(c.entities, c.order, i);
    hide IsClaimed, InMentionOrder, WellNamed, UpTo, BeforeAll, IsGrouped, IsJoining, MergeFold;
    StartJoining(c, c.order[i], StateAt(c, s, i));
  }

  lemma {:induction false} FoldKeepsFirsts(c: Claimed, s: State, i: nat)
    requires IsStart(c, s) && i <= |c.order| && FirstComesLast(c.entities)
    ensures FirstsRemain(c.entities, StateAt(c, s, i).reps)
    decreases i
  {
    hide IsClaimed, FirstComesLast, IsJoining, NamesOf, JoinFold, IsFirst;
    if i == 0 {
      assert c.order[..0] == [];
    } else {
      hide StateAt, FirstsRemain;
      FoldKeepsFirsts(c, s, i - 1);
      JoiningAt(c, s, i - 1);
      StateAtNext(c, s, i - 1);
      JoinKeepsFirsts(c, c.order[i - 1], |NamesOf(c.entities, c.order[i - 1])|, StateAt(c, s, i - 1));
    }
  }

  // Once n has joined e and e remains, n's names do nothing or take e away.
  lemma {:induction false} StuckOrGone(c: Claimed, n: string, p: nat, j: nat, e: string, s: State)
    requires IsClaimed(c) && n in c.entities && p < j <= |NamesOf(c.entities, n)| && IsJoining(c, n, 0, s)
    requires Leads(c.entities, n, p, e)
    ensures JoinFold(c, n, j, s) == JoinFold(c, n, p + 1, s) || e !in JoinFold(c, n, j, s).entities
    decreases j
  {
    hide NamesOf, IsJoining, NextJoin, Leads, IsClaimed, IdlesOrMoves, JoinFold;
    if j > p + 1 {
      var t := JoinFold(c, n, j - 1, s);
      StuckOrGone(c, n, p, j - 1, e, s);
      JoinFoldNext(c, n, j - 1, s);
      JoinAll(c, n, j - 1, s);
      JoinStep(c, n, j - 1, t);
      NextShrinks(c, n, j - 1, t, e);
      if e in t.entities {
        IdlesOrTakes(c, n, p, j - 1, e, t, NextJoin(c, n, j - 1, t));
      }
    }
  }

  lemma JoinFoldNext(c: Claimed, n: string, j: nat, s: State)
    requires n in c.entities && j < |NamesOf(c.entities, n)|
    ensures JoinFold(c, n, j + 1, s) == NextJoin(c, n, j, JoinFold(c, n, j, s))
  {
    hide NamesOf, NextJoin;
  }

  lemma IdlesOrTakes(c: Claimed, n: string, p: nat, j: nat, e: string, s: State, t: State)
    requires IsClaimed(c) && n in c.entities && p < j && IsJoining(c, n, j, s) && Leads(c.entities, n, p, e)
    requires e in s.entities && IdlesOrMoves(c, n, j, s, t)
    ensures t == s || e !in t.entities
  {
    hide IsClaimed, IsJoining, Leads, NamesOf, BeforeAll, Rep, Redirect;
    JoinedRep(c, n, p, j, e, s);
  }

  lemma NotJoined(c: Claimed, n: string, j: nat, s: State, x: string)
    requires n in c.entities && IsJoining(c, n, j, s) && x in BeforeAll(c.entities, n) && !Reaches(c.entities, n, j, x)
    ensures Rep(s.reps, x) != Rep(s.reps, n)
  {
    hide BeforeAll, MergedClasses, Linked, OwnKeysFollow, RepsWithin, Reaches;
  }

  lemma NextShrinks(c: Claimed, n: string, j: nat, s: State, e: string)
    requires n in c.entities && j < |NamesOf(c.entities, n)|
    ensures e in NextJoin(c, n, j, s).entities ==> e in s.entities
  {
    hide EntityKey, NamesOf, MergeStep;
    var k := EntityKey(NamesOf(c.entities, n)[j]);
    if k in c.index {
      StepShrinks(s, n, c.index[k]);
    }
  }

  lemma JoinedRep(c: Claimed, n: string, p: nat, j: nat, e: string, s: State)
    requires IsClaimed(c) && n in c.entities && p < j && IsJoining(c, n, j, s) && Leads(c.entities, n, p, e)
    ensures e in BeforeAll(c.entities, n) && Rep(s.reps, e) == Rep(s.reps, n)
    ensures e in s.entities ==> Rep(s.reps, n) == e
  {
    ClaimedNamed(c);
    LedIsLinked(c.entities, n, p, e);
    assert Reaches(c.entities, n, j, e);
    RemainsOrGone(c.entities, s.reps, s.entities, e);
    hide IsClaimed, WellNamed, InMentionOrder, BeforeAll, Leads, Linked, MergedClasses, OwnKeysFollow, RepsWithin,
      Reaches;
  }

  lemma {:induction false} JoinShrinks(c: Claimed, n: string, i: nat, j: nat, s: State, e: string)
    requires n in c.entities && i <= j <= |NamesOf(c.entities, n)|
    ensures e in JoinFold(c, n, j, s).entities ==> e in JoinFold(c, n, i, s).entities
    decreases j
  {
    hide NamesOf, NextJoin, JoinFold;
    if i < j {
      JoinShrinks(c, n, i, j - 1, s, e);
      JoinFoldNext(c, n, j - 1, s);
      NextShrinks(c, n, j - 1, JoinFold(c, n, j - 1, s), e);
    }
  }

  lemma LedIsName(entities: Entities, n: string, j: nat, x: string)
    requires n in entities && Leads(entities, n, j, x)
    ensures j < |NamesOf(entities, n)|
  {
  }

  // Joining something new changes the state.
  lemma NewIsJoined(c: Claimed, n: string, p: nat, q: nat, x: string, s: State, t: State)
    requires IsClaimed(c) && n in c.entities && p <= q && IsJoining(c, n, p, s) && IsJoining(c, n, q + 1, t)
    requires Leads(c.entities, n, q, x) && !Reaches(c.entities, n, p, x)
    ensures s != t
  {
    hide IsClaimed, Leads, IsJoining, Reaches, BeforeAll, Rep;
    JoinedRep(c, n, q, q + 1, x, t);
    NotJoined(c, n, p, s, x);
  }

  // A name leading to something new after one that led to e takes e away.
  lemma LaterNameTakes(c: Claimed, n: string, p: nat, q: nat, e: string, x: string, s: State)
    requires IsClaimed(c) && n in c.entities && IsJoining(c, n, 0, s) && p < q
    requires Leads(c.entities, n, p, e) && Leads(c.entities, n, q, x) && !Reaches(c.entities, n, p + 1, x)
    ensures e !in JoinFold(c, n, |NamesOf(c.entities, n)|, s).entities
  {
    hide IsClaimed, NamesOf, JoinFold, Leads, IsJoining, Reaches;
    LedIsName(c.entities, n, q, x);
    StuckOrGone(c, n, p, q + 1, e, s);
    JoinAll(c, n, p + 1, s);
    JoinAll(c, n, q + 1, s);
    NewIsJoined(c, n, p + 1, q, x, JoinFold(c, n, p + 1, s), JoinFold(c, n, q + 1, s));
    JoinShrinks(c, n, q + 1, |NamesOf(c.entities, n)|, s, e);
  }

  // Then e is gone in the end.
  lemma LaterNameLoses(c: Claimed, s: State, n: string, p: nat, q: nat, e: string, x: string)
    requires IsStart(c, s) && n in c.entities && p < q && forall m :: m in c.order ==> m in c.entities
    requires Leads(c.entities, n, p, e) && Leads(c.entities, n, q, x) && !Reaches(c.entities, n, p + 1, x)
    ensures e !in MergeFold(s, LateMerges(c.entities, c.index, c.order)).entities
  {
    hide IsStart, Leads, Reaches, StateAt, MergeFold, LateMerges;
    var i := PositionOf(c, s, n);
    LosesAt(c, s, i, p, q, e, x);
    var more := MergesPrefix(c.entities, c.index, c.order, i + 1);
    StateAtThen(c, s, i + 1, more, e);
  }

  lemma PositionOf(c: Claimed, s: State, n: string) returns (i: nat)
    requires IsStart(c, s) && n in c.entities
    ensures i < |c.order| && c.order[i] == n && forall m :: m in c.order ==> m in c.entities
  {
    ClaimedNamed(c);
    hide IsClaimed, WellNamed;
    Ordered(c.entities, c.order, n);
    i :| 0 <= i < |c.order| && c.order[i] == n;
  }

  lemma LosesAt(c: Claimed, s: State, i: nat, p: nat, q: nat, e: string, x: string)
    requires IsStart(c, s) && i < |c.order| && c.order[i] in c.entities && p < q
    requires Leads(c.entities, c.order[i], p, e) && Leads(c.entities, c.order[i], q, x)
    requires !Reaches(c.entities, c.order[i], p + 1, x)
    ensures e !in StateAt(c, s, i + 1).entities
  {
    hide IsClaimed, NamesOf, JoinFold, Leads, IsJoining, Reaches, StateAt;
    JoiningAt(c, s, i);
    LaterNameTakes(c, c.order[i], p, q, e, x, StateAt(c, s, i));
    StateAtNext(c, s, i);
  }

  lemma StateAtThen(c: Claimed, s: State, i: nat, more: seq<(string, string)>, e: string)
    requires i <= |c.order| && forall n :: n in c.order ==> n in c.entities
    requires forall n :: n in c.order[..i] ==> n in c.entities
    requires LateMerges(c.entities, c.index, c.order) == LateMerges(c.entities, c.index, c.order[..i]) + more
    ensures e in MergeFold(s, LateMerges(c.entities, c.index, c.order)).entities ==> e in StateAt(c, s, i).entities
  {
    hide LateMerges;
    MergeFoldAppend(s, LateMerges(c.entities, c.index, c.order[..i]), more);
    FoldShrinks(StateAt(c, s, i), more);
  }

  // In the end.
  lemma GroupsRemain(entities: Entities, s: State)
    requires MergedClasses(entities, s.reps, s.entities)
    requires OnePerGroup(entities, s.reps) && FirstsRemain(entities, s.reps)
    ensures s.entities.Keys == Firsts(entities)
  {
    hide Linked, FirstsRemain;
    forall n
      ensures n in s.entities <==> n in entities && IsFirst(entities, n)
    {
      if n in entities {
        OneRemains(entities, s, n);
      }
    }
  }

  lemma OneRemains(entities: Entities, s: State, n: string)
    requires MergedClasses(entities, s.reps, s.entities)
    requires OnePerGroup(entities, s.reps) && FirstsRemain(entities, s.reps)
    requires n in entities
    ensures n in s.entities <==> IsFirst(entities, n)
  {
    var e := FirstExists(entities, n);
    RemainsOrGone(entities, s.reps, s.entities, n);
    assert e in entities && e !in s.reps;
    hide MergedClasses, IsFirst, Linked;
    assert Rep(s.reps, e) == e && Rep(s.reps, n) == e;
  }

  lemma RebuildEnds(entities: Entities, mentions: MentionLists, rels: set<Relation>, order: seq<string>)
    returns (c: Claimed, s: State)
    requires WellNamed(entities) && MentionsKnown(entities, mentions) && OnePerTriple(rels)
    requires InMentionOrder(entities, order) && OwnKeysApart(entities)
    ensures var t := Rebuilt(entities, mentions, rels, order);
      && c.entities == entities && IsEnd(c, s, t) && MergedClasses(entities, t.reps, t.entities)
      && OwnersHaveKeys(t.entities, t.index) && forall y, k :: IsKeyOf(entities, y, k) ==> k in t.index
  {
    hide AllClaims, ServeAll, DeferAll, LateMerges, MergeFold, IsKeyOf, IsQuotient, MergedMentions, OnlyLinked,
      OwnersHaveKeys, MergedClasses;
    var index := ServeAll(AllClaims(entities, order));
    c, s := Claimed(entities, order, index), State(entities, mentions, index, rels, map[]);
    OrderMembers(entities, order);
    ServedForRebuild(entities, order);
    RebuildTracks(entities, mentions, rels, order);
    assert IsStart(c, s);
  }

  // Where no alias has the key of another entity's own name, every key is
  // left with one entity and every group becomes one; all of them become
  // their earliest exactly if the earliest always comes last.
  lemma GroupingExactlyWhen(entities: Entities, mentions: MentionLists, rels: set<Relation>, order: seq<string>)
    requires WellNamed(entities) && MentionsKnown(entities, mentions) && OnePerTriple(rels)
    requires InMentionOrder(entities, order) && OwnKeysApart(entities)
    ensures var s := Rebuilt(entities, mentions, rels, order);
      && AliasExact(s.entities, s.index) && OnePerGroup(entities, s.reps)
      && (s.entities.Keys == Firsts(entities) <==> FirstComesLast(entities))
  {
    OrderMembers(entities, order);
    hide *;
    var t := Rebuilt(entities, mentions, rels, order);
    var c, s := RebuildEnds(entities, mentions, rels, order);
    EndGrouped(c, s, t);
    GroupedIsExact(entities, t);
    if FirstComesLast(entities) {
      EndKeepsFirsts(c, s, t);
      GroupsRemain(entities, t);
    } else {
      EndLosesFirst(c, s, t);
    }
  }

  ghost predicate IsEnd(c: Claimed, s: State, t: State) {
    IsStart(c, s) && t == MergeFold(s, LateMerges(c.entities, c.index, c.order))
  }

  lemma EndGrouped(c: Claimed, s: State, t: State)
    requires IsEnd(c, s, t)
    ensures OnePerGroup(c.entities, t.reps)
  {
    assert c.order[..|c.order|] == c.order;
    ClaimedNamed(c);
    hide IsClaimed, MergeFold, LateMerges, InMentionOrder, WellNamed, UpTo, IsGrouped, OnePerGroup;
    FoldGroups(c, s, |c.order|);
    UpToAll(c.entities, c.order);
    GroupedOnes(c, t);
  }

  lemma UpToAll(entities: Entities, order: seq<string>)
    requires InMentionOrder(entities, order)
    ensures forall n :: n in order ==> n in entities
    ensures UpTo(entities, order, |order|) == entities
  {
    OrderMembers(entities, order);
    hide Before;
    assert order[..|order|] == order;
  }

  lemma GroupedOnes(c: Claimed, s: State)
    requires IsGrouped(c, c.entities, s)
    ensures OnePerGroup(c.entities, s.reps)
  {
    hide MergedClasses, OwnKeysFollow, Linked, Rep;
  }

  lemma EndKeepsFirsts(c: Claimed, s: State, t: State)
    requires IsEnd(c, s, t) && FirstComesLast(c.entities)
    ensures FirstsRemain(c.entities, t.reps)
  {
    hide IsClaimed, MergeFold, LateMerges, FirstComesLast, FirstsRemain;
    FoldKeepsFirsts(c, s, |c.order|);
    assert c.order[..|c.order|] == c.order;
  }

  lemma EndLosesFirst(c: Claimed, s: State, t: State)
    requires IsEnd(c, s, t) && !FirstComesLast(c.entities)
    ensures t.entities.Keys != Firsts(c.entities)
  {
    hide IsClaimed, MergeFold, LateMerges, IsFirst, Leads, Reaches;
    var n, p: nat, q: nat, e, x :| n in c.entities && p < q && IsFirst(c.entities, e) && Leads(c.entities, n, p, e) &&
      Leads(c.entities, n, q, x) && !Reaches(c.entities, n, p + 1, x);
    LaterNameLoses(c, s, n, p, q, e, x);
    assert e in Firsts(c.entities) by { FirstKnown(c.entities, e); }
  }

  lemma FirstKnown(entities: Entities, e: string)
    requires IsFirst(entities, e)
    ensures e in entities
  {
  }
}
