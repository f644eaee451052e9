// Groups of stored entities connected by shared keys, and the entities in
// them that no earlier one has a key of.
module Roots {
  import opened Names
  import opened Rebuild
  import opened Reach

  ghost predicate SharesKey(entities: Entities, a: string, b: string) {
    exists k :: IsKeyOf(entities, a, k) && IsKeyOf(entities, b, k)
  }

  ghost function Sharing(entities: Entities): (string, string) -> bool {
    (a, b) => SharesKey(entities, a, b)
  }

  // Connected by shared keys, over any number of entities.
  ghost predicate Linked(entities: Entities, a: string, b: string) {
    exists d: nat :: Within(Sharing(entities), a, b, d)
  }

  // No entity mentioned earlier has any of n's keys.
  ghost predicate Stays(entities: Entities, n: string) {
    n in entities && forall m :: Before(entities, m, n) ==> !SharesKey(entities, m, n)
  }

  ghost function Stayers(entities: Entities): set<string> {
    set n | n in entities && Stays(entities, n)
  }

  // Every group connected by shared keys has just one entity that no earlier
  // one has a key of.
  ghost predicate SingleRoots(entities: Entities) {
    forall a, b :: Stays(entities, a) && Stays(entities, b) && Linked(entities, a, b) ==> a == b
  }

  // An initial part of the mention order.
  ghost predicate IsInitial(entities: Entities, part: set<string>) {
    part <= entities.Keys && forall m, n :: n in part && Before(entities, m, n) ==> m in part
  }

  // root names one staying entity for each group of the part.
  ghost predicate IsRooting(entities: Entities, part: set<string>, root: map<string, string>) {
    && root.Keys == part && IsInitial(entities, part)
    && (forall n :: n in part ==> root[n] in part && Stays(entities, root[n]))
    && (forall n :: n in part && Stays(entities, n) ==> root[n] == n)
    && (forall a, b :: a in part && b in part && SharesKey(entities, a, b) ==> root[a] == root[b])
  }

  lemma LinkedSelf(entities: Entities, a: string)
    ensures Linked(entities, a, a)
  {
    assert Within(Sharing(entities), a, a, 0);
  }

  lemma LinkedStep(entities: Entities, a: string, b: string, c: string)
    requires Linked(entities, a, b) && SharesKey(entities, b, c)
    ensures Linked(entities, a, c)
  {
    var d: nat :| Within(Sharing(entities), a, b, d);
    assert Sharing(entities)(b, c);
    assert Within(Sharing(entities), a, c, d + 1);
  }

  lemma {:induction false} LinkedThrough(entities: Entities, a: string, b: string, c: string, d: nat)
    requires Linked(entities, a, b) && Within(Sharing(entities), b, c, d)
    ensures Linked(entities, a, c)
    decreases d
  {
    hide SharesKey, Within, Linked;
    NoStep(Sharing(entities), b, c);
    if d > 0 {
      var u := StepBefore(Sharing(entities), b, c, d);
      LinkedThrough(entities, a, b, u, d - 1);
      if u != c {
        LinkedStep(entities, a, u, c);
      }
    }
  }

  lemma LinkedTransitive(entities: Entities, a: string, b: string, c: string)
    requires Linked(entities, a, b) && Linked(entities, b, c)
    ensures Linked(entities, a, c)
  {
    var d: nat :| Within(Sharing(entities), b, c, d);
    LinkedThrough(entities, a, b, c, d);
  }

  lemma {:induction false} LinkedBack(entities: Entities, a: string, b: string, d: nat)
    requires Within(Sharing(entities), a, b, d)
    ensures Linked(entities, b, a)
    decreases d
  {
    hide SharesKey, Within, Linked;
    LinkedSelf(entities, a);
    NoStep(Sharing(entities), a, b);
    if d > 0 {
      var u := StepBefore(Sharing(entities), a, b, d);
      LinkedBack(entities, a, u, d - 1);
      if u != b {
        SharesBack(entities, u, b);
        LinkedSelf(entities, b);
        LinkedStep(entities, b, b, u);
        LinkedTransitive(entities, b, u, a);
      }
    }
  }

  lemma LinkedSymmetric(entities: Entities, a: string, b: string)
    requires Linked(entities, a, b)
    ensures Linked(entities, b, a)
  {
    var d: nat :| Within(Sharing(entities), a, b, d);
    LinkedBack(entities, a, b, d);
  }

  ghost function EarlierThan(entities: Entities, n: string): set<string> {
    set m | m in entities && Before(entities, m, n)
  }

  lemma EarlierThanShrinks(entities: Entities, m: string, n: string)
    requires Before(entities, m, n)
    ensures EarlierThan(entities, m) < EarlierThan(entities, n)
  {
    hide Before;
    BeforeIsOrder(entities);
    assert m in entities by { BeforeKnown(entities, m, n); }
    assert m in EarlierThan(entities, n) && m !in EarlierThan(entities, m);
  }

  lemma BeforeKnown(entities: Entities, m: string, n: string)
    requires Before(entities, m, n)
    ensures m in entities && n in entities
  {
  }

  // Every entity is linked to one that stays, itself or an earlier one.
  lemma {:induction false} RootExists(entities: Entities, n: string) returns (r: string)
    requires n in entities
    ensures Stays(entities, r) && Linked(entities, n, r) && (r == n || Before(entities, r, n))
    decreases EarlierThan(entities, n)
  {
    LinkedSelf(entities, n);
    r := n;
    if !Stays(entities, n) {
      hide SharesKey;
      var m :| Before(entities, m, n) && SharesKey(entities, m, n);
      EarlierThanShrinks(entities, m, n);
      r := RootExists(entities, m);
      SharesBack(entities, m, n);
      LinkedStep(entities, n, n, m);
      hide Linked, Stays, Before;
      LinkedTransitive(entities, n, m, r);
      BeforeIsOrder(entities);
    }
  }

  lemma SharesBack(entities: Entities, a: string, b: string)
    requires SharesKey(entities, a, b)
    ensures SharesKey(entities, b, a)
  {
  }

  ghost predicate IsRootOf(entities: Entities, n: string, r: string) {
    Stays(entities, r) && Linked(entities, n, r)
  }

  lemma SomeRoot(entities: Entities, n: string)
    requires n in entities
    ensures exists r :: IsRootOf(entities, n, r)
  {
    var r := RootExists(entities, n);
    assert IsRootOf(entities, n, r);
  }

  // Single roots make a rooting of all entities.
  lemma RootingExists(entities: Entities) returns (root: map<string, string>)
    requires SingleRoots(entities)
    ensures IsRooting(entities, entities.Keys, root)
    ensures forall n :: n in entities ==> IsRootOf(entities, n, root[n])
  {
    hide Linked, Stays, Before, SharesKey;
    forall n | n in entities { SomeRoot(entities, n); }
    root := map n | n in entities :: ChosenRoot(entities, n);
    assert forall n :: n in entities ==> IsRootOf(entities, n, root[n]);
    forall n | n in entities && Stays(entities, n)
      ensures root[n] == n
    {
    }
    forall n | n in entities
      ensures root[n] in entities
    {
      StaysKnown(entities, root[n]);
    }
    forall a, b | a in entities && b in entities && SharesKey(entities, a, b)
      ensures root[a] == root[b]
    {
      LinkedSymmetric(entities, a, root[a]);
      LinkedStep(entities, root[a], a, b);
      LinkedTransitive(entities, root[a], b, root[b]);
    }
    forall m, n | Before(entities, m, n) { BeforeKnown(entities, m, n); }
  }

  lemma StaysKnown(entities: Entities, n: string)
    requires Stays(entities, n)
    ensures n in entities
  {
  }

  ghost function ChosenRoot(entities: Entities, n: string): string
    requires n in entities && exists r :: IsRootOf(entities, n, r)
  {
    var r :| IsRootOf(entities, n, r); r
  }

  lemma RootIsShared(entities: Entities, root: map<string, string>, a: string, b: string)
    requires IsRooting(entities, entities.Keys, root) && a in entities && SharesKey(entities, a, b)
    ensures b in entities && a in root && b in root && root[b] == root[a]
  {
    hide Stays, Before, EntityKey, IsNameOf;
  }

  lemma {:induction false} RootIsConstant(entities: Entities, root: map<string, string>, a: string, b: string, d: nat)
    requires IsRooting(entities, entities.Keys, root) && a in entities && Within(Sharing(entities), a, b, d)
    ensures b in entities && a in root && b in root && root[b] == root[a]
    decreases d
  {
    assert a in root;
    hide IsRooting, SharesKey, Within;
    NoStep(Sharing(entities), a, b);
    if d > 0 {
      var u := StepBefore(Sharing(entities), a, b, d);
      RootIsConstant(entities, root, a, u, d - 1);
      if u != b {
        RootIsShared(entities, root, u, b);
      }
    }
  }

  // A rooting of all entities means single roots.
  lemma RootingIsSingle(entities: Entities, root: map<string, string>)
    requires IsRooting(entities, entities.Keys, root)
    ensures SingleRoots(entities)
  {
    forall a, b | Stays(entities, a) && Stays(entities, b) && Linked(entities, a, b)
      ensures a == b
    {
      var d: nat :| Within(Sharing(entities), a, b, d);
      RootIsConstant(entities, root, a, b, d);
    }
  }

  // The root is the earliest of its group, and groups are linked entities.
  lemma RootIsEarliest(entities: Entities, root: map<string, string>, a: string, b: string)
    requires IsRooting(entities, entities.Keys, root) && a in entities && b in entities
    ensures root[a] == root[b] <==> Linked(entities, a, b)
    ensures root[a] == a || Before(entities, root[a], a)
  {
    RootingIsSingle(entities, root);
    var r := RootExists(entities, a);
    var s := RootExists(entities, b);
    LinkedRoot(entities, root, a, r);
    LinkedRoot(entities, root, b, s);
    hide IsRooting, Linked, Before, Stays;
    if root[a] == root[b] {
      LinkedSymmetric(entities, b, s);
      LinkedTransitive(entities, a, r, b);
    }
    if Linked(entities, a, b) {
      LinkedRoots(entities, root, a, b);
    }
  }

  lemma LinkedRoots(entities: Entities, root: map<string, string>, a: string, b: string)
    requires IsRooting(entities, entities.Keys, root) && a in entities && Linked(entities, a, b)
    ensures b in entities && root[b] == root[a]
  {
    hide IsRooting;
    var d: nat :| Within(Sharing(entities), a, b, d);
    RootIsConstant(entities, root, a, b, d);
  }

  lemma LinkedRoot(entities: Entities, root: map<string, string>, a: string, r: string)
    requires IsRooting(entities, entities.Keys, root) && a in entities && Stays(entities, r) && Linked(entities, a, r)
    ensures root[a] == r
  {
    LinkedRoots(entities, root, a, r);
  }

  // Without aliases sharing a key is having the same key.
  lemma PlainSingleRoots(entities: Entities)
    requires WellNamed(entities) && NoAliases(entities)
    ensures SingleRoots(entities)
    ensures forall n :: Stays(entities, n) <==> IsEarliest(entities, n)
  {
    hide EntityKey, Before;
    BeforeIsOrder(entities);
    PlainSharing(entities);
    hide SharesKey, IsKeyOf, NoAliases, WellNamed;
    forall m, n | Before(entities, m, n) { BeforeKnown(entities, m, n); }
    forall a, b | Stays(entities, a) && Stays(entities, b) && Linked(entities, a, b)
      ensures a == b
    {
      var d: nat :| Within(Sharing(entities), a, b, d);
      PlainLinked(entities, a, b, d);
    }
    forall n
      ensures Stays(entities, n) <==> IsEarliest(entities, n)
    {
    }
  }

  lemma PlainSharing(entities: Entities)
    requires WellNamed(entities) && NoAliases(entities)
    ensures forall a, b :: SharesKey(entities, a, b) <==> a in entities && b in entities && EntityKey(a) == EntityKey(b)
  {
    hide EntityKey;
    forall n, k { PlainKey(entities, n, k); }
    forall a, b
      ensures SharesKey(entities, a, b) <==> a in entities && b in entities && EntityKey(a) == EntityKey(b)
    {
      if a in entities && b in entities && EntityKey(a) == EntityKey(b) {
        assert IsKeyOf(entities, a, EntityKey(a)) && IsKeyOf(entities, b, EntityKey(a));
      }
    }
  }

  lemma PlainKeysAgree(entities: Entities, a: string, b: string)
    requires WellNamed(entities) && NoAliases(entities) && Linked(entities, a, b)
    ensures EntityKey(a) == EntityKey(b)
  {
    hide EntityKey, SharesKey;
    PlainSharing(entities);
    var d: nat :| Within(Sharing(entities), a, b, d);
    PlainLinked(entities, a, b, d);
  }

  lemma PlainKey(entities: Entities, n: string, k: string)
    requires WellNamed(entities) && NoAliases(entities)
    ensures IsKeyOf(entities, n, k) <==> n in entities && k == EntityKey(n)
  {
    if n in entities {
      assert IsNameOf(entities[n], n);
    }
  }

  lemma {:induction false} PlainLinked(entities: Entities, a: string, b: string, d: nat)
    requires forall x, y :: SharesKey(entities, x, y) ==> EntityKey(x) == EntityKey(y)
    requires Within(Sharing(entities), a, b, d)
    ensures EntityKey(a) == EntityKey(b)
    decreases d
  {
    hide EntityKey, SharesKey, Within;
    NoStep(Sharing(entities), a, b);
    if d > 0 {
      var u := StepBefore(Sharing(entities), a, b, d);
      PlainLinked(entities, a, u, d - 1);
    }
  }

  // With an exact index no two entities share a key, so all stay.
  lemma ExactSingleRoots(entities: Entities, index: AliasIndex)
    requires AliasExact(entities, index)
    ensures SingleRoots(entities) && Stayers(entities) == entities.Keys
  {
    hide EntityKey;
    forall a, b | SharesKey(entities, a, b)
      ensures a == b
    {
      var k :| IsKeyOf(entities, a, k) && IsKeyOf(entities, b, k);
      var x :| IsNameOf(entities[a], x) && EntityKey(x) == k;
      var y :| IsNameOf(entities[b], y) && EntityKey(y) == k;
      assert index[k] == a && index[k] == b;
    }
    hide SharesKey, AliasExact, Before;
    BeforeIsOrder(entities);
    forall n | n in entities
      ensures Stays(entities, n)
    {
    }
    var root := map n | n in entities :: n;
    forall m, n | Before(entities, m, n) { BeforeKnown(entities, m, n); }
    assert IsRooting(entities, entities.Keys, root);
    RootingIsSingle(entities, root);
  }

  // No entity connected with e is mentioned before it.
  ghost predicate IsFirst(entities: Entities, e: string) {
    e in entities && forall y :: y in entities && Linked(entities, e, y) ==> y == e || Before(entities, e, y)
  }

  // The earliest mentioned entity of each group connected by shared keys.
  ghost function Firsts(entities: Entities): set<string> {
    set e | e in entities && IsFirst(entities, e)
  }

  lemma {:induction false} FirstExists(entities: Entities, n: string) returns (e: string)
    requires n in entities
    ensures IsFirst(entities, e) && Linked(entities, n, e)
    decreases EarlierThan(entities, n)
  {
    LinkedSelf(entities, n);
    hide Linked, Before;
    BeforeIsOrder(entities);
    e := n;
    if y :| y in entities && Linked(entities, n, y) && y != n && !Before(entities, n, y) {
      EarlierThanShrinks(entities, y, n);
      e := FirstExists(entities, y);
      LinkedTransitive(entities, n, y, e);
    }
  }
}
