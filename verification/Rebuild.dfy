// Rebuilding the alias index of stored entities: the first entity to claim a
// key keeps it, later claimants are merged into it.
module Rebuild {
  import opened Types
  import opened Sorting
  import opened Strings
  import opened DiGraph
  import opened Names
  import opened Mentions
  import opened GraphState

  // Earlier first mention, ties by name.
  predicate Earlier(a: (Time, string), b: (Time, string)) {
    a.0 < b.0 || (a.0 == b.0 && StrLess(a.1, b.1))
  }

  lemma EarlierIsOrder()
    ensures StrictOrder(Earlier)
  {
    StrLessIsOrder();
  }

  // An entity claims the keys of its names in turn.
  datatype Claim = Claim(owner: string, key: string)

  function ClaimsOf(owner: string, names: seq<string>): (r: seq<Claim>)
    ensures |r| == |names| && forall j :: 0 <= j < |r| ==> r[j] == Claim(owner, EntityKey(names[j]))
  {
    seq(|names|, j requires 0 <= j < |names| => Claim(owner, EntityKey(names[j])))
  }

  // The names of a stored entity in the order their keys are claimed.
  function NamesOf(entities: Entities, n: string): (names: seq<string>)
    requires n in entities
    ensures |names| > 0 && names[0] == n && names[1..] == entities[n].aliases
  {
    [n] + entities[n].aliases
  }

  function AllClaims(entities: Entities, order: seq<string>): seq<Claim>
    requires forall n :: n in order ==> n in entities
  {
    if order == [] then []
    else
      AllClaims(entities, order[..|order| - 1])
        + ClaimsOf(order[|order| - 1], NamesOf(entities, order[|order| - 1]))
  }

  // First come, first served; late claimants are to be merged.
  function Serve(index: AliasIndex, c: Claim): AliasIndex {
    if c.key in index then index else index[c.key := c.owner]
  }

  function ServeAll(claims: seq<Claim>): AliasIndex {
    if claims == [] then map[] else Serve(ServeAll(claims[..|claims| - 1]), claims[|claims| - 1])
  }

  function Deferred(index: AliasIndex, c: Claim): seq<(string, string)> {
    if c.key in index && index[c.key] != c.owner then [(c.owner, index[c.key])] else []
  }

  function DeferAll(claims: seq<Claim>): seq<(string, string)> {
    if claims == [] then []
    else
      var index, c := ServeAll(claims[..|claims| - 1]), claims[|claims| - 1];
      DeferAll(claims[..|claims| - 1]) + Deferred(index, c)
  }

  lemma ServeNext(claims: seq<Claim>, c: Claim)
    ensures ServeAll(claims + [c]) == Serve(ServeAll(claims), c)
    ensures DeferAll(claims + [c]) == DeferAll(claims)
      + Deferred(ServeAll(claims), c)
  {
    assert (claims + [c])[..|claims|] == claims;
  }

  ghost predicate ClaimsAgree(claims: seq<Claim>, index: AliasIndex) {
    forall j :: 0 <= j < |claims| ==> claims[j].key in index && index[claims[j].key] == claims[j].owner
  }

  // Without conflicts nothing is merged.
  lemma {:induction false} AgreeingClaims(claims: seq<Claim>, index: AliasIndex)
    requires ClaimsAgree(claims, index)
    ensures DeferAll(claims) == []
    ensures forall k :: k in ServeAll(claims) ==> k in index && ServeAll(claims)[k] == index[k]
    ensures forall j :: 0 <= j < |claims| ==> claims[j].key in ServeAll(claims)
  {
    if claims != [] {
      var rest := claims[..|claims| - 1];
      assert forall j :: 0 <= j < |rest| ==> rest[j] == claims[j];
      AgreeingClaims(rest, index);
    }
  }

  lemma {:induction false} ClaimedNames(entities: Entities, order: seq<string>)
    requires forall n :: n in order ==> n in entities && entities[n].name == n
    ensures forall c :: c in AllClaims(entities, order) <==> c.owner in order && IsKeyOf(entities, c.owner, c.key)
  {
    if order != [] {
      var rest, n := order[..|order| - 1], order[|order| - 1];
      assert order == rest + [n];
      ClaimedNames(entities, rest);
      var names := [n] + entities[n].aliases;
      assert forall x :: x in names <==> IsNameOf(entities[n], x);
      forall c
        ensures c in ClaimsOf(n, names) <==> c.owner == n && IsKeyOf(entities, n, c.key)
      {
        if c.owner == n && IsKeyOf(entities, n, c.key) {
          var x :| IsNameOf(entities[n], x) && EntityKey(x) == c.key;
          var j :| 0 <= j < |names| && names[j] == x;
          assert ClaimsOf(n, names)[j] == c;
        }
      }
    }
  }

  // Entities with an exact index get it back, and nothing is merged.
  lemma ExactIsServed(entities: Entities, order: seq<string>, index: AliasIndex)
    requires WellNamed(entities) && AliasExact(entities, index)
    requires forall n :: n in order <==> n in entities
    ensures ServeAll(AllClaims(entities, order)) == index && DeferAll(AllClaims(entities, order)) == []
  {
    hide EntityKey;
    var claims := AllClaims(entities, order);
    ClaimedNames(entities, order);
    forall j | 0 <= j < |claims|
      ensures claims[j].key in index && index[claims[j].key] == claims[j].owner
    {
      assert claims[j] in claims;
    }
    AgreeingClaims(claims, index);
    forall k | k in index
      ensures k in ServeAll(claims)
    {
      assert Claim(index[k], k) in claims;
    }
  }

  // m is mentioned before n.
  ghost predicate Before(entities: Entities, m: string, n: string) {
    && m in entities && n in entities
    && entities[m].firstMentioned <= entities[n].firstMentioned
    && (entities[m].firstMentioned == entities[n].firstMentioned ==> StrLess(m, n))
  }

  lemma BeforeIsOrder(entities: Entities)
    ensures forall n :: !Before(entities, n, n)
    ensures forall l, m, n :: Before(entities, l, m) && Before(entities, m, n) ==> Before(entities, l, n)
    ensures forall m, n :: m in entities && n in entities && m != n ==> Before(entities, m, n) || Before(entities, n, m)
  {
    StrLessIsOrder();
    hide StrLess;
  }

  ghost predicate InMentionOrder(entities: Entities, order: seq<string>) {
    && (forall n :: n in order <==> n in entities)
    && (forall i, j :: 0 <= i < j < |order| ==> Before(entities, order[i], order[j]))
  }

  // There is one mention order.
  lemma MentionOrderUnique(entities: Entities, order: seq<string>, other: seq<string>)
    requires InMentionOrder(entities, order) && InMentionOrder(entities, other)
    ensures order == other
  {
    hide Before;
    BeforeIsOrder(entities);
    SortedUnique((m: string, n: string) => Before(entities, m, n), order, other);
  }

  lemma NamesHaveKeys(entities: Entities, n: string)
    requires n in entities && entities[n].name == n
    ensures forall k :: IsKeyOf(entities, n, k) <==> HasNameKey(NamesOf(entities, n), k)
  {
    hide EntityKey;
    var names := NamesOf(entities, n);
    assert forall x :: x in names <==> IsNameOf(entities[n], x);
    forall k | IsKeyOf(entities, n, k)
      ensures exists j :: 0 <= j < |names| && EntityKey(names[j]) == k
    {
      var x :| IsNameOf(entities[n], x) && EntityKey(x) == k;
      var j :| 0 <= j < |names| && names[j] == x;
    }
    forall j | 0 <= j < |names|
      ensures IsKeyOf(entities, n, EntityKey(names[j]))
    {
      assert names[j] in names;
    }
  }

  // The claims of an entity whose names are served after others: new keys
  // become its own, the owners of the others are to take it over.
  function LateOwners(index: AliasIndex, n: string, names: seq<string>): seq<(string, string)> {
    if names == [] then []
    else
      var k := EntityKey(names[|names| - 1]);
      LateOwners(index, n, names[..|names| - 1]) + if k in index && index[k] != n then [(n, index[k])] else []
  }

  ghost predicate HasNameKey(names: seq<string>, k: string) {
    exists j :: 0 <= j < |names| && EntityKey(names[j]) == k
  }

  lemma HasNameKeySnoc(names: seq<string>, k: string)
    requires names != []
    ensures HasNameKey(names, k) <==> HasNameKey(names[..|names| - 1], k) || EntityKey(names[|names| - 1]) == k
  {
    hide EntityKey;
    var rest := names[..|names| - 1];
    if HasNameKey(rest, k) {
      var j :| 0 <= j < |rest| && EntityKey(rest[j]) == k;
      assert names[j] == rest[j];
    }
    if HasNameKey(names, k) && EntityKey(names[|names| - 1]) != k {
      var j :| 0 <= j < |names| && EntityKey(names[j]) == k;
      assert rest[j] == names[j];
    }
  }

  lemma {:induction false} ServeOwn(claims: seq<Claim>, n: string, names: seq<string>)
    requires forall k :: k in ServeAll(claims) ==> ServeAll(claims)[k] != n
    ensures var before, after := ServeAll(claims), ServeAll(claims + ClaimsOf(n, names));
      && (forall k :: k in after <==> k in before || HasNameKey(names, k))
      && (forall k :: k in after ==> after[k] == if k in before then before[k] else n)
    ensures DeferAll(claims + ClaimsOf(n, names)) == DeferAll(claims) + LateOwners(ServeAll(claims), n, names)
    decreases |names|
  {
    hide EntityKey, ServeAll, DeferAll, HasNameKey;
    if names == [] {
      assert claims + ClaimsOf(n, names) == claims;
      assert forall k :: !HasNameKey(names, k) by { NoNameKey(); }
    } else {
      var rest, last := names[..|names| - 1], Claim(n, EntityKey(names[|names| - 1]));
      ServeOwn(claims, n, rest);
      assert claims + ClaimsOf(n, names) == (claims + ClaimsOf(n, rest)) + [last];
      ServeNext(claims + ClaimsOf(n, rest), last);
      forall k { HasNameKeySnoc(names, k); }
    }
  }

  lemma NoNameKey()
    ensures forall k :: !HasNameKey([], k)
  {
  }

  // Every key is served, to the earliest entity that has it.
  ghost predicate ServesEarliest(entities: Entities, order: seq<string>, index: AliasIndex) {
    && (forall n, k :: n in order && IsKeyOf(entities, n, k) ==> k in index)
    && (forall k :: k in index ==> index[k] in order && IsKeyOf(entities, index[k], k))
    && (forall n, k :: k in index && n in order && Before(entities, n, index[k]) ==> !IsKeyOf(entities, n, k))
  }

  lemma ServesEarliestNext(entities: Entities, rest: seq<string>, n: string, before: AliasIndex, after: AliasIndex)
    requires ServesEarliest(entities, rest, before) && forall m :: m in rest ==> Before(entities, m, n)
    requires forall k :: k in after <==> k in before || IsKeyOf(entities, n, k)
    requires forall k :: k in after ==> after[k] == if k in before then before[k] else n
    ensures ServesEarliest(entities, rest + [n], after)
  {
    hide IsKeyOf, Before;
    BeforeIsOrder(entities);
    forall m, k | k in after && m in rest + [n] && Before(entities, m, after[k])
      ensures !IsKeyOf(entities, m, k)
    {
      if k in before {
        assert Before(entities, before[k], n);
        assert !Before(entities, n, before[k]);
      }
    }
  }

  // Each key goes to the earliest entity that has it.
  lemma {:induction false} KeysGoToEarliest(entities: Entities, order: seq<string>)
    requires WellNamed(entities) && forall n :: n in order ==> n in entities
    requires forall i, j :: 0 <= i < j < |order| ==> Before(entities, order[i], order[j])
    ensures ServesEarliest(entities, order, ServeAll(AllClaims(entities, order)))
  {
    hide EntityKey, ServeAll, IsKeyOf, Before, HasNameKey, ServesEarliest;
    if order == [] {
      NothingServed();
      assert AllClaims(entities, order) == [];
      NoneServed(entities);
    } else {
      var rest, n := order[..|order| - 1], order[|order| - 1];
      assert order == rest + [n];
      KeysGoToEarliest(entities, rest);
      NotServedYet(entities, rest, n, ServeAll(AllClaims(entities, rest)));
      ServeOwn(AllClaims(entities, rest), n, NamesOf(entities, n));
      NamesHaveKeys(entities, n);
      ServesEarliestNext(entities, rest, n, ServeAll(AllClaims(entities, rest)), ServeAll(AllClaims(entities, order)));
    }
  }

  lemma NoneServed(entities: Entities)
    ensures ServesEarliest(entities, [], map[])
  {
  }

  lemma NotServedYet(entities: Entities, rest: seq<string>, n: string, index: AliasIndex)
    requires ServesEarliest(entities, rest, index) && forall m :: m in rest ==> Before(entities, m, n)
    ensures forall k :: k in index ==> index[k] != n
  {
    hide Earlier;
    EarlierIsOrder();
  }

  // The merges called for, entity by entity.
  function LateMerges(entities: Entities, index: AliasIndex, order: seq<string>): seq<(string, string)>
    requires forall n :: n in order ==> n in entities
  {
    if order == [] then []
    else
      LateMerges(entities, index, order[..|order| - 1])
        + LateOwners(index, order[|order| - 1], NamesOf(entities, order[|order| - 1]))
  }

  // Which merges are called for can be read off the finished index.
  lemma {:induction false} MergesAreLate(entities: Entities, order: seq<string>, index: AliasIndex)
    requires WellNamed(entities) && forall n :: n in order ==> n in entities
    requires forall i, j :: 0 <= i < j < |order| ==> Before(entities, order[i], order[j])
    requires IndexExtends(index, ServeAll(AllClaims(entities, order)))
    ensures DeferAll(AllClaims(entities, order)) == LateMerges(entities, index, order)
  {
    hide EntityKey, ServeAll, DeferAll, Before, HasNameKey, LateOwners, IsKeyOf;
    BeforeIsOrder(entities);
    if order == [] {
      NothingServed();
    } else {
      var rest, n := order[..|order| - 1], order[|order| - 1];
      assert order == rest + [n];
      var before, after := ServeAll(AllClaims(entities, rest)), ServeAll(AllClaims(entities, order));
      KeysGoToEarliest(entities, rest);
      assert forall m :: m in rest ==> Before(entities, m, n);
      ServeOwn(AllClaims(entities, rest), n, NamesOf(entities, n));
      MergesAreLate(entities, rest, index);
      forall j | 0 <= j < |NamesOf(entities, n)|
        ensures HasNameKey(NamesOf(entities, n), EntityKey(NamesOf(entities, n)[j]))
      {
        NameHasKey(NamesOf(entities, n), j);
      }
      SameLateOwners(before, index, n, NamesOf(entities, n));
    }
  }

  // index agrees with all that was served.
  ghost predicate IndexExtends(index: AliasIndex, served: AliasIndex) {
    forall k :: k in served ==> k in index && index[k] == served[k]
  }

  lemma NameHasKey(names: seq<string>, j: nat)
    requires j < |names|
    ensures HasNameKey(names, EntityKey(names[j]))
  {
  }

  lemma {:induction false} SameLateOwners(before: AliasIndex, index: AliasIndex, n: string, names: seq<string>)
    requires forall j :: 0 <= j < |names| ==>
      var k := EntityKey(names[j]); k in index && index[k] == if k in before then before[k] else n
    ensures LateOwners(before, n, names) == LateOwners(index, n, names)
  {
    hide EntityKey;
    if names != [] {
      var rest := names[..|names| - 1];
      assert forall j :: 0 <= j < |rest| ==> rest[j] == names[j];
      SameLateOwners(before, index, n, rest);
      assert EntityKey(names[|names| - 1]) in index;
    }
  }

  ghost predicate NoAliases(entities: Entities) {
    forall n :: n in entities ==> entities[n].aliases == []
  }

  // n is its key's representative: the earliest entity with its key.
  ghost predicate IsEarliest(entities: Entities, n: string) {
    n in entities && forall m :: m in entities && EntityKey(m) == EntityKey(n) && m != n ==> Before(entities, n, m)
  }

  lemma NothingServed()
    ensures ServeAll([]) == map[] && DeferAll([]) == []
  {
  }

  lemma {:induction false} OwnersAreClaimants(claims: seq<Claim>)
    ensures forall k :: k in ServeAll(claims) ==>
      exists j :: 0 <= j < |claims| && claims[j] == Claim(ServeAll(claims)[k], k)
  {
    if claims != [] {
      var rest := claims[..|claims| - 1];
      OwnersAreClaimants(rest);
      forall k | k in ServeAll(claims)
        ensures exists j :: 0 <= j < |claims| && claims[j] == Claim(ServeAll(claims)[k], k)
      {
        if k in ServeAll(rest) {
          var j :| 0 <= j < |rest| && rest[j] == Claim(ServeAll(rest)[k], k);
          assert claims[j] == rest[j];
        } else {
          assert claims[|rest|].key == k;
        }
      }
    }
  }

  lemma ServedIsStructured(entities: Entities, mentions: MentionLists, g: Graph, nodeOf: NodeOf, nameOf: NameOf,
                           order: seq<string>)
    requires IsStructured(entities, mentions, g, nodeOf, nameOf, map[])
    requires forall n :: n in order ==> n in entities && entities[n].name == n
    ensures IsStructured(entities, mentions, g, nodeOf, nameOf, ServeAll(AllClaims(entities, order)))
  {
    hide EntityKey, ValidGraph, IndexesNodes;
    var claims := AllClaims(entities, order);
    ClaimedNames(entities, order);
    OwnersAreClaimants(claims);
    forall k | k in ServeAll(claims)
      ensures ServeAll(claims)[k] in entities
    {
      var j :| 0 <= j < |claims| && claims[j] == Claim(ServeAll(claims)[k], k);
      assert claims[j] in claims;
    }
  }

  lemma ListedInOrder(entities: Entities, pairs: seq<(Time, string)>, order: seq<string>)
    requires StrictOrder(Earlier) && SortedBy(Earlier, pairs)
    requires forall p :: p in pairs <==> p.1 in entities && p.0 == entities[p.1].firstMentioned
    requires |order| == |pairs| && forall k :: 0 <= k < |order| ==> order[k] == pairs[k].1
    ensures InMentionOrder(entities, order) && Distinct(order)
  {
    hide StrLess;
    forall k | 0 <= k < |pairs|
      ensures order[k] in entities && pairs[k] == (entities[order[k]].firstMentioned, order[k])
    {
      assert pairs[k] in pairs;
    }
    forall n | n in entities
      ensures n in order
    {
      var p := (entities[n].firstMentioned, n);
      assert p in pairs;
      var k :| 0 <= k < |pairs| && pairs[k] == p;
      assert order[k] == n;
    }
    forall i, j | 0 <= i < j < |order|
      ensures order[i] != order[j]
    {
      assert Earlier(pairs[i], pairs[j]);
    }
  }
}
