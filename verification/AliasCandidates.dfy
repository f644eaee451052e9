// Entity pairs where one key is a prefix of the other, found by scanning the
// keys in order instead of comparing all pairs.
module AliasCandidates {
  import opened Types
  import opened Sorting
  import opened Strings
  import opened Names
  import opened Mentions

  type Keyed = (string, string)

  datatype Candidate = Candidate(name: string, of: string, shared: nat)

  predicate KeyedLess(a: Keyed, b: Keyed) {
    StrLess(a.0, b.0) || (a.0 == b.0 && StrLess(a.1, b.1))
  }

  lemma KeyedLessIsOrder()
    ensures StrictOrder(KeyedLess)
  {
    StrLessIsOrder();
    hide StrLess;
  }

  // What comparing two names directly decides: the first key is a proper
  // prefix of the second and has at least four characters.
  predicate IsPrefixPair(name: string, of: string) {
    |EntityKey(name)| >= 4 && EntityKey(name) < EntityKey(of)
  }

  // The records of one entity that mention the other too.
  ghost function SharedAt(mentions: MentionLists, name: string, of: string): set<nat> {
    PlacesIn(ListOf(mentions, of), ListOf(mentions, name))
  }

  // The records that mention both.
  function SharedRecords(mentions: MentionLists, name: string, of: string): (n: nat)
    ensures n == |SharedAt(mentions, name, of)|
  {
    CountsPlaces(ListOf(mentions, of), ListOf(mentions, name));
    CountIn(ListOf(mentions, of), ListOf(mentions, name))
  }

  lemma {:induction false} CountsPlaces(ids: seq<Uuid>, mine: seq<Uuid>)
    ensures CountIn(ids, mine) == |PlacesIn(ids, mine)|
  {
    if ids != [] {
      CountsPlaces(ids[1..], mine);
      ShiftedCount(PlacesIn(ids[1..], mine));
      PlacesCons(ids, mine);
      ShiftedHas(PlacesIn(ids[1..], mine), 0);
      hide PlacesIn, Shifted;
    }
  }

  ghost function PlacesIn(ids: seq<Uuid>, mine: seq<Uuid>): set<nat> {
    set j: nat | j < |ids| && ids[j] in mine
  }

  ghost function Shifted(s: set<nat>): set<nat> {
    set j | j in s :: j + 1
  }

  lemma ShiftedHas(s: set<nat>, k: nat)
    ensures k in Shifted(s) <==> k > 0 && k - 1 in s
  {
    if k > 0 && k - 1 in s {
      var j := k - 1;
      assert j in s && j + 1 == k;
    }
  }

  lemma ShiftedWithout(s: set<nat>, j: nat)
    requires j in s
    ensures Shifted(s) == Shifted(s - {j}) + {j + 1} && j + 1 !in Shifted(s - {j})
  {
    forall k: nat
      ensures k in Shifted(s) <==> k in Shifted(s - {j}) || k == j + 1
    {
      ShiftedHas(s, k);
      ShiftedHas(s - {j}, k);
    }
    ShiftedHas(s - {j}, j + 1);
    hide Shifted;
  }

  lemma {:induction false} ShiftedCount(s: set<nat>)
    ensures |Shifted(s)| == |s|
    decreases s
  {
    if j :| j in s {
      ShiftedCount(s - {j});
      ShiftedWithout(s, j);
      hide Shifted;
    }
  }

  lemma PlacesCons(ids: seq<Uuid>, mine: seq<Uuid>)
    requires ids != []
    ensures PlacesIn(ids, mine) == Shifted(PlacesIn(ids[1..], mine)) + if ids[0] in mine then {0} else {}
  {
    var later := PlacesIn(ids[1..], mine);
    forall j: nat
      ensures j in PlacesIn(ids, mine) <==> j in Shifted(later) || (j == 0 && ids[0] in mine)
    {
      ShiftedHas(later, j);
      assert j > 0 && j < |ids| ==> ids[1..][j - 1] == ids[j];
    }
    hide Shifted;
  }

  function CountIn(ids: seq<Uuid>, mine: seq<Uuid>): nat {
    if ids == [] then 0 else (if ids[0] in mine then 1 else 0) + CountIn(ids[1..], mine)
  }

  ghost function Common(ids: seq<Uuid>, mine: seq<Uuid>): set<Uuid> {
    set id | id in ids && id in mine
  }

  // In lists without repeats, counting is counting the common ids.
  lemma {:induction false} CountIsIntersection(ids: seq<Uuid>, mine: seq<Uuid>)
    requires Distinct(ids)
    ensures CountIn(ids, mine) == |Common(ids, mine)|
  {
    if ids != [] {
      var first, rest := ids[0], ids[1..];
      CountIsIntersection(rest, mine);
      CommonCons(ids, mine);
    }
  }

  lemma CommonCons(ids: seq<Uuid>, mine: seq<Uuid>)
    requires ids != [] && Distinct(ids)
    ensures |Common(ids, mine)| == |Common(ids[1..], mine)| + if ids[0] in mine then 1 else 0
  {
    var first, rest := ids[0], ids[1..];
    assert ids == [first] + rest;
    assert first !in rest;
    if first in mine {
      assert Common(ids, mine) == Common(rest, mine) + {first};
      assert first !in Common(rest, mine);
    } else {
      assert Common(ids, mine) == Common(rest, mine);
    }
  }

  ghost predicate HasCandidate(out: seq<Candidate>, name: string, of: string) {
    exists k :: 0 <= k < |out| && out[k].name == name && out[k].of == of
  }

  ghost predicate DistinctCandidates(out: seq<Candidate>) {
    forall i, j :: 0 <= i < j < |out| ==> out[i].name != out[j].name || out[i].of != out[j].of
  }

  // The keys of the entities in order, ties by name.
  ghost predicate IsKeyed(names: set<string>, keyed: seq<Keyed>) {
    && SortedBy(KeyedLess, keyed)
    && (forall p :: p in keyed <==> p.1 in names && p.0 == EntityKey(p.1))
  }

  lemma NotBefore(keyed: seq<Keyed>, i: nat, j: nat)
    requires StrictOrder(KeyedLess) && SortedBy(KeyedLess, keyed) && j <= i < |keyed|
    ensures !KeyedLess(keyed[i], keyed[j])
  {
    hide KeyedLess;
  }

  // Only keys after a key extend it, and those that extend it follow it
  // directly.
  lemma ExtensionsFollow(names: set<string>, keyed: seq<Keyed>, i: nat, j: nat)
    requires IsKeyed(names, keyed) && i < |keyed| && j < |keyed|
    ensures keyed[i].0 < keyed[j].0 ==> i < j
    ensures i < j && keyed[i].0 <= keyed[j].0 ==> forall k :: i < k < j ==> keyed[i].0 <= keyed[k].0
  {
    hide StrLess;
    KeyedLessIsOrder();
    StrLessIsOrder();
    if keyed[i].0 < keyed[j].0 {
      PrefixIsLess(keyed[i].0, keyed[j].0);
      assert KeyedLess(keyed[i], keyed[j]);
      if j <= i {
        NotBefore(keyed, i, j);
      }
    }
    if i < j && keyed[i].0 <= keyed[j].0 {
      forall k | i < k < j
        ensures keyed[i].0 <= keyed[k].0
      {
        assert KeyedLess(keyed[i], keyed[k]) && KeyedLess(keyed[k], keyed[j]);
        PrefixSandwich(keyed[i].0, keyed[k].0, keyed[j].0);
      }
    }
  }

  // The candidates of one name.
  ghost predicate Extended(names: set<string>, mentions: MentionLists, name: string, out: seq<Candidate>) {
    && DistinctCandidates(out)
    && (forall k :: 0 <= k < |out| ==> out[k].name == name && out[k].shared == SharedRecords(mentions, name, out[k].of))
    && (forall of :: HasCandidate(out, name, of) <==> of in names && IsPrefixPair(name, of))
  }

  lemma CandidateSnoc(out: seq<Candidate>, c: Candidate)
    ensures forall name, of ::
      HasCandidate(out + [c], name, of) <==> HasCandidate(out, name, of) || (name == c.name && of == c.of)
    ensures DistinctCandidates(out) && !HasCandidate(out, c.name, c.of) ==> DistinctCandidates(out + [c])
  {
    forall name, of | HasCandidate(out, name, of)
      ensures HasCandidate(out + [c], name, of)
    {
      var k :| 0 <= k < |out| && out[k].name == name && out[k].of == of;
      assert (out + [c])[k] == out[k];
    }
    assert (out + [c])[|out|] == c;
  }

  // Some key before j, after i, belongs to the name and extends key i.
  ghost predicate InRun(keyed: seq<Keyed>, i: nat, j: nat, of: string) {
    exists k :: i < k < j && k < |keyed| && keyed[k].1 == of && keyed[i].0 != keyed[k].0
  }

  // The keys that extend key i, from the one after it on.
  method ExtensionsOf(ghost names: set<string>, mentions: MentionLists, keyed: seq<Keyed>,
                      i: nat) returns (out: seq<Candidate>)
    requires IsKeyed(names, keyed) && i < |keyed| && |keyed[i].0| >= 4
    ensures Extended(names, mentions, keyed[i].1, out)
  {
    hide EntityKey, IsKeyed, HasCandidate, DistinctCandidates, SharedRecords, InRun;
    var (short, name) := keyed[i];
    out := [];
    NothingYet(keyed, i);
    var j := i + 1;
    while j < |keyed| && short <= keyed[j].0
      invariant i < j <= |keyed|
      invariant forall k :: i < k < j ==> short <= keyed[k].0
      invariant DistinctCandidates(out)
      invariant forall k :: 0 <= k < |out| ==>
        out[k].name == name && out[k].shared == SharedRecords(mentions, name, out[k].of)
      invariant forall of :: HasCandidate(out, name, of) <==> InRun(keyed, i, j, of)
    {
      var (long, other) := keyed[j];
      RunSnoc(names, keyed, i, j);
      if long != short {
        var c := Candidate(name, other, SharedRecords(mentions, name, other));
        CandidateSnoc(out, c);
        out := out + [c];
      }
      j := j + 1;
    }
    RunIsAll(names, keyed, i, j);
  }

  lemma NothingYet(keyed: seq<Keyed>, i: nat)
    ensures DistinctCandidates([])
    ensures forall name, of :: !HasCandidate([], name, of)
    ensures forall j, of | j == i + 1 :: !InRun(keyed, i, j, of)
  {
  }

  lemma KeyedOnce(names: set<string>, keyed: seq<Keyed>, j: nat)
    requires IsKeyed(names, keyed) && j < |keyed|
    ensures forall k :: 0 <= k < j ==> keyed[k].1 != keyed[j].1
  {
    KeyedLessIsOrder();
    hide EntityKey;
    forall k | 0 <= k < j
      ensures keyed[k].1 != keyed[j].1
    {
      assert keyed[k] in keyed && keyed[j] in keyed;
      assert KeyedLess(keyed[k], keyed[j]);
    }
  }

  lemma RunSnoc(names: set<string>, keyed: seq<Keyed>, i: nat, j: nat)
    requires IsKeyed(names, keyed) && i < j < |keyed|
    ensures forall of ::
      InRun(keyed, i, j + 1, of) <==> InRun(keyed, i, j, of) || (keyed[j].0 != keyed[i].0 && keyed[j].1 == of)
    ensures !InRun(keyed, i, j, keyed[j].1)
  {
    assert forall k :: i < k < j ==> keyed[k].1 != keyed[j].1 by {
      KeyedOnce(names, keyed, j);
    }
    hide IsKeyed, KeyedLess, EntityKey, StrictOrder;
    forall of
      ensures InRun(keyed, i, j + 1, of) <==> InRun(keyed, i, j, of) || (keyed[j].0 != keyed[i].0 && keyed[j].1 == of)
    {
      if InRun(keyed, i, j, of) {
        var k :| i < k < j && k < |keyed| && keyed[k].1 == of && keyed[i].0 != keyed[k].0;
        assert i < k < j + 1;
      }
    }
  }

  // The run ends where the prefix does, so it holds every extension.
  lemma RunIsAll(names: set<string>, keyed: seq<Keyed>, i: nat, j: nat)
    requires IsKeyed(names, keyed) && i < j <= |keyed| && |keyed[i].0| >= 4
    requires forall k :: i < k < j ==> keyed[i].0 <= keyed[k].0
    requires j < |keyed| ==> !(keyed[i].0 <= keyed[j].0)
    ensures forall of :: InRun(keyed, i, j, of) <==> of in names && IsPrefixPair(keyed[i].1, of)
  {
    forall of
      ensures InRun(keyed, i, j, of) <==> of in names && IsPrefixPair(keyed[i].1, of)
    {
      if InRun(keyed, i, j, of) {
        InRunIsPair(names, keyed, i, j, of);
      }
      if of in names && IsPrefixPair(keyed[i].1, of) {
        PairIsInRun(names, keyed, i, j, of);
      }
    }
  }

  lemma InRunIsPair(names: set<string>, keyed: seq<Keyed>, i: nat, j: nat, of: string)
    requires IsKeyed(names, keyed) && i < j <= |keyed| && |keyed[i].0| >= 4
    requires forall k :: i < k < j ==> keyed[i].0 <= keyed[k].0
    requires InRun(keyed, i, j, of)
    ensures of in names && IsPrefixPair(keyed[i].1, of)
  {
    hide KeyedLess, EntityKey, SortedBy;
    assert keyed[i] in keyed;
    var k :| i < k < j && k < |keyed| && keyed[k].1 == of && keyed[i].0 != keyed[k].0;
    assert keyed[k] in keyed;
  }

  lemma PairIsInRun(names: set<string>, keyed: seq<Keyed>, i: nat, j: nat, of: string)
    requires IsKeyed(names, keyed) && i < j <= |keyed|
    requires j < |keyed| ==> !(keyed[i].0 <= keyed[j].0)
    requires of in names && IsPrefixPair(keyed[i].1, of)
    ensures InRun(keyed, i, j, of)
  {
    hide KeyedLess, EntityKey, SortedBy;
    assert keyed[i] in keyed;
    assert (EntityKey(of), of) in keyed;
    var k :| 0 <= k < |keyed| && keyed[k] == (EntityKey(of), of);
    ExtensionsFollow(names, keyed, i, k);
  }

  // The candidates of the first n names in key order.
  ghost predicate Collected(names: set<string>, mentions: MentionLists, keyed: seq<Keyed>, n: nat, out: seq<Candidate>)
    requires n <= |keyed|
  {
    && DistinctCandidates(out)
    && (forall k :: 0 <= k < |out| ==> out[k].shared == SharedRecords(mentions, out[k].name, out[k].of))
    && (forall name, of ::
         HasCandidate(out, name, of) <==> IsAmong(keyed, n, name) && of in names && IsPrefixPair(name, of))
  }

  ghost predicate IsAmong(keyed: seq<Keyed>, n: nat, name: string)
    requires n <= |keyed|
  {
    exists i :: 0 <= i < n && keyed[i].1 == name
  }

  lemma AmongNext(names: set<string>, keyed: seq<Keyed>, n: nat)
    requires IsKeyed(names, keyed) && n < |keyed|
    ensures forall name :: IsAmong(keyed, n + 1, name) <==> IsAmong(keyed, n, name) || keyed[n].1 == name
    ensures !IsAmong(keyed, n, keyed[n].1) && keyed[n].0 == EntityKey(keyed[n].1)
  {
    KeyedOnce(names, keyed, n);
    assert keyed[n] in keyed;
    hide IsKeyed, KeyedLess, StrictOrder;
    forall name | IsAmong(keyed, n, name) || keyed[n].1 == name
      ensures IsAmong(keyed, n + 1, name)
    {
      var i :| 0 <= i <= n && keyed[i].1 == name;
    }
    forall name | IsAmong(keyed, n + 1, name)
      ensures IsAmong(keyed, n, name) || keyed[n].1 == name
    {
      var i :| 0 <= i < n + 1 && keyed[i].1 == name;
    }
  }

  lemma HasAppended(out: seq<Candidate>, more: seq<Candidate>, name: string, of: string)
    ensures HasCandidate(out + more, name, of) <==> HasCandidate(out, name, of) || HasCandidate(more, name, of)
  {
    var all := out + more;
    if k :| 0 <= k < |out| && out[k].name == name && out[k].of == of {
      assert all[k] == out[k];
    }
    if k :| 0 <= k < |more| && more[k].name == name && more[k].of == of {
      assert all[|out| + k] == more[k];
    }
  }

  lemma AppendedDistinct(out: seq<Candidate>, more: seq<Candidate>, name: string)
    requires DistinctCandidates(out) && DistinctCandidates(more)
    requires forall k :: 0 <= k < |out| ==> out[k].name != name
    requires forall k :: 0 <= k < |more| ==> more[k].name == name
    ensures DistinctCandidates(out + more)
  {
  }

  // What is extended so far holds nothing of a name to come.
  lemma CollectedBefore(names: set<string>, mentions: MentionLists, keyed: seq<Keyed>, n: nat, out: seq<Candidate>,
                        name: string)
    requires n <= |keyed| && Collected(names, mentions, keyed, n, out) && !IsAmong(keyed, n, name)
    ensures forall k :: 0 <= k < |out| ==> out[k].name != name
  {
    hide IsAmong, DistinctCandidates;
    forall k | 0 <= k < |out|
      ensures out[k].name != name
    {
      assert HasCandidate(out, out[k].name, out[k].of);
    }
  }

  // Everything extends a name, or nothing if its key is too short.
  lemma ExtendedOnly(names: set<string>, mentions: MentionLists, name: string, more: seq<Candidate>)
    requires if |EntityKey(name)| >= 4 then Extended(names, mentions, name, more) else more == []
    ensures DistinctCandidates(more) && forall k :: 0 <= k < |more| ==> more[k].name == name
    ensures forall k :: 0 <= k < |more| ==> more[k].shared == SharedRecords(mentions, more[k].name, more[k].of)
    ensures forall a, of :: HasCandidate(more, a, of) <==> a == name && of in names && IsPrefixPair(name, of)
  {
    hide EntityKey, SharedRecords;
    forall a, of | HasCandidate(more, a, of)
      ensures a == name
    {
    }
  }

  lemma CollectMore(names: set<string>, mentions: MentionLists, keyed: seq<Keyed>, n: nat, out: seq<Candidate>,
                    more: seq<Candidate>)
    requires IsKeyed(names, keyed) && n < |keyed| && Collected(names, mentions, keyed, n, out)
    requires if |keyed[n].0| >= 4 then Extended(names, mentions, keyed[n].1, more) else more == []
    ensures Collected(names, mentions, keyed, n + 1, out + more)
  {
    var name := keyed[n].1;
    AmongNext(names, keyed, n);
    CollectedBefore(names, mentions, keyed, n, out, name);
    ExtendedOnly(names, mentions, name, more);
    hide IsKeyed, IsAmong, EntityKey, SharedRecords, Extended, HasCandidate, IsPrefixPair;
    AppendedDistinct(out, more, name);
    hide DistinctCandidates;
    forall a, of { HasAppended(out, more, a, of); }
  }

  predicate RanksFirst(a: Candidate, b: Candidate) {
    a.shared > b.shared ||
    (a.shared == b.shared && (StrLess(a.name, b.name) || (a.name == b.name && StrLess(a.of, b.of))))
  }

  // More shared records, or as many and not behind by name: a may be listed
  // before b.
  ghost predicate Ahead(a: Candidate, b: Candidate) {
    && a.shared >= b.shared
    && (a.shared == b.shared ==> a.name == b.name || StrLess(a.name, b.name))
    && (a.shared == b.shared && a.name == b.name ==> a.of == b.of || StrLess(a.of, b.of))
  }

  lemma NotBehindIsAhead()
    ensures forall a, b :: !RanksFirst(b, a) ==> Ahead(a, b)
  {
    StrLessIsOrder();
    hide StrLess;
  }

  lemma RanksFirstIsWeakOrder()
    ensures WeakOrder(RanksFirst)
  {
    StrLessIsOrder();
    hide StrLess;
  }

  // All prefix pairs of the entities with their shared records, each once.
  ghost predicate AreAllPairs(names: set<string>, mentions: MentionLists, all: seq<Candidate>) {
    && DistinctCandidates(all)
    && (forall k :: 0 <= k < |all| ==> all[k].shared == SharedRecords(mentions, all[k].name, all[k].of))
    && (forall name, of :: HasCandidate(all, name, of) <==> name in names && of in names && IsPrefixPair(name, of))
  }

  lemma AllCollected(names: set<string>, mentions: MentionLists, keyed: seq<Keyed>, out: seq<Candidate>)
    requires IsKeyed(names, keyed) && Collected(names, mentions, keyed, |keyed|, out)
    ensures AreAllPairs(names, mentions, out)
  {
    hide HasCandidate, IsPrefixPair, SharedRecords, EntityKey, KeyedLess;
    forall name
      ensures IsAmong(keyed, |keyed|, name) <==> name in names
    {
      if name in names {
        assert (EntityKey(name), name) in keyed;
      }
      if IsAmong(keyed, |keyed|, name) {
        var i :| 0 <= i < |keyed| && keyed[i].1 == name;
        assert keyed[i] in keyed;
      }
    }
  }

  // The best-ranked of all pairs.
  ghost predicate AreBestPairs(names: set<string>, mentions: MentionLists, limit: nat, best: seq<Candidate>) {
    exists all :: AreAllPairs(names, mentions, all) && AreBest(Ahead, limit, all, best)
  }

  // The pairs the scan finds are those a comparison of all pairs finds, and
  // the result is the best-ranked of them.
  method FindAliasCandidates(entities: Entities, mentions: MentionLists, limit: nat) returns (best: seq<Candidate>)
    ensures AreBestPairs(entities.Keys, mentions, limit, best)
  {
    hide EntityKey, Collected, AreAllPairs, Extended, RanksFirst, Sort, Distinct, KeyedLess, AreFirst, AreBest, Ahead;
    KeyedLessIsOrder();
    var keyed := SortedListing(KeyedLess, set n | n in entities :: (EntityKey(n), n));
    assert IsKeyed(entities.Keys, keyed);
    var out: seq<Candidate> := [];
    assert Collected(entities.Keys, mentions, keyed, 0, out) by { NoneCollected(entities.Keys, mentions, keyed); }
    for i := 0 to |keyed|
      invariant Collected(entities.Keys, mentions, keyed, i, out)
    {
      var more: seq<Candidate> := [];
      if |keyed[i].0| >= 4 {
        more := ExtensionsOf(entities.Keys, mentions, keyed, i);
      }
      CollectMore(entities.Keys, mentions, keyed, i, out, more);
      out := out + more;
    }
    AllCollected(entities.Keys, mentions, keyed, out);
    best := Sort(RanksFirst, out);
    RanksFirstIsWeakOrder();
    PrefixIsFirst(RanksFirst, limit, out);
    SortElements(RanksFirst, out);
    if |best| >= limit {
      best := best[..limit];
    }
    NotBehindIsAhead();
    FirstAreBest(RanksFirst, Ahead, limit, out, best);
  }

  lemma NoneCollected(names: set<string>, mentions: MentionLists, keyed: seq<Keyed>)
    ensures Collected(names, mentions, keyed, 0, [])
  {
  }
}
