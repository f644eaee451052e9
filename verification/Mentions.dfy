// Mention lists: which records mention an entity, each once, in order of
// first mention.
module Mentions {
  import opened Types
  import opened Sorting
  import opened Names

  type MentionLists = map<string, seq<Uuid>>

  // What a record says about entities.
  datatype Update = Update(
    id: Uuid,
    timestamp: Time,
    title: string,
    typedEntities: seq<(string, EntityType)>,
    createsEntities: seq<string>,
    referencesEntities: seq<string>,
    createsRelationships: seq<Relation>)

  function TypedNames(typed: seq<(string, EntityType)>): seq<string> {
    if typed == [] then [] else [typed[0].0] + TypedNames(typed[1..])
  }

  function EndNames(rels: seq<Relation>): seq<string> {
    if rels == [] then [] else [rels[0].from, rels[0].to] + EndNames(rels[1..])
  }

  // The typed, created and referenced entities and the ends of the
  // relations, repeats included.
  function MentionedNames(u: Update): seq<string> {
    TypedNames(u.typedEntities) + u.createsEntities + u.referencesEntities + EndNames(u.createsRelationships)
  }

  function ListOf(m: MentionLists, c: string): seq<Uuid> {
    if c in m then m[c] else []
  }

  // Record id as mentioning entity c.
  function Mention(m: MentionLists, c: string, id: Uuid): MentionLists {
    var ids := ListOf(m, c);
    m[c := if id in ids then ids else ids + [id]]
  }

  // Record id under every known name.
  function MentionAll(m: MentionLists, entities: Entities, index: AliasIndex, names: seq<string>,
                      id: Uuid): MentionLists {
    if names == [] then m
    else
      var earlier := MentionAll(m, entities, index, names[..|names| - 1], id);
      match ResolveIn(entities, index, names[|names| - 1])
      case Some(c) => Mention(earlier, c, id)
      case None => earlier
  }

  function LinkUpdate(m: MentionLists, entities: Entities, index: AliasIndex, u: Update): MentionLists {
    MentionAll(m, entities, index, MentionedNames(u), u.id)
  }

  function LinkAll(m: MentionLists, entities: Entities, index: AliasIndex, us: seq<Update>): MentionLists {
    if us == [] then m
    else LinkUpdate(LinkAll(m, entities, index, us[..|us| - 1]), entities, index, us[|us| - 1])
  }

  // Some name in the list refers to entity c.
  ghost predicate Refers(entities: Entities, index: AliasIndex, names: seq<string>, c: string) {
    exists k :: 0 <= k < |names| && ResolveIn(entities, index, names[k]) == Some(c)
  }

  function AddId(ids: seq<Uuid>, id: Uuid): seq<Uuid> {
    if id in ids then ids else ids + [id]
  }

  // Mentioning under several spellings mentions once.
  lemma {:induction false} MentionAllEffect(m: MentionLists, entities: Entities, index: AliasIndex,
                                            names: seq<string>, id: Uuid, c: string)
    ensures ListOf(MentionAll(m, entities, index, names, id), c)
         == if Refers(entities, index, names, c) then AddId(ListOf(m, c), id) else ListOf(m, c)
    ensures c in MentionAll(m, entities, index, names, id) <==> c in m || Refers(entities, index, names, c)
  {
    if names != [] {
      var rest, last := names[..|names| - 1], names[|names| - 1];
      MentionAllEffect(m, entities, index, rest, id, c);
      assert Refers(entities, index, names, c) <==>
        Refers(entities, index, rest, c) || ResolveIn(entities, index, last) == Some(c) by {
        RefersSnoc(entities, index, names, c);
      }
    }
  }

  lemma RefersSnoc(entities: Entities, index: AliasIndex, names: seq<string>, c: string)
    requires names != []
    ensures Refers(entities, index, names, c) <==>
      Refers(entities, index, names[..|names| - 1], c) || ResolveIn(entities, index, names[|names| - 1]) == Some(c)
  {
    var rest := names[..|names| - 1];
    if Refers(entities, index, rest, c) {
      var k :| 0 <= k < |rest| && ResolveIn(entities, index, rest[k]) == Some(c);
      assert names[k] == rest[k];
    }
  }

  ghost predicate IsEnd(r: Relation, x: string) { r.from == x || r.to == x }

  // What the update names: typed, created and referenced entities, and the
  // ends of its relations.
  ghost predicate Says(u: Update, x: string) {
    || (exists k :: 0 <= k < |u.typedEntities| && u.typedEntities[k].0 == x)
    || x in u.createsEntities || x in u.referencesEntities
    || (exists k :: 0 <= k < |u.createsRelationships| && IsEnd(u.createsRelationships[k], x))
  }

  // The update names entity c in some spelling.
  ghost predicate Concerns(entities: Entities, index: AliasIndex, u: Update, c: string) {
    exists x :: Says(u, x) && ResolveIn(entities, index, x) == Some(c)
  }

  lemma {:induction false} TypedNamesAre(typed: seq<(string, EntityType)>, x: string)
    ensures x in TypedNames(typed) <==> exists k :: 0 <= k < |typed| && typed[k].0 == x
  {
    if typed != [] {
      TypedNamesAre(typed[1..], x);
      if k :| 0 <= k < |typed| && typed[k].0 == x {
        assert k > 0 ==> typed[1..][k - 1].0 == x;
      }
      if k :| 0 <= k < |typed[1..]| && typed[1..][k].0 == x {
        assert typed[k + 1].0 == x;
      }
    }
  }

  lemma {:induction false} EndNamesAre(rels: seq<Relation>, x: string)
    ensures x in EndNames(rels) <==> exists k :: 0 <= k < |rels| && IsEnd(rels[k], x)
  {
    if rels != [] {
      EndNamesAre(rels[1..], x);
      if k :| 0 <= k < |rels| && IsEnd(rels[k], x) {
        assert k > 0 ==> rels[1..][k - 1] == rels[k];
      }
      if k :| 0 <= k < |rels[1..]| && IsEnd(rels[1..][k], x) {
        assert rels[k + 1] == rels[1..][k];
      }
    }
  }

  // The listed names are just the names the update says.
  lemma MentionedAreSaid(u: Update)
    ensures forall x :: x in MentionedNames(u) <==> Says(u, x)
  {
    forall x
      ensures x in MentionedNames(u) <==> Says(u, x)
    {
      TypedNamesAre(u.typedEntities, x);
      EndNamesAre(u.createsRelationships, x);
    }
  }

  lemma RefersIsConcerns(entities: Entities, index: AliasIndex, u: Update, c: string)
    ensures Refers(entities, index, MentionedNames(u), c) <==> Concerns(entities, index, u, c)
  {
    MentionedAreSaid(u);
    hide MentionedNames, Says, ResolveIn;
    var names := MentionedNames(u);
    if Refers(entities, index, names, c) {
      var k :| 0 <= k < |names| && ResolveIn(entities, index, names[k]) == Some(c);
      assert names[k] in names;
    }
    if Concerns(entities, index, u, c) {
      var x :| Says(u, x) && ResolveIn(entities, index, x) == Some(c);
      assert x in names;
    }
  }

  // Every entity the update names is linked to it, after the records it was
  // linked to before; nothing else changes.
  ghost predicate LinksTo(before: MentionLists, after: MentionLists, entities: Entities, index: AliasIndex, u: Update) {
    && (forall c :: u.id in ListOf(after, c) <==> u.id in ListOf(before, c) || Concerns(entities, index, u, c))
    && (forall c, id :: id != u.id ==> (id in ListOf(after, c) <==> id in ListOf(before, c)))
    && (forall c :: ListOf(before, c) <= ListOf(after, c))
  }

  lemma LinkUpdateLinks(m: MentionLists, entities: Entities, index: AliasIndex, u: Update)
    ensures LinksTo(m, LinkUpdate(m, entities, index, u), entities, index, u)
  {
    hide MentionedNames, Concerns, MentionAll, Refers;
    forall c
      ensures var ids, ids' := ListOf(m, c), ListOf(LinkUpdate(m, entities, index, u), c);
        ids' == if Concerns(entities, index, u, c) && u.id !in ids then ids + [u.id] else ids
    {
      MentionAllEffect(m, entities, index, MentionedNames(u), u.id, c);
      RefersIsConcerns(entities, index, u, c);
    }
  }

  // The ids of the updates that mention c, each at its first mention.
  ghost function FirstMentions(entities: Entities, index: AliasIndex, us: seq<Update>, c: string): seq<Uuid> {
    if us == [] then []
    else
      var earlier := FirstMentions(entities, index, us[..|us| - 1], c);
      if Concerns(entities, index, us[|us| - 1], c) then AddId(earlier, us[|us| - 1].id) else earlier
  }

  // Linking update after update gives every entity its first mentions.
  lemma {:induction false} LinkAllIsFirstMentions(entities: Entities, index: AliasIndex, us: seq<Update>, c: string)
    ensures ListOf(LinkAll(map[], entities, index, us), c) == FirstMentions(entities, index, us, c)
    ensures c in LinkAll(map[], entities, index, us) <==> FirstMentions(entities, index, us, c) != []
  {
    if us != [] {
      var rest, u := us[..|us| - 1], us[|us| - 1];
      LinkAllIsFirstMentions(entities, index, rest, c);
      MentionAllEffect(LinkAll(map[], entities, index, rest), entities, index, MentionedNames(u), u.id, c);
      RefersIsConcerns(entities, index, u, c);
    }
  }

  // First mentions hold exactly the ids of the mentioning updates, each once,
  // ordered as the updates are.
  lemma {:induction false} FirstMentionsMeaning(entities: Entities, index: AliasIndex, us: seq<Update>, c: string)
    ensures Distinct(FirstMentions(entities, index, us, c))
    ensures forall id :: id in FirstMentions(entities, index, us, c) <==> MentionedIn(entities, index, us, c, id)
    ensures us != [] ==> FirstMentions(entities, index, us[..|us| - 1], c) <= FirstMentions(entities, index, us, c)
  {
    hide Concerns;
    if us != [] {
      var rest, u := us[..|us| - 1], us[|us| - 1];
      FirstMentionsMeaning(entities, index, rest, c);
      forall id
        ensures MentionedIn(entities, index, us, c, id) <==>
          MentionedIn(entities, index, rest, c, id) || (u.id == id && Concerns(entities, index, u, c))
      {
        if MentionedIn(entities, index, rest, c, id) {
          var k :| 0 <= k < |rest| && rest[k].id == id && Concerns(entities, index, rest[k], c);
          assert us[k] == rest[k];
        }
      }
    }
  }

  ghost predicate MentionedIn(entities: Entities, index: AliasIndex, us: seq<Update>, c: string, id: Uuid) {
    exists k :: 0 <= k < |us| && us[k].id == id && Concerns(entities, index, us[k], c)
  }

  // Some update mentions c under id before any does under later.
  ghost predicate MentionedBefore(entities: Entities, index: AliasIndex, us: seq<Update>, c: string, id: Uuid,
                                  later: Uuid)
  {
    exists k :: 0 <= k <= |us|
      && MentionedIn(entities, index, us[..k], c, id) && !MentionedIn(entities, index, us[..k], c, later)
  }

  // The ids are in the order in which the updates first mention c.
  lemma {:induction false} FirstMentionsInOrder(entities: Entities, index: AliasIndex, us: seq<Update>, c: string,
                                                p: nat, q: nat)
    requires p < q < |FirstMentions(entities, index, us, c)|
    ensures var ids := FirstMentions(entities, index, us, c);
      MentionedBefore(entities, index, us, c, ids[p], ids[q])
  {
    hide Concerns, MentionedIn, Distinct;
    if us != [] {
      var rest, ids := us[..|us| - 1], FirstMentions(entities, index, us, c);
      var earlier := FirstMentions(entities, index, rest, c);
      if q < |earlier| {
        FirstMentionsInOrder(entities, index, rest, c, p, q);
        var k :| 0 <= k <= |rest| && MentionedIn(entities, index, rest[..k], c, ids[p])
          && !MentionedIn(entities, index, rest[..k], c, ids[q]);
        assert rest[..k] == us[..k];
      } else {
        FirstMentionsMeaning(entities, index, rest, c);
        assert ids[p] == earlier[p] && ids[q] !in earlier && us[..|us| - 1] == rest;
      }
    }
  }

  lemma LinkedInOrder(entities: Entities, index: AliasIndex, us: seq<Update>)
    ensures var m := LinkAll(map[], entities, index, us);
      && (forall c, id :: id in ListOf(m, c) <==> MentionedIn(entities, index, us, c, id))
      && (forall c, p, q :: 0 <= p < q < |ListOf(m, c)| ==>
           MentionedBefore(entities, index, us, c, ListOf(m, c)[p], ListOf(m, c)[q]))
  {
    hide MentionedIn, MentionedBefore, LinkAll, FirstMentions;
    var m := LinkAll(map[], entities, index, us);
    forall c, id
      ensures id in ListOf(m, c) <==> MentionedIn(entities, index, us, c, id)
    {
      LinkAllIsFirstMentions(entities, index, us, c);
      FirstMentionsMeaning(entities, index, us, c);
    }
    forall c, p, q | 0 <= p < q < |ListOf(m, c)|
      ensures MentionedBefore(entities, index, us, c, ListOf(m, c)[p], ListOf(m, c)[q])
    {
      LinkAllIsFirstMentions(entities, index, us, c);
      FirstMentionsInOrder(entities, index, us, c, p, q);
    }
  }

  // The ids that are not there yet, appended in order.
  function AppendNew(ids: seq<Uuid>, more: seq<Uuid>): seq<Uuid>
    decreases |more|
  {
    if more == [] then ids else AppendNew(AddId(ids, more[0]), more[1..])
  }

  lemma {:induction false} AppendedIds(ids: seq<Uuid>, more: seq<Uuid>)
    requires Distinct(ids)
    ensures Distinct(AppendNew(ids, more)) && ids <= AppendNew(ids, more)
    ensures forall id :: id in AppendNew(ids, more) <==> id in ids || id in more
    decreases |more|
  {
    if more != [] {
      assert forall id :: id in more <==> id == more[0] || id in more[1..];
      AppendedIds(AddId(ids, more[0]), more[1..]);
    }
  }

  // They come last and in their order.
  lemma {:induction false} AppendedInOrder(ids: seq<Uuid>, more: seq<Uuid>)
    ensures ids <= AppendNew(ids, more) && IsPartOf(AppendNew(ids, more)[|ids|..], more)
    decreases |more|
  {
    if more != [] {
      var id, rest, all := more[0], more[1..], AppendNew(ids, more);
      if id in ids {
        AppendedInOrder(ids, rest);
      } else {
        AppendedInOrder(ids + [id], rest);
        assert all[|ids|..][0] == id && all[|ids|..][1..] == all[|ids + [id]|..];
      }
    }
  }

  // The target of a merge takes over the mentions of the merged entity.
  function MoveMentions(m: MentionLists, a: string, i: string): MentionLists {
    var moved := ListOf(m, a);
    if moved == [] then m - {a} else (m - {a})[i := AppendNew(ListOf(m - {a}, i), moved)]
  }

  // After a merge the target has the ids of both lists, each once, its own
  // first and the others in their order; the merged entity has none and the
  // other lists stay.
  lemma MovedIsUnion(m: MentionLists, a: string, i: string)
    requires a != i && forall n :: n in m ==> Distinct(m[n])
    ensures var after := MoveMentions(m, a, i);
      && Distinct(ListOf(after, i)) && ListOf(m, i) <= ListOf(after, i)
      && IsPartOf(ListOf(after, i)[|ListOf(m, i)|..], ListOf(m, a))
      && (forall id :: id in ListOf(after, i) <==> id in ListOf(m, i) || id in ListOf(m, a))
      && a !in after && (forall n :: n != a && n != i ==> ListOf(after, n) == ListOf(m, n))
  {
    AppendedIds(ListOf(m - {a}, i), ListOf(m, a));
    AppendedInOrder(ListOf(m - {a}, i), ListOf(m, a));
  }
}
