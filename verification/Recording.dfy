// What recording the entities an update creates makes of each entity, however
// often and in whatever spellings it is named.
module Recording {
  import opened Types
  import opened Names
  import opened Mentions
  import opened GraphState

  type Created = seq<(string, EntityType)>

  // The typed entities as given, or else the untyped names as concepts.
  ghost predicate IsCreated(u: Update, created: Created) {
    if u.typedEntities != [] then created == u.typedEntities
    else
      && |created| == |u.createsEntities|
      && forall k :: 0 <= k < |created| ==> created[k] == (u.createsEntities[k], Concept)
  }

  // The update creates an entity called x, unless it is known.
  ghost predicate Creates(u: Update, x: string) {
    if u.typedEntities != [] then exists k :: 0 <= k < |u.typedEntities| && u.typedEntities[k].0 == x
    else x in u.createsEntities
  }

  ghost predicate IsAuthor(u: Update, who: string) {
    who == if u.typedEntities != [] then "Provided by caller: " else "From update: "
  }

  // The note tells who named the entities.
  ghost predicate IsNote(u: Update, note: string) {
    exists who :: note == who + u.title && IsAuthor(u, who)
  }

  lemma CreatedIs(u: Update)
    ensures IsCreated(u, CreatedPairs(u)) && IsNote(u, CreatedNote(u)) && CreatedNote(u) != ""
    ensures forall created :: IsCreated(u, created) ==> created == CreatedPairs(u)
    ensures forall note :: IsNote(u, note) ==> note == CreatedNote(u)
  {
    assert CreatedNote(u)[0] == 'P' || CreatedNote(u)[0] == 'F';
    var who := if |u.typedEntities| == 0 then "From update: " else "Provided by caller: ";
    assert CreatedNote(u) == who + u.title;
  }

  // Where in the list c is named.
  ghost function NamedAt(entities: Entities, index: AliasIndex, created: Created, c: string): (at: set<nat>)
    ensures forall k :: k in at ==> k < |created|
  {
    set k: nat | k < |created| && ResolveIn(entities, index, created[k].0) == Some(c)
  }

  // e is what became of c, named at these places: unchanged if nowhere, else
  // mentioned that many times more, last of all now, under all these names; a
  // new entity has the kind it was first named with.
  ghost predicate IsRecordOf(before: Entities, c: string, e: EntityData, created: Created, at: set<nat>, now: Time,
                             note: string)
    requires forall k :: k in at ==> k < |created|
  {
    if at == {} then c in before && e == before[c]
    else
      && e.name == c && e.lastMentioned == now
      && e.mentionCount == |at| + (if c in before then before[c].mentionCount else 0)
      && e.firstMentioned == (if c in before then before[c].firstMentioned else now)
      && e.importance == (if c in before then before[c].importance else 1.0)
      && e.description ==
           (if c in before && before[c].description.Some? then before[c].description else Some(note))
      && (c in before ==> e.kind == before[c].kind)
      && (c !in before ==> HasFirstKind(e.kind, created, at))
      && (forall x :: IsNameOf(e, x) <==> HasBeenNamed(before, c, created, at, x))
  }

  ghost predicate HasFirstKind(kind: EntityType, created: Created, at: set<nat>)
    requires forall k :: k in at ==> k < |created|
  {
    exists k :: k in at && created[k].1 == kind && forall j :: j in at ==> k <= j
  }

  ghost predicate HasBeenNamed(before: Entities, c: string, created: Created, at: set<nat>, x: string)
    requires forall k :: k in at ==> k < |created|
  {
    x == c || (c in before && IsNameOf(before[c], x)) || exists k :: k in at && created[k].0 == x
  }

  // Every entity is what the list makes of it.
  ghost predicate AreRecords(before: Entities, entities: Entities, index: AliasIndex, created: Created, now: Time,
                             note: string)
  {
    (forall c :: c in before ==> c in entities) &&
    forall c :: c in entities ==>
      IsRecordOf(before, c, entities[c], created, NamedAt(entities, index, created, c), now, note)
  }

  lemma NothingRecorded(entities: Entities, index: AliasIndex, now: Time, note: string)
    ensures AreRecords(entities, entities, index, [], now, note) && AllNamed(entities, index, [])
  {
    hide IsRecordOf;
    forall c | c in entities
      ensures IsRecordOf(entities, c, entities[c], [], NamedAt(entities, index, [], c), now, note)
    {
      assert NamedAt(entities, index, [], c) == {};
      RecordOfNothing(entities, c, now, note);
    }
  }

  lemma RecordOfNothing(entities: Entities, c: string, now: Time, note: string)
    requires c in entities
    ensures IsRecordOf(entities, c, entities[c], [], {}, now, note)
  {
  }

  // One more mention of c, which is named at one more place.
  lemma RecordTouched(before: Entities, c: string, was: EntityData, e: EntityData, created: Created, at: set<nat>,
                      p: (string, EntityType), now: Time, note: string)
    requires note != "" && was.name == c && forall k :: k in at ==> k < |created|
    requires c in before ==> before[c].name == c
    requires IsRecordOf(before, c, was, created, at, now, note) && IsTouched(e, was, p.0, now, note)
    ensures forall k :: k in at + {|created|} ==> k < |created + [p]|
    ensures IsRecordOf(before, c, e, created + [p], at + {|created|}, now, note)
  {
    var more, at' := created + [p], at + {|created|};
    assert |created| !in at && |at'| == |at| + 1 && more[|created|] == p;
    assert forall k :: k in at ==> more[k] == created[k];
    forall x
      ensures IsNameOf(e, x) <==> HasBeenNamed(before, c, more, at', x)
    {
      assert IsNameOf(e, x) <==> IsNameOf(was, x) || x == p.0;
      if x == p.0 {
        assert |created| in at' && more[|created|].0 == x;
      }
    }
    if c !in before {
      var k :| k in at && created[k].1 == was.kind && forall j :: j in at ==> k <= j;
      assert k in at' && more[k].1 == e.kind;
    }
  }

  lemma RecordFresh(before: Entities, c: string, e: EntityData, created: Created, p: (string, EntityType), now: Time,
                    note: string)
    requires note != "" && c !in before && p.0 == c && IsFresh(e, c, p.1, now, note)
    ensures IsRecordOf(before, c, e, created + [p], {|created|}, now, note)
  {
    var more, at := created + [p], {|created|};
    assert more[|created|] == p && |created| in at;
  }

  lemma RecordOther(before: Entities, c: string, e: EntityData, created: Created, at: set<nat>, p: (string, EntityType),
                    now: Time, note: string)
    requires forall k :: k in at ==> k < |created|
    requires IsRecordOf(before, c, e, created, at, now, note)
    ensures IsRecordOf(before, c, e, created + [p], at, now, note)
  {
    var more := created + [p];
    assert forall k :: k in at ==> more[k] == created[k];
    forall x
      ensures HasBeenNamed(before, c, more, at, x) <==> HasBeenNamed(before, c, created, at, x)
    {
    }
    if at != {} && c !in before {
      var k :| k in at && created[k].1 == e.kind && forall j :: j in at ==> k <= j;
      assert more[k].1 == e.kind;
    }
  }

  // Every name in the list refers to some entity.
  ghost predicate AllNamed(entities: Entities, index: AliasIndex, created: Created) {
    forall k :: 0 <= k < |created| ==> ResolveIn(entities, index, created[k].0).Some?
  }

  lemma CreatedResolve(u: Update, entities: Entities, index: AliasIndex, created: Created)
    requires IsCreated(u, created) && AllNamed(entities, index, created)
    ensures forall x :: Creates(u, x) ==> ResolveIn(entities, index, x).Some?
  {
    hide ResolveIn;
    forall x | Creates(u, x)
      ensures ResolveIn(entities, index, x).Some?
    {
      if u.typedEntities != [] {
        var k :| 0 <= k < |u.typedEntities| && u.typedEntities[k].0 == x;
        assert ResolveIn(entities, index, created[k].0).Some?;
      } else {
        var k :| 0 <= k < |u.createsEntities| && u.createsEntities[k] == x;
        assert ResolveIn(entities, index, created[k].0).Some?;
      }
    }
  }

  lemma NamesStay(e0: Entities, i0: AliasIndex, e1: Entities, i1: AliasIndex, rels: set<Relation>, created: Created)
    requires WellNamed(e0) && AliasExact(e0, i0) && WellNamed(e1) && AliasExact(e1, i1)
    requires Grows(e0, i0, rels, e1, i1, rels) && AllNamed(e0, i0, created)
    ensures StillNamed(e0, i0, e1, i1, created) && AllNamed(e1, i1, created)
  {
    hide WellNamed, AliasExact, Grows, ResolveIn;
    forall k | 0 <= k < |created| {
      GrowthKeepsResolution(e0, i0, rels, e1, i1, rels, created[k].0);
    }
  }

  // The names listed so far refer to the same entities as before.
  ghost predicate StillNamed(e0: Entities, i0: AliasIndex, e1: Entities, i1: AliasIndex, created: Created) {
    forall k :: 0 <= k < |created| ==>
      ResolveIn(e0, i0, created[k].0).Some? && ResolveIn(e1, i1, created[k].0) == ResolveIn(e0, i0, created[k].0)
  }

  lemma NamedAtNext(e0: Entities, i0: AliasIndex, e1: Entities, i1: AliasIndex, created: Created,
                    p: (string, EntityType), c: string)
    requires StillNamed(e0, i0, e1, i1, created)
    ensures NamedAt(e1, i1, created + [p], c) ==
      NamedAt(e0, i0, created, c) + if ResolveIn(e1, i1, p.0) == Some(c) then {|created|} else {}
  {
    hide ResolveIn;
    var more := created + [p];
    assert forall k :: 0 <= k < |created| ==> more[k] == created[k];
    assert more[|created|] == p;
  }

  lemma NamedWithNext(entities: Entities, index: AliasIndex, created: Created, p: (string, EntityType))
    requires AllNamed(entities, index, created) && ResolveIn(entities, index, p.0).Some?
    ensures AllNamed(entities, index, created + [p])
  {
    hide ResolveIn;
  }

  // Recording one more name.
  ghost predicate RecordsOne(e0: Entities, e1: Entities, c: string, p: (string, EntityType), now: Time, note: string) {
    && e1.Keys == e0.Keys + {c} && (forall n :: n in e1 && n != c ==> e1[n] == e0[n])
    && (c in e0 ==> IsTouched(e1[c], e0[c], p.0, now, note))
    && (c !in e0 ==> c == p.0 && IsFresh(e1[c], c, p.1, now, note))
  }

  lemma RecordsStep(before: Entities, e0: Entities, i0: AliasIndex, e1: Entities, i1: AliasIndex, created: Created,
                    p: (string, EntityType), c: string, now: Time, note: string)
    requires note != "" && WellNamed(before) && WellNamed(e0) && NoDangling(e0, i0)
    requires AreRecords(before, e0, i0, created, now, note)
    requires StillNamed(e0, i0, e1, i1, created) && AllNamed(e1, i1, created)
    requires RecordsOne(e0, e1, c, p, now, note) && ResolveIn(e1, i1, p.0) == Some(c)
    ensures AreRecords(before, e1, i1, created + [p], now, note) && AllNamed(e1, i1, created + [p])
  {
    NamedWithNext(e1, i1, created, p);
    hide AllNamed, WellNamed;
    hide IsRecordOf, StillNamed, IsTouched, IsFresh, NamedAt;
    forall d | d in e1
      ensures IsRecordOf(before, d, e1[d], created + [p], NamedAt(e1, i1, created + [p], d), now, note)
    {
      NamedAtNext(e0, i0, e1, i1, created, p, d);
      if d != c {
        RecordOther(before, d, e1[d], created, NamedAt(e0, i0, created, d), p, now, note);
        assert NamedAt(e0, i0, created, d) + {} == NamedAt(e0, i0, created, d);
      } else if c in e0 {
        RecordTouched(before, c, e0[c], e1[c], created, NamedAt(e0, i0, created, c), p, now, note);
      } else {
        RecordFresh(before, c, e1[c], created, p, now, note);
        assert NamedAt(e0, i0, created, c) == {} by { UnknownIsNotNamed(e0, i0, created, c); }
        assert {} + {|created|} == {|created|};
      }
    }
  }

  lemma UnknownIsNotNamed(entities: Entities, index: AliasIndex, created: Created, c: string)
    requires NoDangling(entities, index) && c !in entities
    ensures NamedAt(entities, index, created, c) == {}
  {
  }

  // What an update makes of every entity: the record of its names, or a new
  // concept for the end of a relation that nothing else names.
  ghost predicate AreApplied(before: Entities, entities: Entities, index: AliasIndex, u: Update, now: Time) {
    forall created, note, c :: IsCreated(u, created) && IsNote(u, note) && c in entities ==>
      IsAppliedTo(before, entities, index, u, created, note, c, now)
  }

  ghost predicate IsAppliedTo(before: Entities, entities: Entities, index: AliasIndex, u: Update, created: Created,
                              note: string, c: string, now: Time)
    requires c in entities
  {
    var at := NamedAt(entities, index, created, c);
    if c in before || at != {} then IsRecordOf(before, c, entities[c], created, at, u.timestamp, note)
    else IsFresh(entities[c], c, Concept, now, "")
  }

  // Growth by relation ends leaves the records as they are.
  lemma RecordsApply(before: Entities, e1: Entities, i1: AliasIndex, e2: Entities, i2: AliasIndex, u: Update,
                     created: Created, note: string, now: Time)
    requires IsCreated(u, created) && IsNote(u, note) && note != "" && NoDangling(e1, i1)
    requires forall d, m :: IsCreated(u, d) && IsNote(u, m) ==> d == created && m == note
    requires AreRecords(before, e1, i1, created, u.timestamp, note) && StillNamed(e1, i1, e2, i2, created)
    requires forall c :: c in e1 ==> c in e2 && e2[c] == e1[c]
    requires forall c :: c in e2 && c !in e1 ==> IsFresh(e2[c], c, Concept, now, "")
    ensures AreApplied(before, e2, i2, u, now)
  {
    hide IsRecordOf, IsFresh, StillNamed, IsCreated, IsNote;
    forall c | c in e2
      ensures IsAppliedTo(before, e2, i2, u, created, note, c, now)
    {
      SameNamedAt(e1, i1, e2, i2, created, c);
      if c in e1 {
        NotNamedIsKnown(before, c, e1[c], created, NamedAt(e1, i1, created, c), u.timestamp, note);
      } else {
        UnknownIsNotNamed(e1, i1, created, c);
      }
    }
    hide IsAppliedTo;
  }

  lemma NotNamedIsKnown(before: Entities, c: string, e: EntityData, created: Created, at: set<nat>, now: Time,
                        note: string)
    requires (forall k :: k in at ==> k < |created|) && IsRecordOf(before, c, e, created, at, now, note)
    ensures at == {} ==> c in before
  {
  }

  lemma SameNamedAt(e0: Entities, i0: AliasIndex, e1: Entities, i1: AliasIndex, created: Created, c: string)
    requires StillNamed(e0, i0, e1, i1, created)
    ensures NamedAt(e0, i0, created, c) == NamedAt(e1, i1, created, c)
  {
    hide ResolveIn;
  }
}
