// Entity names, their resolution keys, and what an alias index must say.
module Names {
  import opened Types
  import opened Sorting

  predicate IsSpace(c: char) { c == ' ' || ('\t' <= c <= '\r') }

  function Lower(c: char): char {
    if 'A' <= c <= 'Z' then c - 'A' + 'a' else c
  }

  function LowerAll(s: string): string {
    if s == "" then "" else [Lower(s[0])] + LowerAll(s[1..])
  }

  function Significant(s: string): string {
    if s == "" then ""
    else if IsSpace(s[0]) || s[0] == '-' || s[0] == '_' then Significant(s[1..])
    else [s[0]] + Significant(s[1..])
  }

  // Lowercase without whitespace, '-' and '_', unless nothing is left.
  function EntityKey(name: string): string {
    var key := LowerAll(Significant(name));
    if key == "" then LowerAll(name) else key
  }

  // Characters that do not tell names apart: blanks, '-' and '_'.
  ghost predicate IsSeparator(c: char) {
    c == ' ' || 9 <= c as int <= 13 || c == '-' || c == '_'
  }

  ghost predicate IsCapital(c: char) { 65 <= c as int <= 90 }

  // The same character, or one the capital of the other.
  ghost predicate SameButCase(c: char, d: char) {
    c == d || (IsCapital(c) && d as int == c as int + 32) || (IsCapital(d) && c as int == d as int + 32)
  }

  ghost predicate EqualButCase(a: string, b: string) {
    |a| == |b| && forall k :: 0 <= k < |a| ==> SameButCase(a[k], b[k])
  }

  lemma {:induction false} LowerIsEqualButCase(a: string, b: string)
    ensures LowerAll(a) == LowerAll(b) <==> EqualButCase(a, b)
  {
    if a != "" && b != "" {
      LowerIsEqualButCase(a[1..], b[1..]);
      assert LowerAll(a)[0] == Lower(a[0]) && LowerAll(b)[0] == Lower(b[0]);
      assert LowerAll(a)[1..] == LowerAll(a[1..]) && LowerAll(b)[1..] == LowerAll(b[1..]);
      assert Lower(a[0]) == Lower(b[0]) <==> SameButCase(a[0], b[0]);
      hide SameButCase;
      assert EqualButCase(a, b) <==> SameButCase(a[0], b[0]) && EqualButCase(a[1..], b[1..]) by { CaseCons(a, b); }
    }
  }

  lemma CaseCons(a: string, b: string)
    requires a != "" && b != ""
    ensures EqualButCase(a, b) <==> SameButCase(a[0], b[0]) && EqualButCase(a[1..], b[1..])
  {
    hide SameButCase;
    if SameButCase(a[0], b[0]) && EqualButCase(a[1..], b[1..]) {
      forall k | 0 <= k < |a|
        ensures SameButCase(a[k], b[k])
      {
        assert k > 0 ==> a[k] == a[1..][k - 1] && b[k] == b[1..][k - 1];
      }
    }
  }

  // Some character of the name is not a separator.
  ghost predicate IsTelling(s: string) {
    exists k :: 0 <= k < |s| && !IsSeparator(s[k])
  }

  lemma {:induction false} LowerOfBoth(s: string, t: string)
    ensures LowerAll(s + t) == LowerAll(s) + LowerAll(t)
  {
    if s == "" {
      assert s + t == t;
    } else {
      assert (s + t)[1..] == s[1..] + t;
      LowerOfBoth(s[1..], t);
    }
  }

  lemma {:induction false} SignificantOfBoth(s: string, t: string)
    ensures Significant(s + t) == Significant(s) + Significant(t)
  {
    if s == "" {
      assert s + t == t;
    } else {
      assert (s + t)[1..] == s[1..] + t;
      SignificantOfBoth(s[1..], t);
    }
  }

  lemma {:induction false} SignificantIsTelling(s: string)
    ensures Significant(s) != "" <==> IsTelling(s)
  {
    if s != "" {
      SignificantIsTelling(s[1..]);
      if k :| 0 <= k < |s| && !IsSeparator(s[k]) {
        assert k > 0 ==> s[1..][k - 1] == s[k];
      }
      if k :| 0 <= k < |s[1..]| && !IsSeparator(s[1..][k]) {
        assert s[k + 1] == s[1..][k];
      }
    }
  }

  lemma LoweredIsEmpty(s: string)
    ensures LowerAll(s) == "" <==> s == ""
  {
  }

  // A separator anywhere in a telling name does not change its key.
  lemma KeyIgnoresSeparator(p: string, c: char, q: string)
    requires IsSeparator(c) && IsTelling(p + q)
    ensures EntityKey(p + [c] + q) == EntityKey(p + q)
  {
    SignificantOfBoth(p, q);
    SignificantOfBoth(p + [c], q);
    SignificantOfBoth(p, [c]);
    SignificantIsTelling(p + q);
    LoweredIsEmpty(Significant(p + q));
    OneCharacter(c);
    assert Significant(p) + "" == Significant(p);
  }

  lemma OneCharacter(c: char)
    ensures LowerAll([c]) == [Lower(c)]
    ensures Significant([c]) == if IsSeparator(c) then "" else [c]
  {
    assert [c][1..] == "";
  }

  // Nor does the case of a letter, in any name.
  lemma KeyIgnoresCase(p: string, c: char, q: string)
    requires IsCapital(c)
    ensures EntityKey(p + [c] + q) == EntityKey(p + [(c as int + 32) as char] + q)
  {
    var d := (c as int + 32) as char;
    OneCharacter(c);
    OneCharacter(d);
    LowerOfBoth(p + [c], q);
    LowerOfBoth(p, [c]);
    LowerOfBoth(p + [d], q);
    LowerOfBoth(p, [d]);
    SignificantOfBoth(p + [c], q);
    SignificantOfBoth(p, [c]);
    SignificantOfBoth(p + [d], q);
    SignificantOfBoth(p, [d]);
    LowerOfBoth(Significant(p) + [c], Significant(q));
    LowerOfBoth(Significant(p), [c]);
    LowerOfBoth(Significant(p) + [d], Significant(q));
    LowerOfBoth(Significant(p), [d]);
  }

  lemma {:induction false} PlainIsLow(s: string)
    requires forall k :: 0 <= k < |s| ==> !IsCapital(s[k])
    ensures LowerAll(s) == s
  {
    if s != "" {
      PlainIsLow(s[1..]);
    }
  }

  lemma {:induction false} PlainIsSignificant(s: string)
    requires forall k :: 0 <= k < |s| ==> !IsSeparator(s[k])
    ensures Significant(s) == s
  {
    if s != "" {
      PlainIsSignificant(s[1..]);
    }
  }

  // Names without capitals and separators are their own keys, and so are names
  // of separators alone.
  lemma PlainIsKey(s: string)
    requires forall k :: 0 <= k < |s| ==> !IsCapital(s[k])
    requires (forall k :: 0 <= k < |s| ==> !IsSeparator(s[k])) || !IsTelling(s)
    ensures EntityKey(s) == s
  {
    PlainIsLow(s);
    SignificantIsTelling(s);
    if IsTelling(s) {
      PlainIsSignificant(s);
    }
  }

  type Entities = map<string, EntityData>
  type AliasIndex = map<string, string>

  // Everything an entity is called.
  ghost predicate IsNameOf(e: EntityData, x: string) {
    x == e.name || x in e.aliases
  }

  ghost predicate WellNamed(entities: Entities) {
    forall n :: n in entities ==>
      entities[n].name == n && n !in entities[n].aliases && Distinct(entities[n].aliases)
  }

  // The index maps the key of every name and alias to its entity, and
  // nothing else.
  ghost predicate AliasExact(entities: Entities, index: AliasIndex) {
    && (forall n, x :: n in entities && IsNameOf(entities[n], x) ==> EntityKey(x) in index && index[EntityKey(x)] == n)
    && (forall k :: k in index ==> IsKeyOf(entities, index[k], k))
  }

  ghost predicate IsKeyOf(entities: Entities, n: string, k: string) {
    n in entities && exists x :: IsNameOf(entities[n], x) && EntityKey(x) == k
  }

  ghost predicate NoDangling(entities: Entities, index: AliasIndex) {
    forall k :: k in index ==> index[k] in entities
  }

  // An exact name first, then the index.
  function ResolveIn(entities: Entities, index: AliasIndex, name: string): Option<string> {
    if name in entities then Some(name)
    else if EntityKey(name) in index then Some(index[EntityKey(name)])
    else None
  }

  function Canonical(entities: Entities, index: AliasIndex, name: string): (c: string)
    ensures if ResolveIn(entities, index, name).Some? then ResolveIn(entities, index, name) == Some(c) else c == name
  {
    match ResolveIn(entities, index, name)
    case Some(n) => n
    case None => name
  }

  // The exact-name fast path agrees with the index, so resolution depends
  // on the key alone.
  lemma ResolveByKey(entities: Entities, index: AliasIndex, name: string)
    requires WellNamed(entities) && AliasExact(entities, index)
    ensures ResolveIn(entities, index, name)
         == if EntityKey(name) in index then Some(index[EntityKey(name)]) else None
  {
    if name in entities {
      assert IsNameOf(entities[name], name);
    }
  }

  // Two spellings with one key name the same entity, and distinct entities
  // share no key.
  lemma SameKeySameEntity(entities: Entities, index: AliasIndex, a: string, b: string)
    requires WellNamed(entities) && AliasExact(entities, index) && EntityKey(a) == EntityKey(b)
    ensures ResolveIn(entities, index, a) == ResolveIn(entities, index, b)
    ensures forall m, n ::
      m in entities && n in entities && IsNameOf(entities[m], a) && IsNameOf(entities[n], b) ==> m == n
  {
    ResolveByKey(entities, index, a);
    ResolveByKey(entities, index, b);
  }

  // There is one exact index of given entities.
  lemma AliasExactUnique(entities: Entities, i: AliasIndex, j: AliasIndex)
    requires AliasExact(entities, i) && AliasExact(entities, j)
    ensures i == j
  {
    forall k
      ensures k in i <==> k in j
      ensures k in i && k in j ==> i[k] == j[k]
    {
      if k in i {
        assert IsKeyOf(entities, i[k], k);
      }
      if k in j {
        assert IsKeyOf(entities, j[k], k);
      }
    }
  }

  function Fresh(name: string, kind: EntityType, now: Time, description: string): EntityData {
    EntityData(name, kind, now, now, 1, 1.0, if description == "" then None else Some(description), [])
  }

  // One more mention of an entity, under the name written.
  function Touch(e: EntityData, written: string, now: Time, description: string): EntityData {
    e.(lastMentioned := now,
       mentionCount := e.mentionCount + 1,
       description := if e.description.None? && description != "" then Some(description) else e.description,
       aliases := if written != e.name && written !in e.aliases then e.aliases + [written] else e.aliases)
  }

  // e is a newly mentioned entity.
  ghost predicate IsFresh(e: EntityData, name: string, kind: EntityType, now: Time, description: string) {
    && e.name == name && e.kind == kind && e.aliases == []
    && e.firstMentioned == now == e.lastMentioned && e.mentionCount == 1 && e.importance == 1.0
    && (e.description.Some? <==> description != "") && (e.description.Some? ==> e.description.value == description)
  }

  // e was mentioned once more under the name written: its last mention is now,
  // a first description is taken, a new spelling comes last.
  ghost predicate IsTouched(e: EntityData, was: EntityData, written: string, now: Time, description: string) {
    && e.name == was.name && e.kind == was.kind && e.importance == was.importance
    && e.firstMentioned == was.firstMentioned && e.lastMentioned == now && e.mentionCount == was.mentionCount + 1
    && (was.description.Some? || description == "" ==> e.description == was.description)
    && (was.description.None? && description != "" ==> e.description == Some(description))
    && (IsNameOf(was, written) ==> e.aliases == was.aliases)
    && (!IsNameOf(was, written) ==> e.aliases == was.aliases + [written])
  }

  lemma FreshKeepsExact(entities: Entities, index: AliasIndex, e: EntityData)
    requires WellNamed(entities) && AliasExact(entities, index)
    requires e.name !in entities && EntityKey(e.name) !in index && e.aliases == []
    ensures WellNamed(entities[e.name := e])
    ensures AliasExact(entities[e.name := e], index[EntityKey(e.name) := e.name])
  {
    hide EntityKey;
    var entities', index' := entities[e.name := e], index[EntityKey(e.name) := e.name];
    assert IsNameOf(entities'[e.name], e.name);
    forall k | k in index'
      ensures IsKeyOf(entities', index'[k], k)
    {
      if k != EntityKey(e.name) {
        assert IsKeyOf(entities, index[k], k);
      }
    }
  }

  lemma TouchedNames(e: EntityData, written: string, now: Time, description: string, x: string)
    ensures IsNameOf(Touch(e, written, now, description), x) <==> IsNameOf(e, x) || x == written
  {
  }

  lemma TouchKeepsNames(entities: Entities, c: string, written: string, now: Time, description: string)
    requires WellNamed(entities) && c in entities
    ensures WellNamed(entities[c := Touch(entities[c], written, now, description)])
  {
  }

  lemma TouchKeepsExact(entities: Entities, index: AliasIndex, c: string, written: string, now: Time,
                        description: string)
    requires WellNamed(entities) && AliasExact(entities, index)
    requires ResolveIn(entities, index, written) == Some(c) && c in entities
    ensures WellNamed(entities[c := Touch(entities[c], written, now, description)])
    ensures AliasExact(entities[c := Touch(entities[c], written, now, description)], index)
  {
    ResolveByKey(entities, index, written);
    TouchKeepsNames(entities, c, written, now, description);
    hide Touch, IsNameOf, EntityKey, WellNamed, ResolveIn;
    var e, e' := entities[c], Touch(entities[c], written, now, description);
    var after := entities[c := e'];
    forall n, x | n in after && IsNameOf(after[n], x)
      ensures EntityKey(x) in index && index[EntityKey(x)] == n
    {
      TouchedNames(e, written, now, description, x);
    }
    forall x { TouchedNames(e, written, now, description, x); }
    forall k | k in index
      ensures IsKeyOf(after, index[k], k)
    {
      assert IsKeyOf(entities, index[k], k);
    }
  }

  // Append the names that are not there yet.
  function PushNew(own: string, aliases: seq<string>, more: seq<string>): seq<string>
    decreases |more|
  {
    if more == [] then aliases
    else
      PushNew(own, if more[0] != own && more[0] !in aliases then aliases + [more[0]] else aliases, more[1..])
  }

  lemma {:induction false} PushedNames(own: string, aliases: seq<string>, more: seq<string>)
    decreases |more|
    requires own !in aliases && Distinct(aliases)
    ensures own !in PushNew(own, aliases, more) && Distinct(PushNew(own, aliases, more))
    ensures forall x :: x in PushNew(own, aliases, more) <==> x in aliases || (x in more && x != own)
  {
    if more != [] {
      var next := if more[0] != own && more[0] !in aliases then aliases + [more[0]] else aliases;
      assert forall x :: x in more <==> x == more[0] || x in more[1..];
      PushedNames(own, next, more[1..]);
    }
  }

  // The target of a merge after taking over the merged entity.
  function Absorb(target: EntityData, gone: EntityData): EntityData {
    target.(
      mentionCount := target.mentionCount + gone.mentionCount,
      firstMentioned :=
        if gone.firstMentioned < target.firstMentioned then gone.firstMentioned else target.firstMentioned,
      lastMentioned := if gone.lastMentioned > target.lastMentioned then gone.lastMentioned else target.lastMentioned,
      importance := if gone.importance > target.importance then gone.importance else target.importance,
      description := if target.description.None? then gone.description else target.description,
      aliases := PushNew(target.name, target.aliases, [gone.name] + gone.aliases))
  }

  function AbsorbInto(entities: Entities, a: string, i: string): Entities
    requires a in entities && i in entities
  {
    (entities - {a})[i := Absorb(entities[i], entities[a])]
  }

  lemma AbsorbedInto(entities: Entities, a: string, i: string)
    requires a in entities && i in entities && a != i
    ensures var merged := AbsorbInto(entities, a, i);
      && merged.Keys == entities.Keys - {a} && merged[i] == Absorb(entities[i], entities[a])
      && (forall n :: n in merged && n != i ==> merged[n] == entities[n])
  {
    hide Absorb;
  }

  // New names come after the known ones, in the order they are given.
  lemma {:induction false} PushedInOrder(own: string, aliases: seq<string>, more: seq<string>)
    ensures aliases <= PushNew(own, aliases, more)
    ensures IsPartOf(PushNew(own, aliases, more)[|aliases|..], more)
    decreases |more|
  {
    if more != [] {
      var x, rest := more[0], more[1..];
      if x != own && x !in aliases {
        PushedInOrder(own, aliases + [x], rest);
        var added := PushNew(own, aliases, more)[|aliases|..];
        assert added[0] == x && added[1..] == PushNew(own, aliases + [x], rest)[|aliases + [x]|..];
      } else {
        PushedInOrder(own, aliases, rest);
      }
    }
  }

  ghost predicate IsLeast(x: int, a: int, b: int) { (x == a || x == b) && x <= a && x <= b }

  // e is the target of a merge: it keeps its name and kind, counts for both,
  // was mentioned when either was, is as important as the more important one,
  // and bears the names of both, the merged entity's in their order.
  ghost predicate TakesOver(e: EntityData, target: EntityData, gone: EntityData) {
    && e.name == target.name && e.kind == target.kind
    && e.mentionCount == target.mentionCount + gone.mentionCount
    && IsLeast(e.firstMentioned, target.firstMentioned, gone.firstMentioned)
    && IsLeast(-e.lastMentioned, -target.lastMentioned, -gone.lastMentioned)
    && (e.importance == target.importance || e.importance == gone.importance)
    && e.importance >= target.importance && e.importance >= gone.importance
    && (target.description.Some? ==> e.description == target.description)
    && (target.description.None? ==> e.description == gone.description)
    && (forall x :: IsNameOf(e, x) <==> IsNameOf(target, x) || IsNameOf(gone, x))
    && target.aliases <= e.aliases && IsPartOf(e.aliases[|target.aliases|..], [gone.name] + gone.aliases)
  }

  lemma AbsorbTakesOver(target: EntityData, gone: EntityData)
    requires target.name !in target.aliases && Distinct(target.aliases)
    ensures TakesOver(Absorb(target, gone), target, gone)
  {
    AbsorbedNames(target, gone);
    PushedInOrder(target.name, target.aliases, [gone.name] + gone.aliases);
  }

  lemma AbsorbedNames(target: EntityData, gone: EntityData)
    requires target.name !in target.aliases && Distinct(target.aliases)
    ensures var e := Absorb(target, gone);
      && e.name !in e.aliases && Distinct(e.aliases)
      && forall x :: IsNameOf(e, x) <==> IsNameOf(target, x) || IsNameOf(gone, x)
  {
    PushedNames(target.name, target.aliases, [gone.name] + gone.aliases);
  }

  // Entries for a are dropped, then all names of the target are entered.
  ghost predicate Redirected(entities: Entities, index: AliasIndex, i: string, before: AliasIndex, a: string)
    requires i in entities
  {
    && (forall k :: k in index <==>
         (k in before && before[k] != a) || (exists x :: IsNameOf(entities[i], x) && EntityKey(x) == k))
    && (forall k :: k in index ==>
         index[k] == if exists x :: IsNameOf(entities[i], x) && EntityKey(x) == k then i else before[k])
  }

  lemma AbsorbKeepsExact(entities: Entities, index: AliasIndex, a: string, i: string, index': AliasIndex)
    requires WellNamed(entities) && AliasExact(entities, index) && a in entities && i in entities && a != i
    requires Redirected(AbsorbInto(entities, a, i), index', i, index, a)
    ensures WellNamed(AbsorbInto(entities, a, i)) && AliasExact(AbsorbInto(entities, a, i), index')
  {
    var merged := AbsorbInto(entities, a, i);
    AbsorbedNames(entities[i], entities[a]);
    forall n, x | n in merged && IsNameOf(merged[n], x)
      ensures EntityKey(x) in index' && index'[EntityKey(x)] == n
    {
      if n != i {
        assert IsNameOf(entities[n], x) && index[EntityKey(x)] == n;
      }
    }
    forall k | k in index'
      ensures IsKeyOf(merged, index'[k], k)
    {
      if !exists x :: IsNameOf(merged[i], x) && EntityKey(x) == k {
        assert IsKeyOf(entities, index[k], k);
        var x :| IsNameOf(entities[index[k]], x) && EntityKey(x) == k;
        assert index[k] != i;
        assert IsNameOf(merged[index[k]], x);
      }
    }
  }
}
