// Merging two nodes of the relation graph: the quotient that renames one
// node to the other and drops the self loops this makes.
module Quotient {
  import opened Types
  import opened DiGraph

  predicate TouchesName(r: Relation, a: string) { r.from == a || r.to == a }

  function RenameEnd(x: string, a: string, i: string): string { if x == a then i else x }

  function Rename(r: Relation, a: string, i: string): Relation {
    r.(from := RenameEnd(r.from, a, i), to := RenameEnd(r.to, a, i))
  }

  // Renamed relations that are not self loops.
  function RenamedList(rels: seq<Relation>, a: string, i: string): seq<Relation> {
    if rels == [] then []
    else
      var r := Rename(rels[|rels| - 1], a, i);
      RenamedList(rels[..|rels| - 1], a, i) + if r.from != r.to then [r] else []
  }

  ghost function UpsertAll(rels: set<Relation>, more: seq<Relation>): set<Relation> {
    if more == [] then rels else Upsert(UpsertAll(rels, more[..|more| - 1]), more[|more| - 1])
  }

  // a's relations under their new names, without self loops.
  ghost function RenamedOf(rels: set<Relation>, a: string, i: string): set<Relation> {
    set s | s in rels && TouchesName(s, a) && Rename(s, a, i).from != Rename(s, a, i).to :: Rename(s, a, i)
  }

  ghost predicate Covers(rels: set<Relation>, r: Relation) {
    exists q :: q in rels && SameTriple(q, r)
  }

  // a's relations renamed to i, self loops dropped, replacing i's of the
  // same triple; the others unchanged.
  ghost function Merged(rels: set<Relation>, a: string, i: string): set<Relation> {
    RenamedOf(rels, a, i) + set r | r in Without(rels, a) && !Covers(RenamedOf(rels, a, i), r)
  }

  lemma {:induction false} UpsertAllClosed(rels: set<Relation>, more: seq<Relation>)
    requires DistinctTriples(more)
    ensures forall r :: r in UpsertAll(rels, more) <==>
      r in more || (r in rels && forall k :: 0 <= k < |more| ==> !SameTriple(more[k], r))
  {
    if more != [] {
      var rest, last := more[..|more| - 1], more[|more| - 1];
      assert more == rest + [last];
      UpsertAllClosed(rels, rest);
      forall r
        ensures r in UpsertAll(rels, more) <==>
          r in more || (r in rels && forall k :: 0 <= k < |more| ==> !SameTriple(more[k], r))
      {
        if r in rest {
          var k :| 0 <= k < |rest| && rest[k] == r;
          assert !SameTriple(more[k], last);
        }
        assert forall k :: 0 <= k < |rest| ==> rest[k] == more[k];
        assert forall k :: 0 <= k < |more| ==> more[k] == last || (k < |rest| && more[k] == rest[k]);
      }
    }
  }

  lemma RenameInjective(r: Relation, s: Relation, a: string, i: string)
    requires TouchesName(r, a) && TouchesName(s, a)
    requires SameTriple(Rename(r, a, i), Rename(s, a, i)) && Rename(r, a, i).from != Rename(r, a, i).to
    ensures SameTriple(r, s)
  {
  }

  lemma {:induction false} RenamedListIs(rels: seq<Relation>, a: string, i: string)
    requires DistinctTriples(rels) && forall r :: r in rels ==> TouchesName(r, a)
    ensures DistinctTriples(RenamedList(rels, a, i))
    ensures forall q :: q in RenamedList(rels, a, i) <==>
      q.from != q.to && exists k :: 0 <= k < |rels| && Rename(rels[k], a, i) == q
  {
    if rels != [] {
      var rest, last := rels[..|rels| - 1], rels[|rels| - 1];
      assert rels == rest + [last];
      RenamedListIs(rest, a, i);
      var list, q := RenamedList(rest, a, i), Rename(last, a, i);
      forall x
        ensures x in RenamedList(rels, a, i) <==>
          x.from != x.to && exists k :: 0 <= k < |rels| && Rename(rels[k], a, i) == x
      {
        if x in list {
          var k :| 0 <= k < |rest| && Rename(rest[k], a, i) == x;
          assert rels[k] == rest[k];
        }
      }
      forall m | 0 <= m < |list| && q.from != q.to
        ensures !SameTriple(list[m], q)
      {
        assert list[m] in list;
        var k :| 0 <= k < |rest| && Rename(rest[k], a, i) == list[m];
        assert rest[k] == rels[k] && !SameTriple(rels[k], last);
        if SameTriple(list[m], q) {
          RenameInjective(rels[k], last, a, i);
        }
      }
    }
  }

  lemma ListIsRenamed(rels: set<Relation>, at: seq<Relation>, a: string, i: string)
    requires DistinctTriples(at) && forall r :: r in at <==> r in rels && TouchesName(r, a)
    ensures DistinctTriples(RenamedList(at, a, i))
    ensures forall q :: q in RenamedList(at, a, i) <==> q in RenamedOf(rels, a, i)
  {
    RenamedListIs(at, a, i);
    hide Rename, TouchesName, DistinctTriples;
    forall q | q in RenamedList(at, a, i)
      ensures q in RenamedOf(rels, a, i)
    {
      var k :| 0 <= k < |at| && Rename(at[k], a, i) == q;
      assert at[k] in at;
    }
    forall q | q in RenamedOf(rels, a, i)
      ensures q in RenamedList(at, a, i)
    {
      var s :| s in rels && TouchesName(s, a) && Rename(s, a, i) == q;
      assert s in at;
      var k :| 0 <= k < |at| && at[k] == s;
    }
  }

  // Re-adding a's renamed relations after removing a gives the quotient.
  lemma MergeIsQuotient(rels: set<Relation>, at: seq<Relation>, a: string, i: string)
    requires DistinctTriples(at) && forall r :: r in at <==> r in rels && TouchesName(r, a)
    ensures UpsertAll(Without(rels, a), RenamedList(at, a, i)) == Merged(rels, a, i)
  {
    ListIsRenamed(rels, at, a, i);
    var list := RenamedList(at, a, i);
    UpsertAllClosed(Without(rels, a), list);
    hide RenamedOf, RenamedList, Without, UpsertAll, SameTriple, DistinctTriples;
    forall r | Covers(RenamedOf(rels, a, i), r)
      ensures exists k :: 0 <= k < |list| && SameTriple(list[k], r)
    {
      var q :| q in RenamedOf(rels, a, i) && SameTriple(q, r);
      assert q in list;
    }
    forall k, r | 0 <= k < |list| && SameTriple(list[k], r)
      ensures Covers(RenamedOf(rels, a, i), r)
    {
      assert list[k] in list;
    }
  }

  ghost predicate HasTriple(rels: set<Relation>, from: string, to: string, kind: RelationType) {
    exists r :: r in rels && r.from == from && r.to == to && r.kind == kind
  }

  // A relation survives a merge unless it ends up between i and itself.
  predicate Survives(r: Relation, a: string, i: string) {
    r.from == a || r.to == a ==> (r.from != a && r.from != i) || (r.to != a && r.to != i)
  }

  ghost predicate ComesFrom(rels: set<Relation>, a: string, i: string, from: string, to: string, kind: RelationType) {
    exists s :: s in rels && Survives(s, a, i) && IsImage(s, a, i, from, to, kind)
  }

  predicate IsImage(s: Relation, a: string, i: string, from: string, to: string, kind: RelationType) {
    RenameEnd(s.from, a, i) == from && RenameEnd(s.to, a, i) == to && s.kind == kind
  }

  // The quotient has exactly the renamed triples of the surviving relations,
  // each once, and no longer mentions a.
  lemma MergedTriples(rels: set<Relation>, a: string, i: string)
    requires OnePerTriple(rels) && a != i
    ensures OnePerTriple(Merged(rels, a, i))
    ensures forall r :: r in Merged(rels, a, i) ==> !TouchesName(r, a)
    ensures forall from, to, kind :: HasTriple(Merged(rels, a, i), from, to, kind) <==>
      ComesFrom(rels, a, i, from, to, kind)
  {
    var merged := Merged(rels, a, i);
    forall r, s | r in merged && s in merged && SameTriple(r, s)
      ensures r == s
    {
      if r in RenamedOf(rels, a, i) && s in RenamedOf(rels, a, i) {
        var p :| p in rels && TouchesName(p, a) && Rename(p, a, i) == r;
        var q :| q in rels && TouchesName(q, a) && Rename(q, a, i) == s;
        RenameInjective(p, q, a, i);
      } else if r in RenamedOf(rels, a, i) {
        assert Covers(RenamedOf(rels, a, i), s);
      } else if s in RenamedOf(rels, a, i) {
        assert Covers(RenamedOf(rels, a, i), r);
      }
    }
    forall s | s in rels && Survives(s, a, i)
      ensures HasTriple(merged, RenameEnd(s.from, a, i), RenameEnd(s.to, a, i), s.kind)
    {
      SurvivorHasTriple(rels, a, i, s);
    }
    forall from, to, kind | HasTriple(merged, from, to, kind)
      ensures ComesFrom(rels, a, i, from, to, kind)
    {
      var r :| r in merged && r.from == from && r.to == to && r.kind == kind;
      if r in Without(rels, a) {
        assert Survives(r, a, i) && IsImage(r, a, i, from, to, kind);
      } else {
        var s :| s in rels && TouchesName(s, a) && Rename(s, a, i) == r && Survives(s, a, i);
        assert IsImage(s, a, i, from, to, kind);
      }
    }
  }

  lemma SurvivorHasTriple(rels: set<Relation>, a: string, i: string, s: Relation)
    requires s in rels && Survives(s, a, i)
    ensures HasTriple(Merged(rels, a, i), RenameEnd(s.from, a, i), RenameEnd(s.to, a, i), s.kind)
  {
    var merged := Merged(rels, a, i);
    if TouchesName(s, a) {
      assert Rename(s, a, i) in merged;
    } else if Covers(RenamedOf(rels, a, i), s) {
      var q :| q in RenamedOf(rels, a, i) && SameTriple(q, s);
      assert q in merged;
    } else {
      assert s in merged;
    }
  }
}
