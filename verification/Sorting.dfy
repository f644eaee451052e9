// The library's stable sort, as insertion sort, and what sorting means.
module Sorting {

  ghost predicate StrictOrder<T(!new)>(less: (T, T) -> bool) {
    && (forall x :: !less(x, x))
    && (forall x, y, z :: less(x, y) && less(y, z) ==> less(x, z))
    && (forall x, y :: x != y ==> less(x, y) || less(y, x))
  }

  // less orders the elements of s strictly and totally.
  ghost predicate OrdersAll<T>(less: (T, T) -> bool, s: seq<T>) {
    && (forall x :: x in s ==> !less(x, x))
    && (forall x, y, z :: x in s && y in s && z in s && less(x, y) && less(y, z) ==> less(x, z))
    && (forall x, y :: x in s && y in s && x != y ==> less(x, y) || less(y, x))
  }

  ghost predicate SortedBy<T(!new)>(less: (T, T) -> bool, s: seq<T>) {
    forall i, j :: 0 <= i < j < |s| ==> less(s[i], s[j])
  }

  ghost predicate Distinct<T>(s: seq<T>) {
    forall i, j :: 0 <= i < j < |s| ==> s[i] != s[j]
  }

  // s lists some of t, in t's order.
  ghost predicate IsPartOf<T>(s: seq<T>, t: seq<T>) {
    s == [] || (t != [] && ((s[0] == t[0] && IsPartOf(s[1..], t[1..])) || IsPartOf(s, t[1..])))
  }

  function Insert<T>(less: (T, T) -> bool, s: seq<T>, x: T): seq<T> {
    if s == [] then [x]
    else if less(x, s[0]) then [x] + s
    else [s[0]] + Insert(less, s[1..], x)
  }

  function Sort<T>(less: (T, T) -> bool, s: seq<T>): seq<T> {
    if s == [] then [] else Insert(less, Sort(less, s[..|s| - 1]), s[|s| - 1])
  }

  lemma {:induction false} InsertElements<T>(less: (T, T) -> bool, s: seq<T>, x: T)
    ensures multiset(Insert(less, s, x)) == multiset(s) + multiset{x}
  {
    if s != [] {
      assert s == [s[0]] + s[1..];
      InsertElements(less, s[1..], x);
    }
  }

  lemma {:induction false} SortMultiset<T>(less: (T, T) -> bool, s: seq<T>)
    ensures multiset(Sort(less, s)) == multiset(s)
  {
    if s != [] {
      var rest := s[..|s| - 1];
      assert s == rest + [s[|s| - 1]];
      SortMultiset(less, rest);
      InsertElements(less, Sort(less, rest), s[|s| - 1]);
    }
  }

  lemma SortElements<T>(less: (T, T) -> bool, s: seq<T>)
    ensures |Sort(less, s)| == |s|
    ensures forall x :: x in Sort(less, s) <==> x in s
  {
    SortMultiset(less, s);
    assert |multiset(Sort(less, s))| == |multiset(s)|;
    forall x
      ensures x in Sort(less, s) <==> x in s
    {
      assert x in multiset(Sort(less, s)) <==> x in multiset(s);
    }
  }

  lemma {:induction false} InsertSorts<T(!new)>(less: (T, T) -> bool, dom: seq<T>, s: seq<T>, x: T)
    requires OrdersAll(less, dom) && SortedBy(less, s) && x !in s
    requires x in dom && forall y :: y in s ==> y in dom
    ensures SortedBy(less, Insert(less, s, x))
  {
    if s != [] && !less(x, s[0]) {
      InsertSorts(less, dom, s[1..], x);
      InsertElements(less, s[1..], x);
      var r := Insert(less, s[1..], x);
      forall y | y in r
        ensures less(s[0], y)
      {
        assert y in multiset(r);
        assert y in s[1..] || y == x;
      }
    }
  }

  // Distinct elements are sorted strictly.
  lemma {:induction false} SortSorts<T(!new)>(less: (T, T) -> bool, s: seq<T>)
    requires OrdersAll(less, s) && Distinct(s)
    ensures SortedBy(less, Sort(less, s))
  {
    if s != [] {
      var rest := s[..|s| - 1];
      SortSorts(less, rest);
      SortElements(less, rest);
      InsertSorts(less, s, Sort(less, rest), s[|s| - 1]);
    }
  }

  // A set of elements has one sorted listing.
  lemma {:induction false} SortedUnique<T(!new)>(less: (T, T) -> bool, s: seq<T>, t: seq<T>)
    requires (forall x :: !less(x, x)) && (forall x, y, z :: less(x, y) && less(y, z) ==> less(x, z))
    requires SortedBy(less, s) && SortedBy(less, t)
    requires forall x :: x in s <==> x in t
    ensures s == t
  {
    assert s != [] ==> s[0] in s;
    assert t != [] ==> t[0] in t;
    if s != [] && t != [] {
      assert s[0] in t && t[0] in s;
      assert s[0] == t[0];
      forall x
        ensures x in s[1..] <==> x in t[1..]
      {
        assert x in s <==> x == s[0] || x in s[1..];
        assert x in t <==> x == t[0] || x in t[1..];
      }
      SortedUnique(less, s[1..], t[1..]);
    }
  }

  lemma SortedIsDistinct<T(!new)>(less: (T, T) -> bool, s: seq<T>)
    requires StrictOrder(less) && SortedBy(less, s)
    ensures Distinct(s)
  {
  }

  // Some listing of a set.
  method Listing<T(==)>(s: set<T>) returns (r: seq<T>)
    ensures Distinct(r) && forall x :: x in r <==> x in s
  {
    r := [];
    var rest := s;
    while rest != {}
      invariant rest <= s && Distinct(r)
      invariant forall x :: x in r <==> x in s - rest
      decreases rest
    {
      var x :| x in rest;
      rest := rest - {x};
      assert x !in r;
      r := r + [x];
    }
  }

  // The elements of a set in increasing order, as an ordered map lists its keys.
  method SortedListing<T(==, !new)>(less: (T, T) -> bool, s: set<T>) returns (r: seq<T>)
    requires StrictOrder(less)
    ensures SortedBy(less, r) && Distinct(r) && forall x :: x in r <==> x in s
  {
    var listing := Listing(s);
    r := Sort(less, listing);
    SortSorts(less, listing);
    SortElements(less, listing);
    SortedIsDistinct(less, r);
  }

  // A strict order in which distinct elements may tie.
  ghost predicate WeakOrder<T(!new)>(less: (T, T) -> bool) {
    && (forall x, y :: less(x, y) ==> !less(y, x))
    && (forall x, y, z :: !less(x, y) && !less(y, z) ==> !less(x, z))
  }

  ghost predicate NeverAfter<T(!new)>(less: (T, T) -> bool, s: seq<T>) {
    forall i, j :: 0 <= i < j < |s| ==> !less(s[j], s[i])
  }

  lemma {:induction false} InsertKeepsOrder<T(!new)>(less: (T, T) -> bool, s: seq<T>, x: T)
    requires WeakOrder(less) && NeverAfter(less, s)
    ensures NeverAfter(less, Insert(less, s, x))
  {
    if s != [] && !less(x, s[0]) {
      InsertKeepsOrder(less, s[1..], x);
      InsertElements(less, s[1..], x);
      var r := Insert(less, s[1..], x);
      forall y | y in r
        ensures !less(y, s[0])
      {
        assert y in multiset(r);
        assert y in s[1..] || y == x;
      }
    } else if s != [] {
      forall y | y in s
        ensures !less(y, x)
      {
        assert y == s[0] || !less(y, s[0]);
        assert !less(s[0], x);
      }
    }
  }

  // Sorting by a key puts no element after a greater one.
  lemma {:induction false} SortOrders<T(!new)>(less: (T, T) -> bool, s: seq<T>)
    requires WeakOrder(less)
    ensures NeverAfter(less, Sort(less, s))
  {
    if s != [] {
      SortOrders(less, s[..|s| - 1]);
      InsertKeepsOrder(less, Sort(less, s[..|s| - 1]), s[|s| - 1]);
    }
  }

  lemma PartsOfCut<T(!new)>(less: (T, T) -> bool, kept: seq<T>, rest: seq<T>)
    requires NeverAfter(less, kept + rest)
    ensures NeverAfter(less, kept)
    ensures forall i, j :: 0 <= i < |kept| && 0 <= j < |rest| ==> !less(rest[j], kept[i])
  {
    var s := kept + rest;
    assert forall i :: 0 <= i < |kept| ==> s[i] == kept[i];
    assert forall j :: 0 <= j < |rest| ==> s[|kept| + j] == rest[j];
  }

  // Nothing after a cut of an ordered list comes before anything kept.
  lemma PrefixComesFirst<T(!new)>(less: (T, T) -> bool, s: seq<T>, limit: nat)
    requires NeverAfter(less, s) && limit <= |s|
    ensures NeverAfter(less, s[..limit]) && multiset(s[..limit]) <= multiset(s)
    ensures forall a, b :: a in s[..limit] && b in multiset(s) - multiset(s[..limit]) ==> !less(b, a)
  {
    var kept, rest := s[..limit], s[limit..];
    assert s == kept + rest;
    PartsOfCut(less, kept, rest);
    hide NeverAfter;
    assert multiset(s) - multiset(kept) == multiset(rest);
    forall a, b | a in kept && b in multiset(rest)
      ensures !less(b, a)
    {
      assert b in rest;
    }
  }

  // The first ones of all, as many as the limit allows, in order.
  ghost predicate AreFirst<T(!new)>(less: (T, T) -> bool, limit: nat, all: seq<T>, best: seq<T>) {
    && |best| == (if |all| < limit then |all| else limit)
    && multiset(best) <= multiset(all) && NeverAfter(less, best)
    && (forall a, b :: a in best && b in multiset(all) - multiset(best) ==> !less(b, a))
  }

  lemma PrefixIsFirst<T(!new)>(less: (T, T) -> bool, limit: nat, all: seq<T>)
    requires WeakOrder(less)
    ensures var sorted := Sort(less, all);
      AreFirst(less, limit, all, if |sorted| < limit then sorted else sorted[..limit])
  {
    hide Sort;
    var sorted := Sort(less, all);
    SortOrders(less, all);
    SortMultiset(less, all);
    SortElements(less, all);
    if |sorted| >= limit {
      PrefixComesFirst(less, sorted, limit);
    }
  }

  // The same by what it is to rank ahead or alike: no element is ranked behind
  // a later one, or behind one that is left out.
  ghost predicate AreBest<T(!new)>(ahead: (T, T) -> bool, limit: nat, all: seq<T>, best: seq<T>) {
    && |best| == (if |all| < limit then |all| else limit) && multiset(best) <= multiset(all)
    && (forall i, j :: 0 <= i < j < |best| ==> ahead(best[i], best[j]))
    && (forall a, b :: a in best && b in multiset(all) - multiset(best) ==> ahead(a, b))
  }

  lemma FirstAreBest<T(!new)>(less: (T, T) -> bool, ahead: (T, T) -> bool, limit: nat, all: seq<T>, best: seq<T>)
    requires AreFirst(less, limit, all, best) && forall x, y :: !less(y, x) ==> ahead(x, y)
    ensures AreBest(ahead, limit, all, best)
  {
  }

  // They are different when all are.
  lemma FirstAreDistinct<T(!new)>(less: (T, T) -> bool, limit: nat, all: seq<T>, best: seq<T>)
    requires AreFirst(less, limit, all, best) && Distinct(all)
    ensures Distinct(best) && forall x :: x in best ==> x in all
  {
    DistinctCounts(all);
    forall i, j | 0 <= i < j < |best|
      ensures best[i] != best[j]
    {
      RepeatCounts(best, i, j);
    }
    forall x | x in best
      ensures x in all
    {
      assert x in multiset(best);
    }
  }

  lemma RepeatCounts<T>(s: seq<T>, i: nat, j: nat)
    requires i < j < |s|
    ensures s[i] == s[j] ==> multiset(s)[s[i]] >= 2
  {
    var head, tail := s[..j], s[j..];
    assert s == head + tail;
    assert s[i] in head && s[j] in tail by { assert head[i] == s[i] && tail[0] == s[j]; }
    assert multiset(s) == multiset(head) + multiset(tail);
  }

  lemma {:induction false} DistinctCounts<T>(s: seq<T>)
    requires Distinct(s)
    ensures forall x :: multiset(s)[x] <= 1
  {
    if s != [] {
      var rest, last := s[..|s| - 1], s[|s| - 1];
      DistinctCounts(rest);
      assert s == rest + [last];
      assert last !in rest;
    }
  }
}
