// The communities of the entity graph, numbered by size, largest first.
module TopicCommunities {
  import opened Levels
  import opened Sorting
  import opened Strings
  import opened Types
  import opened Undirected
  import opened Communities
  import opened Components

  // Exactly the nodes of one community, ascending, at least two of them.
  ghost predicate IsCommunity(membership: Partition, group: seq<nat>) {
    && |group| > 1
    && (forall a, b :: 0 <= a < b < |group| ==> group[a] < group[b])
    && (forall k: nat :: k in group <==> Same(membership, k, group[0]))
  }

  // Larger first; of two equally large ones, the one with the earlier node.
  predicate Precedes(a: seq<nat>, b: seq<nat>) {
    |a| > |b| || (|a| == |b| && |a| > 0 && a[0] < b[0])
  }

  // No community comes before a larger one, and of equally large ones the one
  // with the least node comes first.
  ghost predicate LargestFirst(groups: seq<seq<nat>>) {
    forall x, y :: 0 <= x < y < |groups| && |groups[x]| > 0 && |groups[y]| > 0 ==>
      |groups[x]| >= |groups[y]| && (|groups[x]| == |groups[y]| ==> groups[x][0] < groups[y][0])
  }

  ghost predicate IsNumbering(membership: Partition, groups: seq<seq<nat>>) {
    && (forall x :: 0 <= x < |groups| ==> IsCommunity(membership, groups[x]))
    && LargestFirst(groups)
    && (forall i: nat, j: nat :: Same(membership, i, j) && i != j ==> exists x :: 0 <= x < |groups| && i in groups[x])
  }

  // The nodes below n with label c, ascending.
  ghost predicate AreMembers(membership: Partition, group: seq<nat>, c: nat, n: nat)
    requires n <= |membership|
  {
    && (forall k: nat :: k in group <==> k < n && membership[k] == c)
    && (forall a, b :: 0 <= a < b < |group| ==> group[a] < group[b])
    && |group| > 0
  }

  ghost predicate MembersSoFar(membership: Partition, members: map<nat, seq<nat>>, n: nat) {
    && n <= |membership|
    && (forall k: nat :: k < n ==> membership[k] in members)
    && (forall c :: c in members ==> AreMembers(membership, members[c], c, n))
  }

  method CollectMembers(membership: Partition) returns (members: map<nat, seq<nat>>)
    ensures MembersSoFar(membership, members, |membership|)
  {
    members := map[];
    for node := 0 to |membership|
      invariant MembersSoFar(membership, members, node)
    {
      var c := membership[node];
      var group := if c in members then members[c] else [];
      forall a | 0 <= a < |group|
        ensures group[a] < node
      {
        assert group[a] in group;
      }
      assert AreMembers(membership, group + [node], c, node + 1);
      members := members[c := group + [node]];
    }
  }

  lemma PrecedesOrdersAll()
    ensures forall g :: !Precedes(g, g)
    ensures forall g, h, k :: Precedes(g, h) && Precedes(h, k) ==> Precedes(g, k)
  {
  }

  // Two communities that share a node are one.
  lemma SameCommunitySameGroup(membership: Partition, a: seq<nat>, b: seq<nat>, i: nat)
    requires IsCommunity(membership, a) && IsCommunity(membership, b) && i in a && i in b
    ensures a == b
  {
    assert Same(membership, i, a[0]) && Same(membership, i, b[0]);
    assert forall k: nat :: k in a <==> k in b;
    SortedUnique((x: nat, y: nat) => x < y, a, b);
  }

  lemma PrecedesOrders(membership: Partition, groups: seq<seq<nat>>)
    requires forall g :: g in groups ==> IsCommunity(membership, g)
    ensures OrdersAll(Precedes, groups)
  {
    forall a, b | a in groups && b in groups && a != b
      ensures Precedes(a, b) || Precedes(b, a)
    {
      if a[0] == b[0] {
        SameCommunitySameGroup(membership, a, b, a[0]);
      }
    }
  }

  lemma MembersAreCommunities(membership: Partition, members: map<nat, seq<nat>>, c: nat)
    requires MembersSoFar(membership, members, |membership|) && c in members
    ensures forall k: nat :: k in members[c] <==> k < |membership| && membership[k] == c
    ensures |members[c]| > 0 && members[c][0] < |membership| && membership[members[c][0]] == c
    ensures |members[c]| > 1 ==> IsCommunity(membership, members[c])
  {
    assert members[c][0] in members[c];
  }

  // The groups of more than one node, in the order of their labels.
  method LargeGroups(membership: Partition, members: map<nat, seq<nat>>) returns (large: seq<seq<nat>>)
    requires MembersSoFar(membership, members, |membership|)
    ensures forall g :: g in large <==> exists c :: c in members && g == members[c] && |g| > 1
    ensures Distinct(large)
  {
    hide MembersSoFar;
    var keys := SortedListing((x: nat, y: nat) => x < y, members.Keys);
    large := [];
    for x := 0 to |keys|
      invariant forall g :: g in large <==> exists c :: c in keys[..x] && g == members[c] && |g| > 1
      invariant Distinct(large)
    {
      var c := keys[x];
      assert keys[..x + 1] == keys[..x] + [c];
      MembersAreCommunities(membership, members, c);
      if |members[c]| > 1 {
        forall d | d in keys[..x] && d != c
          ensures members[d] != members[c]
        {
          MembersAreCommunities(membership, members, d);
        }
        assert c !in keys[..x];
        large := large + [members[c]];
      }
    }
    assert keys[..|keys|] == keys;
  }

  method NumberCommunities(membership: Partition) returns (groups: seq<seq<nat>>)
    ensures IsNumbering(membership, groups)
    ensures forall x, y :: 0 <= x < y < |groups| ==> |groups[x]| >= |groups[y]| > 1
    ensures forall x, y :: 0 <= x < y < |groups| && |groups[x]| == |groups[y]| ==> groups[x][0] < groups[y][0]
  {
    hide MembersSoFar, IsCommunity, Sort, Precedes, IsNumbering, Distinct;
    var members := CollectMembers(membership);
    var large := LargeGroups(membership, members);
    groups := Sort(Precedes, large);
    forall c | c in members { MembersAreCommunities(membership, members, c); }
    PrecedesOrders(membership, large);
    SortSorts(Precedes, large);
    SortElements(Precedes, large);
    LargeGroupsNumber(membership, members, groups);
    NumberedLargestFirst(membership, groups);
  }

  lemma NumberedLargestFirst(membership: Partition, groups: seq<seq<nat>>)
    requires IsNumbering(membership, groups)
    ensures forall x, y :: 0 <= x < y < |groups| ==> |groups[x]| >= |groups[y]| > 1
    ensures forall x, y :: 0 <= x < y < |groups| && |groups[x]| == |groups[y]| ==> groups[x][0] < groups[y][0]
  {
    forall x | 0 <= x < |groups|
      ensures |groups[x]| > 1
    {
      assert IsCommunity(membership, groups[x]);
    }
    hide IsCommunity;
  }

  // Largest first is what sorting by Precedes gives.
  lemma SortedIsLargestFirst(groups: seq<seq<nat>>)
    requires forall g :: g in groups ==> |g| > 0
    ensures SortedBy(Precedes, groups) <==> LargestFirst(groups)
  {
    forall x, y | 0 <= x < y < |groups|
      ensures |groups[x]| > 0 && |groups[y]| > 0
    {
      assert groups[x] in groups && groups[y] in groups;
    }
    if LargestFirst(groups) {
      forall x, y | 0 <= x < y < |groups|
        ensures Precedes(groups[x], groups[y])
      {
      }
    }
    if SortedBy(Precedes, groups) {
      forall x, y | 0 <= x < y < |groups|
        ensures |groups[x]| >= |groups[y]| && (|groups[x]| == |groups[y]| ==> groups[x][0] < groups[y][0])
      {
        assert Precedes(groups[x], groups[y]);
      }
    }
  }

  lemma LargeGroupsNumber(membership: Partition, members: map<nat, seq<nat>>, groups: seq<seq<nat>>)
    requires MembersSoFar(membership, members, |membership|) && SortedBy(Precedes, groups)
    requires forall g :: g in groups ==> IsCommunity(membership, g)
    requires forall c :: c in members && |members[c]| > 1 ==> members[c] in groups
    ensures IsNumbering(membership, groups)
  {
    assert forall g :: g in groups ==> |g| > 0 by { hide MembersSoFar, SortedBy, Precedes; }
    SortedIsLargestFirst(groups);
    hide MembersSoFar, IsCommunity, SortedBy, Precedes, LargestFirst;
    forall i: nat, j: nat | Same(membership, i, j) && i != j
      ensures exists x :: 0 <= x < |groups| && i in groups[x]
    {
      HasGroup(membership, members, i, j);
      var x :| 0 <= x < |groups| && groups[x] == members[membership[i]];
    }
  }

  lemma HasGroup(membership: Partition, members: map<nat, seq<nat>>, i: nat, j: nat)
    requires MembersSoFar(membership, members, |membership|) && Same(membership, i, j) && i != j
    ensures membership[i] in members && i in members[membership[i]] && |members[membership[i]]| > 1
  {
    var g := members[membership[i]];
    assert i in g && j in g;
  }

  // The summed weights of the relations decide the communities; out maps each
  // entity of a community to the community's number.
  ghost predicate IsTopics(out: map<string, nat>, names: seq<string>, membership: Partition, groups: seq<seq<nat>>) {
    && |membership| == |names| && IsNumbering(membership, groups)
    && (forall n :: n in out ==> n in names)
    && (forall i: nat :: i < |names| ==>
         (names[i] in out <==> exists j: nat :: j != i && Same(membership, i, j)))
    && (forall i: nat :: i < |names| && names[i] in out ==> out[names[i]] < |groups| && i in groups[out[names[i]]])
  }

  // The partition the levels lead to: no worse than singletons, every
  // community connected, and represented by a level at which no single move
  // would gain.
  ghost predicate IsClustering(g: Level, membership: Partition, top: Level) {
    && Modularity(g, membership) >= Modularity(g, Singletons(|g|))
    && (forall i: nat, j: nat :: Same(membership, i, j) ==> Connected(g, i, j))
    && Represents(top, g, membership) && Final(top) && LevelsLeadTo(g, membership)
  }

  // The numbers come from such a clustering of the undirected graph.
  ghost predicate AreTopics(out: map<string, nat>, names: seq<string>, rels: seq<Relation>) {
    exists g, membership, top, groups ::
      IsUndirected(g, names, rels) && IsClustering(g, membership, top) && IsTopics(out, names, membership, groups)
  }

  method FindCommunities(names: seq<string>, rels: seq<Relation>) returns (out: map<string, nat>)
    requires Distinct(names)
    ensures AreTopics(out, names, rels) && (SortedBy(StrLess, names) ==> NumberedBySize(out))
  {
    hide Modularity, Represents, Final, IsUndirected, WithinComponents, ValidLevel, Connected, IsTopics, LevelsLeadTo,
      SortedBy, NumberedBySize;
    var base := BuildUndirected(names, rels);
    assert ValidLevel(base) && |base| == |names| && PositiveWeights(base) by { UndirectedIsLevel(base, names, rels); }
    var membership, top := Cluster(base);
    forall i: nat, j: nat | Same(membership, i, j)
      ensures Connected(base, i, j)
    {
      CommunitiesAreJoined(base, membership, i, j);
    }
    assert IsClustering(base, membership, top);
    assert |membership| == |names| by { ClusterSize(base, membership); }
    var groups := NumberCommunities(membership);
    out := NameGroups(names, membership, groups);
    assert IsTopics(out, names, membership, groups);
    if SortedBy(StrLess, names) {
      TopicsBySize(out, names, membership, groups);
    }
  }

  lemma UndirectedIsLevel(g: Level, names: seq<string>, rels: seq<Relation>)
    requires IsUndirected(g, names, rels)
    ensures ValidLevel(g) && |g| == |names| && PositiveWeights(g)
  {
  }

  lemma ClusterSize(g: Level, membership: Partition)
    requires WithinComponents(g, membership)
    ensures |membership| == |g|
  {
  }

  ghost predicate Listed(groups: seq<seq<nat>>, x: int, i: nat)
    requires 0 <= x <= |groups|
  {
    exists y :: 0 <= y < x && i in groups[y]
  }

  ghost predicate NamedSoFar(out: map<string, nat>, names: seq<string>, groups: seq<seq<nat>>, x: int)
    requires 0 <= x <= |groups|
  {
    && (forall n :: n in out ==> n in names)
    && (forall i: nat :: i < |names| ==> (names[i] in out <==> Listed(groups, x, i)))
    && (forall i: nat :: i < |names| && names[i] in out ==> out[names[i]] < x && i in groups[out[names[i]]])
  }

  method NameGroup(out: map<string, nat>, names: seq<string>, group: seq<nat>, x: nat) returns (named: map<string, nat>)
    requires Distinct(names) && forall k :: k in group ==> k < |names|
    ensures forall n :: n in named ==> n in out || n in names
    ensures forall i: nat :: i < |names| ==> (names[i] in named <==> i in group || names[i] in out)
    ensures forall i: nat :: i < |names| && names[i] in named ==>
      named[names[i]] == if i in group then x else out[names[i]]
  {
    named := out;
    for k := 0 to |group|
      invariant forall n :: n in named ==> n in out || n in names
      invariant forall i: nat :: i < |names| ==> (names[i] in named <==> i in group[..k] || names[i] in out)
      invariant forall i: nat :: i < |names| && names[i] in named ==>
        named[names[i]] == if i in group[..k] then x else out[names[i]]
    {
      assert group[..k + 1] == group[..k] + [group[k]] && group[k] in group;
      named := named[names[group[k]] := x];
    }
    assert group[..|group|] == group;
  }

  method NameGroups(names: seq<string>, membership: Partition, groups: seq<seq<nat>>) returns (out: map<string, nat>)
    requires Distinct(names) && |membership| == |names| && IsNumbering(membership, groups)
    ensures IsTopics(out, names, membership, groups)
  {
    out := map[];
    for x := 0 to |groups|
      invariant NamedSoFar(out, names, groups, x)
    {
      assert IsCommunity(membership, groups[x]);
      ghost var was := out;
      out := NameGroup(out, names, groups[x], x);
      NameNext(was, out, names, groups, x);
    }
    AllNamed(out, names, membership, groups);
  }

  lemma NameNext(was: map<string, nat>, out: map<string, nat>, names: seq<string>, groups: seq<seq<nat>>, x: nat)
    requires x < |groups| && NamedSoFar(was, names, groups, x)
    requires forall n :: n in out ==> n in was || n in names
    requires forall i: nat :: i < |names| ==> (names[i] in out <==> i in groups[x] || names[i] in was)
    requires forall i: nat :: i < |names| && names[i] in out ==>
      out[names[i]] == if i in groups[x] then x else was[names[i]]
    ensures NamedSoFar(out, names, groups, x + 1)
  {
    forall i: nat
      ensures Listed(groups, x + 1, i) <==> Listed(groups, x, i) || i in groups[x]
    {
      if Listed(groups, x, i) {
        var y :| 0 <= y < x && i in groups[y];
      }
    }
  }

  lemma AllNamed(out: map<string, nat>, names: seq<string>, membership: Partition, groups: seq<seq<nat>>)
    requires NamedSoFar(out, names, groups, |groups|)
    requires |membership| == |names| && IsNumbering(membership, groups)
    ensures IsTopics(out, names, membership, groups)
  {
    forall i: nat | i < |names|
      ensures Listed(groups, |groups|, i) <==> exists j: nat :: j != i && Same(membership, i, j)
    {
      if Listed(groups, |groups|, i) {
        var y :| 0 <= y < |groups| && i in groups[y];
        assert IsCommunity(membership, groups[y]);
        var other := if groups[y][0] == i then groups[y][1] else groups[y][0];
        assert other in groups[y] && other != i;
        assert Same(membership, i, other);
      }
    }
  }

  // A membership has one numbering only.
  lemma GroupsAreUnique(membership: Partition, groups: seq<seq<nat>>, other: seq<seq<nat>>)
    requires IsNumbering(membership, groups) && IsNumbering(membership, other)
    ensures groups == other
  {
    GroupsIncluded(membership, groups, other);
    GroupsIncluded(membership, other, groups);
    hide LargestFirst;
    SortedIsLargestFirst(groups);
    SortedIsLargestFirst(other);
    hide IsCommunity, SortedBy;
    PrecedesOrdersAll();
    hide Precedes;
    SortedUnique(Precedes, groups, other);
  }

  lemma GroupsIncluded(membership: Partition, groups: seq<seq<nat>>, other: seq<seq<nat>>)
    requires IsNumbering(membership, groups) && IsNumbering(membership, other)
    ensures forall g :: g in groups ==> g in other
  {
    hide LargestFirst;
    forall g | g in groups
      ensures g in other
    {
      var i, j := g[0], g[1];
      assert i in g && j in g && Same(membership, i, j);
      var x :| 0 <= x < |other| && i in other[x];
      SameCommunitySameGroup(membership, g, other[x], i);
    }
  }

  lemma NumberedDiffer(membership: Partition, groups: seq<seq<nat>>)
    requires IsNumbering(membership, groups)
    ensures Distinct(groups) && forall g :: g in groups ==> |g| > 1
  {
    forall x, y | 0 <= x < y < |groups|
      ensures groups[x] != groups[y]
    {
      assert IsCommunity(membership, groups[x]) && IsCommunity(membership, groups[y]);
    }
  }

  lemma NumbersAreUnique(out: map<string, nat>, out': map<string, nat>, names: seq<string>, membership: Partition,
                         groups: seq<seq<nat>>)
    requires IsTopics(out, names, membership, groups) && IsTopics(out', names, membership, groups)
    ensures out == out'
  {
    NumberedDiffer(membership, groups);
    forall i: nat | i < |names|
      ensures names[i] in out <==> names[i] in out'
      ensures names[i] in out ==> out[names[i]] == out'[names[i]]
    {
      if names[i] in out {
        var x, y := out[names[i]], out'[names[i]];
        SameCommunitySameGroup(membership, groups[x], groups[y], i);
      }
    }
    assert out.Keys == out'.Keys;
    forall n | n in out
      ensures out[n] == out'[n]
    {
      assert n in names;
    }
  }

  // The names and the set of relations determine every number.
  lemma TopicsAreUnique(out: map<string, nat>, out': map<string, nat>, names: seq<string>, rels: seq<Relation>,
                        rels': seq<Relation>)
    requires AreTopics(out, names, rels) && AreTopics(out', names, rels')
    requires Distinct(rels) && Distinct(rels') && forall r :: r in rels <==> r in rels'
    ensures out == out'
  {
    hide IsUndirected, IsTopics, LevelsLeadTo, Modularity, Connected, Represents, Final, Distinct;
    var g, membership, top, groups :|
      IsUndirected(g, names, rels) && IsClustering(g, membership, top) && IsTopics(out, names, membership, groups);
    var g', membership', top', groups' :|
      IsUndirected(g', names, rels') && IsClustering(g', membership', top')
      && IsTopics(out', names, membership', groups');
    UndirectedIsUnique(g, g', names, rels, rels');
    PartitionIsUnique(g, membership, membership');
    TopicsHaveNumbering(out, names, membership, groups);
    TopicsHaveNumbering(out', names, membership, groups');
    GroupsAreUnique(membership, groups, groups');
    NumbersAreUnique(out, out', names, membership, groups);
  }

  lemma TopicsHaveNumbering(out: map<string, nat>, names: seq<string>, membership: Partition, groups: seq<seq<nat>>)
    requires IsTopics(out, names, membership, groups)
    ensures IsNumbering(membership, groups)
  {
  }

  // Entities share a number exactly when they share a community.
  lemma NumberIsCommunity(out: map<string, nat>, names: seq<string>, membership: Partition, groups: seq<seq<nat>>,
                          i: nat, j: nat)
    requires IsTopics(out, names, membership, groups)
    requires i < |names| && j < |names| && names[i] in out && names[j] in out
    ensures out[names[i]] == out[names[j]] <==> Same(membership, i, j)
  {
    var x, y := out[names[i]], out[names[j]];
    assert IsCommunity(membership, groups[x]) && IsCommunity(membership, groups[y]);
    if Same(membership, i, j) && x != y {
      assert j in groups[x];
      SameCommunitySameGroup(membership, groups[x], groups[y], j);
      assert false;
    }
  }

  // The entities with a number.
  ghost function Numbered(out: map<string, nat>, x: nat): set<string> {
    set n | n in out && out[n] == x
  }

  // Some entity of s is before all of t in the order of names.
  ghost predicate NamedFirst(s: set<string>, t: set<string>) {
    exists n :: n in s && forall k :: k in t ==> StrLess(n, k)
  }

  // The numbers are 0, 1, ...; none has fewer entities than a later one, or
  // only one, and of equally many the earlier number has the first name.
  ghost predicate NumberedBySize(out: map<string, nat>) {
    && (forall n :: n in out ==> |Numbered(out, out[n])| > 1)
    && (forall n, x: nat :: n in out && x < out[n] ==>
         && |Numbered(out, x)| >= |Numbered(out, out[n])|
         && (|Numbered(out, x)| == |Numbered(out, out[n])| ==> NamedFirst(Numbered(out, x), Numbered(out, out[n]))))
  }

  ghost function NamesAt(names: seq<string>, group: seq<nat>): set<string>
    requires InRange(group, |names|)
  {
    set j | 0 <= j < |group| :: names[group[j]]
  }

  ghost predicate InRange(group: seq<nat>, n: nat) {
    forall j :: 0 <= j < |group| ==> group[j] < n
  }

  lemma {:induction false} NamesAtCount(names: seq<string>, group: seq<nat>)
    requires Distinct(names) && InRange(group, |names|)
    requires forall a, b :: 0 <= a < b < |group| ==> group[a] < group[b]
    ensures |NamesAt(names, group)| == |group|
  {
    if group != [] {
      var rest, last := group[..|group| - 1], group[|group| - 1];
      NamesAtCount(names, rest);
      NamesAtLast(names, group);
    }
  }

  lemma NamesAtLast(names: seq<string>, group: seq<nat>)
    requires Distinct(names) && InRange(group, |names|) && group != []
    requires forall a, b :: 0 <= a < b < |group| ==> group[a] < group[b]
    ensures var rest, last := group[..|group| - 1], names[group[|group| - 1]];
      InRange(rest, |names|) && NamesAt(names, group) == NamesAt(names, rest) + {last} && last !in NamesAt(names, rest)
  {
    var rest, last := group[..|group| - 1], names[group[|group| - 1]];
    forall n
      ensures n in NamesAt(names, group) <==> n in NamesAt(names, rest) || n == last
    {
      if n in NamesAt(names, rest) {
        var j :| 0 <= j < |rest| && names[rest[j]] == n;
        assert names[group[j]] == n;
      }
      if n in NamesAt(names, group) && n != last {
        var j :| 0 <= j < |group| && names[group[j]] == n;
        assert names[rest[j]] == n;
      }
    }
  }

  lemma NumberedAre(out: map<string, nat>, names: seq<string>, membership: Partition, groups: seq<seq<nat>>, x: nat)
    requires Distinct(names) && IsTopics(out, names, membership, groups) && x < |groups|
    ensures IsCommunity(membership, groups[x]) && InRange(groups[x], |names|)
    ensures Numbered(out, x) == NamesAt(names, groups[x]) && |Numbered(out, x)| == |groups[x]|
  {
    var group := groups[x];
    NumberedDiffer(membership, groups);
    assert IsCommunity(membership, group);
    forall j | 0 <= j < |group|
      ensures group[j] < |names|
    {
      assert group[j] in group;
    }
    NamesAtCount(names, group);
    forall i | i in group
      ensures names[i] in out && out[names[i]] == x
    {
      var other := if group[0] == i then group[1] else group[0];
      assert other in group && Same(membership, i, group[0]) && Same(membership, other, group[0]);
      assert Same(membership, i, other) && other != i;
      SameCommunitySameGroup(membership, group, groups[out[names[i]]], i);
    }
    forall n | n in Numbered(out, x)
      ensures n in NamesAt(names, group)
    {
      var i :| 0 <= i < |names| && names[i] == n;
      assert names[i] in out && i in groups[out[names[i]]];
    }
  }

  // Sorted names make the least node the first name.
  lemma LeastIsNamedFirst(names: seq<string>, a: seq<nat>, b: seq<nat>)
    requires SortedBy(StrLess, names) && |a| > 0 && |b| > 0 && a[0] < b[0]
    requires InRange(a, |names|) && InRange(b, |names|)
    requires forall i, j :: 0 <= i < j < |b| ==> b[i] < b[j]
    ensures NamedFirst(NamesAt(names, a), NamesAt(names, b))
  {
    hide StrLess;
    assert names[a[0]] in NamesAt(names, a);
    forall k | k in NamesAt(names, b)
      ensures StrLess(names[a[0]], k)
    {
      var j :| 0 <= j < |b| && names[b[j]] == k;
      assert b[0] <= b[j];
    }
  }

  lemma NumbersInRange(out: map<string, nat>, names: seq<string>, membership: Partition, groups: seq<seq<nat>>)
    requires IsTopics(out, names, membership, groups)
    ensures forall n :: n in out ==> out[n] < |groups|
  {
    forall n | n in out
      ensures out[n] < |groups|
    {
      var i :| 0 <= i < |names| && names[i] == n;
    }
  }

  lemma EarlierNumber(out: map<string, nat>, names: seq<string>, membership: Partition, groups: seq<seq<nat>>,
                      x: nat, y: nat)
    requires Distinct(names) && SortedBy(StrLess, names) && IsTopics(out, names, membership, groups)
    requires x < y < |groups|
    ensures |Numbered(out, x)| >= |Numbered(out, y)| > 1
    ensures |Numbered(out, x)| == |Numbered(out, y)| ==> NamedFirst(Numbered(out, x), Numbered(out, y))
  {
    hide Numbered, NamedFirst, SortedBy, Distinct, StrLess;
    NumberedAre(out, names, membership, groups, x);
    NumberedAre(out, names, membership, groups, y);
    NumberedLargestFirst(membership, groups);
    hide IsTopics, IsNumbering;
    if |groups[x]| == |groups[y]| {
      LeastIsNamedFirst(names, groups[x], groups[y]);
    }
  }

  lemma TopicsBySize(out: map<string, nat>, names: seq<string>, membership: Partition, groups: seq<seq<nat>>)
    requires Distinct(names) && SortedBy(StrLess, names) && IsTopics(out, names, membership, groups)
    ensures NumberedBySize(out)
  {
    hide Numbered, NamedFirst, SortedBy, Distinct, StrLess, IsTopics, IsNumbering;
    NumbersInRange(out, names, membership, groups);
    forall n | n in out
      ensures |Numbered(out, out[n])| > 1
    {
      NumberedAre(out, names, membership, groups, out[n]);
    }
    forall n, x: nat | n in out && x < out[n]
      ensures |Numbered(out, x)| >= |Numbered(out, out[n])|
      ensures |Numbered(out, x)| == |Numbered(out, out[n])| ==> NamedFirst(Numbered(out, x), Numbered(out, out[n]))
    {
      EarlierNumber(out, names, membership, groups, x, out[n]);
    }
  }
}
