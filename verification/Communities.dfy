// Topic communities: Louvain levels until no community changes, then the
// numbering of the communities by size.
module Communities {
  import opened Sums
  import opened Levels
  import opened Louvain
  import opened Adjacency
  import opened Aggregation

  ghost predicate AppearsBefore(groups: Partition, i: int, v: int)
    requires 0 <= i <= |groups|
  {
    exists j :: 0 <= j < i && groups[j] == v
  }

  // groups renames the labels of assignment to 0, 1, ... in order of first
  // appearance.
  ghost predicate IsRenumbering(assignment: Partition, groups: Partition) {
    && |groups| == |assignment|
    && (forall i, j :: 0 <= i < |groups| && 0 <= j < |groups| ==>
         (groups[i] == groups[j] <==> assignment[i] == assignment[j]))
    && (forall i, v :: 0 <= i < |groups| && 0 <= v < groups[i] ==> AppearsBefore(groups, i, v))
  }

  // The labels below count have all appeared, each after the smaller ones.
  ghost predicate InOrder(groups: Partition, count: nat) {
    && (forall v :: 0 <= v < count ==> AppearsBefore(groups, |groups|, v))
    && (forall j, v :: 0 <= j < |groups| && 0 <= v < groups[j] ==> AppearsBefore(groups, j, v))
  }

  // labels is the renaming of the labels met so far.
  ghost predicate Renames(labels: map<nat, nat>, assignment: Partition, groups: Partition) {
    && |groups| <= |assignment| && |labels| <= |groups|
    && (forall j :: 0 <= j < |groups| ==> assignment[j] in labels && groups[j] == labels[assignment[j]] <= j)
    && (forall c :: c in labels ==> labels[c] < |labels|)
    && (forall c, d :: c in labels && d in labels && labels[c] == labels[d] ==> c == d)
  }

  lemma AppearsStays(groups: Partition, x: nat)
    ensures forall j, v :: 0 <= j <= |groups| && AppearsBefore(groups, j, v) ==> AppearsBefore(groups + [x], j, v)
    ensures forall v :: AppearsBefore(groups, |groups|, v) ==> AppearsBefore(groups + [x], |groups| + 1, v)
    ensures AppearsBefore(groups + [x], |groups| + 1, x)
  {
    var longer := groups + [x];
    assert longer[|groups|] == x;
    forall j, v | 0 <= j <= |groups| && AppearsBefore(groups, j, v)
      ensures AppearsBefore(longer, j, v) && AppearsBefore(longer, |groups| + 1, v)
    {
      var k :| 0 <= k < j && groups[k] == v;
      assert longer[k] == v;
    }
  }

  lemma InOrderNext(groups: Partition, count: nat, x: nat)
    requires InOrder(groups, count) && x <= count
    ensures InOrder(groups + [x], if x == count then count + 1 else count)
  {
    hide AppearsBefore;
    var groups' := groups + [x];
    AppearsStays(groups, x);
    forall j, v | 0 <= j < |groups'| && 0 <= v < groups'[j]
      ensures AppearsBefore(groups', j, v)
    {
      assert AppearsBefore(groups, j, v);
    }
    forall v | 0 <= v < if x == count then count + 1 else count
      ensures AppearsBefore(groups', |groups'|, v)
    {
      assert v < count ==> AppearsBefore(groups, |groups|, v);
    }
  }

  method Renumber(assignment: Partition) returns (groups: Partition)
    ensures IsRenumbering(assignment, groups) && |groups| == |assignment|
    ensures forall i :: 0 <= i < |groups| ==> groups[i] <= i
  {
    assert InOrder([], 0);
    hide InOrder;
    var labels: map<nat, nat> := map[];
    groups := [];
    for i := 0 to |assignment|
      invariant |groups| == i && Renames(labels, assignment, groups) && InOrder(groups, |labels|)
    {
      var c := assignment[i];
      ghost var was := labels;
      if c !in labels {
        labels := labels[c := |labels|];
      }
      InOrderNext(groups, |was|, labels[c]);
      groups := groups + [labels[c]];
    }
    assert IsRenumbering(assignment, groups) by { RenumberDone(labels, assignment, groups); }
  }

  lemma RenumberDone(labels: map<nat, nat>, assignment: Partition, groups: Partition)
    requires Renames(labels, assignment, groups) && |groups| == |assignment| && InOrder(groups, |labels|)
    ensures IsRenumbering(assignment, groups)
  {
  }

  // The number of groups: the largest label and one.
  method CountGroups(groups: Partition) returns (count: nat)
    ensures forall i :: 0 <= i < |groups| ==> groups[i] < count
    ensures count == 0 || exists i :: 0 <= i < |groups| && count == groups[i] + 1
  {
    count := 0;
    for i := 0 to |groups|
      invariant forall k :: 0 <= k < i ==> groups[k] < count
      invariant count == 0 || exists k :: 0 <= k < i && count == groups[k] + 1
    {
      if groups[i] + 1 > count {
        count := groups[i] + 1;
      }
    }
  }

  // Only which nodes share a label matters.
  lemma SameCommunitiesSameModularity(g: Level, c: Partition, d: Partition)
    requires |c| == |d|
    requires forall i, j :: Same(c, i, j) <==> Same(d, i, j)
    ensures Modularity(g, c) == Modularity(g, d)
  {
    Sum2Ext(|g|, Within(g, c), Within(g, d));
  }

  // level is what partitioning base by membership leaves.
  ghost predicate Represents(level: Level, base: Level, membership: Partition) {
    && IsGrouping(membership, |base|, |level|)
    && ValidLevel(level)
    && (forall p: Partition :: |p| == |level| ==> Modularity(level, p) == Modularity(base, Compose(p, membership)))
    && (forall comp :: Respects(base, comp) ==> HasLabels(level, membership, comp))
  }

  ghost predicate LabelsOf(level: Level, membership: Partition, comp: seq<int>, labels: seq<int>) {
    && Respects(level, labels)
    && |comp| == |membership|
    && forall i :: 0 <= i < |membership| ==> membership[i] < |labels| && labels[membership[i]] == comp[i]
  }

  ghost predicate HasLabels(level: Level, membership: Partition, comp: seq<int>) {
    exists labels :: LabelsOf(level, membership, comp, labels)
  }

  lemma InitiallyRepresents(base: Level)
    requires ValidLevel(base)
    ensures Represents(base, base, Singletons(|base|))
  {
    forall p: Partition | |p| == |base|
      ensures Modularity(base, p) == Modularity(base, Compose(p, Singletons(|base|)))
    {
      assert Compose(p, Singletons(|base|)) == p;
    }
    forall comp | Respects(base, comp)
      ensures HasLabels(base, Singletons(|base|), comp)
    {
      assert LabelsOf(base, Singletons(|base|), comp, comp);
    }
  }

  // A labelling of the aggregated level from one of the level below.
  lemma LiftLabels(next: Level, level: Level, assignment: Partition, groups: Partition, labels: seq<int>)
    returns (lifted: seq<int>)
    requires ValidLevel(level) && IsGrouping(groups, |level|, |next|) && IsRenumbering(assignment, groups)
    requires Respects(level, labels) && LabelsRespect(labels, assignment)
    requires ValidLevel(next)
    requires forall a, p :: 0 <= a < |next| && 0 <= p < |next[a]| ==> Linked(level, groups, Key(a, next[a][p].to))
    ensures Respects(next, lifted)
    ensures forall i :: 0 <= i < |level| ==> lifted[groups[i]] == labels[i]
  {
    lifted := seq(|next|, a requires 0 <= a < |next| => LabelOfGroup(groups, labels, a));
    forall i | 0 <= i < |level|
      ensures lifted[groups[i]] == labels[i]
    {
      assert groups[i] in groups;
      var k :| 0 <= k < |groups| && groups[k] == groups[i] && LabelOfGroup(groups, labels, groups[i]) == labels[k];
      assert labels[assignment[k]] == labels[k] && labels[assignment[i]] == labels[i];
    }
    forall a, p | 0 <= a < |next| && 0 <= p < |next[a]| && next[a][p].to < |next|
      ensures lifted[next[a][p].to] == lifted[a]
    {
      var i, k :| 0 <= i < |level| && 0 <= k < |level[i]| && level[i][k].to < |level|
        && Key(groups[i], groups[level[i][k].to]) == Key(a, next[a][p].to);
      assert labels[level[i][k].to] == labels[i];
    }
  }

  ghost function LabelOfGroup(groups: Partition, labels: seq<int>, a: int): (r: int)
    requires |labels| == |groups|
    ensures a in groups ==> exists k :: 0 <= k < |groups| && groups[k] == a && r == labels[k]
  {
    if k :| 0 <= k < |groups| && groups[k] == a then labels[k] else 0
  }

  lemma StepRepresents(next: Level, level: Level, base: Level, membership: Partition, assignment: Partition,
                       groups: Partition)
    requires Represents(level, base, membership) && Aggregates(next, level, groups) && ValidLevel(next)
    requires IsRenumbering(assignment, groups)
    requires forall labels :: Respects(level, labels) ==> LabelsRespect(labels, assignment)
    requires forall a, p :: 0 <= a < |next| && 0 <= p < |next[a]| ==> Linked(level, groups, Key(a, next[a][p].to))
    ensures Represents(next, base, Compose(groups, membership))
  {
    var m := Compose(groups, membership);
    forall p: Partition | |p| == |next|
      ensures Modularity(next, p) == Modularity(base, Compose(p, m))
    {
      AggregateModularity(next, level, groups, p);
      assert Compose(Compose(p, groups), membership) == Compose(p, m);
    }
    forall comp | Respects(base, comp)
      ensures HasLabels(next, m, comp)
    {
      assert HasLabels(level, membership, comp);
      var labels :| LabelsOf(level, membership, comp, labels);
      var lifted := LiftLabels(next, level, assignment, groups, labels);
      assert LabelsOf(next, m, comp, lifted);
    }
  }

  // As many groups as nodes: every node is its own group.
  lemma {:induction false} AllAlone(assignment: Partition, groups: Partition, i: nat)
    requires IsRenumbering(assignment, groups) && i < |groups|
    requires forall k :: 0 <= k < |groups| ==> groups[k] <= k
    requires exists k :: 0 <= k < |groups| && |groups| == groups[k] + 1
    ensures forall k :: i <= k < |groups| ==> groups[k] == k
    decreases |groups| - i
  {
    if i + 1 < |groups| {
      AllAlone(assignment, groups, i + 1);
      assert AppearsBefore(groups, i + 1, i);
    }
  }

  // No node of the level would move: no community would gain by joining a
  // neighbouring one.
  ghost predicate Final(level: Level) {
    M2(level) == 0.0 || forall a :: 0 <= a < |level| ==> Settled(level, Singletons(|level|), a)
  }

  lemma NothingMoved(level: Level, assignment: Partition, groups: Partition)
    requires ValidLevel(level) && IsRenumbering(assignment, groups) && |assignment| == |level|
    requires forall k :: 0 <= k < |groups| ==> groups[k] <= k
    requires |groups| == 0 || exists k :: 0 <= k < |groups| && |groups| == groups[k] + 1
    requires M2(level) == 0.0
          || (forall i :: 0 <= i < |level| ==> Settled(level, assignment, i))
          || Modularity(level, assignment)
               >= Modularity(level, Singletons(|level|)) + LOUVAIN_PASSES as real * Step(level)
    requires assignment != Singletons(|level|) ==>
      Modularity(level, assignment) > Modularity(level, Singletons(|level|))
    ensures Final(level)
  {
    hide Modularity, Settled, ValidLevel, M2, Step;
    if |groups| > 0 {
      AllAlone(assignment, groups, 0);
    }
    SameCommunitiesSameModularity(level, assignment, Singletons(|level|));
    DegreeNonNeg(level);
    if M2(level) != 0.0 {
      StepPositive(level);
    }
  }

  // No community spans two connected components: every labelling that is
  // constant along edges is constant on communities.
  ghost predicate WithinComponents(base: Level, membership: Partition) {
    |membership| == |base| && forall comp, i, j :: Respects(base, comp) && Same(membership, i, j) ==> comp[i] == comp[j]
  }

  ghost predicate IsNumbered(assignment: Partition, groups: Partition, count: nat) {
    && IsRenumbering(assignment, groups)
    && (forall i :: 0 <= i < |groups| ==> groups[i] < count)
    && (count == 0 || exists i :: 0 <= i < |groups| && count == groups[i] + 1)
  }

  // next collapses the groups of level.
  ghost predicate IsCollapsed(next: Level, level: Level, groups: Partition) {
    IsCanonical(next) && Aggregates(next, level, groups)
  }

  // p is the partition of level that the levels from it on lead to.
  ghost predicate LevelsLeadTo(level: Level, p: Partition)
    decreases |level|, 1
  {
    exists groups, count: nat :: IsNumbered(LevelLabels(level), groups, count) && EndsAt(level, groups, count, p)
  }

  // Once the level has been divided into groups.
  ghost predicate EndsAt(level: Level, groups: Partition, count: nat, p: Partition)
    decreases |level|, 0
  {
    if count == |level| then p == Singletons(|level|)
    else
      exists next: Level, q ::
        |next| == count < |level| && IsCollapsed(next, level, groups) && ExtendsTo(next, q, groups, p)
  }

  ghost predicate ExtendsTo(next: Level, q: Partition, groups: Partition, p: Partition)
    decreases |next|, 2
  {
    |q| == |next| && LevelsLeadTo(next, q) && IsGrouping(groups, |groups|, |next|) && p == Compose(q, groups)
  }

  lemma {:induction false} NumberingIsUnique(assignment: Partition, groups: Partition, other: Partition, i: nat)
    requires IsRenumbering(assignment, groups) && IsRenumbering(assignment, other) && i <= |groups|
    ensures groups[..i] == other[..i]
  {
    if i > 0 {
      var last := i - 1;
      NumberingIsUnique(assignment, groups, other, last);
      assert forall k :: 0 <= k < last ==> groups[..last][k] == other[..last][k];
      assert groups[last] < other[last] ==> AppearsBefore(other, last, groups[last]);
      assert other[last] < groups[last] ==> AppearsBefore(groups, last, other[last]);
    }
  }

  lemma NumberedIsUnique(assignment: Partition, groups: Partition, other: Partition, count: nat, count': nat)
    requires IsNumbered(assignment, groups, count) && IsNumbered(assignment, other, count')
    ensures groups == other && count == count'
  {
    NumberingIsUnique(assignment, groups, other, |groups|);
    assert groups == groups[..|groups|] && other == other[..|groups|];
  }

  // The levels lead to one partition only.
  lemma {:induction false} PartitionIsUnique(level: Level, p: Partition, p': Partition)
    requires LevelsLeadTo(level, p) && LevelsLeadTo(level, p')
    ensures p == p'
    decreases |level|, 1
  {
    hide IsNumbered, EndsAt;
    var labels := LevelLabels(level);
    var groups, count: nat :| IsNumbered(labels, groups, count) && EndsAt(level, groups, count, p);
    var groups', count': nat :| IsNumbered(labels, groups', count') && EndsAt(level, groups', count', p');
    NumberedIsUnique(labels, groups, groups', count, count');
    EndIsUnique(level, groups, count, p, p');
  }

  lemma {:induction false} EndIsUnique(level: Level, groups: Partition, count: nat, p: Partition, p': Partition)
    requires EndsAt(level, groups, count, p) && EndsAt(level, groups, count, p')
    ensures p == p'
    decreases |level|, 0
  {
    hide IsCollapsed, LevelsLeadTo;
    if count != |level| {
      var next: Level, q :|
        |next| == count < |level| && IsCollapsed(next, level, groups) && ExtendsTo(next, q, groups, p);
      var next': Level, q' :|
        |next'| == count < |level| && IsCollapsed(next', level, groups) && ExtendsTo(next', q', groups, p');
      CollapsedIsUnique(next, next', level, groups);
      PartitionIsUnique(next, q, q');
    }
  }

  lemma CollapsedIsUnique(next: Level, other: Level, level: Level, groups: Partition)
    requires IsCollapsed(next, level, groups) && IsCollapsed(other, level, groups) && |next| == |other|
    ensures next == other
  {
    AggregateIsUnique(next, other, level, groups);
  }

  // What the rest of the levels leads to is what they all lead to.
  ghost predicate Continues(level: Level, base: Level, membership: Partition)
    requires IsGrouping(membership, |base|, |level|)
  {
    forall q :: |q| == |level| && LevelsLeadTo(level, q) ==> LevelsLeadTo(base, Compose(q, membership))
  }

  // The level was reached from base, with no weight lost to zero.
  ghost predicate Follows(level: Level, base: Level, membership: Partition) {
    && IsGrouping(membership, |base|, |level|)
    && (PositiveWeights(base) ==> PositiveWeights(level) && Continues(level, base, membership))
  }

  lemma InitiallyFollows(base: Level)
    ensures Follows(base, base, Singletons(|base|))
  {
    hide LevelsLeadTo;
    forall q: Partition | |q| == |base|
      ensures Compose(q, Singletons(|base|)) == q
    {
    }
  }

  lemma FollowsStep(next: Level, level: Level, base: Level, membership: Partition, groups: Partition)
    requires Follows(level, base, membership) && IsNumbered(LevelLabels(level), groups, |next|)
    requires Aggregates(next, level, groups) && (PositiveWeights(level) ==> IsCanonical(next)) && |next| < |level|
    ensures Follows(next, base, Compose(groups, membership))
  {
    hide IsNumbered, Aggregates, PositiveWeights, LevelLabels;
    assert IsGrouping(groups, |level|, |next|) by { AggregatesGroups(next, level, groups); }
    if PositiveWeights(base) {
      assert PositiveWeights(next) && IsCollapsed(next, level, groups);
      forall q | |q| == |next| && LevelsLeadTo(next, q)
        ensures LevelsLeadTo(base, Compose(q, Compose(groups, membership)))
      {
        assert ExtendsTo(next, q, groups, Compose(q, groups));
        assert EndsAt(level, groups, |next|, Compose(q, groups));
        assert Compose(Compose(q, groups), membership) == Compose(q, Compose(groups, membership));
      }
    }
  }

  lemma AggregatesGroups(next: Level, level: Level, groups: Partition)
    requires Aggregates(next, level, groups)
    ensures IsGrouping(groups, |level|, |next|)
  {
  }

  lemma FollowsToEnd(level: Level, base: Level, membership: Partition, groups: Partition)
    requires Follows(level, base, membership) && IsNumbered(LevelLabels(level), groups, |level|)
    ensures PositiveWeights(base) ==> LevelsLeadTo(base, membership)
  {
    hide IsNumbered, PositiveWeights, LevelLabels;
    var alone := Singletons(|level|);
    assert EndsAt(level, groups, |level|, alone);
    assert Compose(alone, membership) == membership;
  }

  lemma RepresentsLevel(level: Level, base: Level, membership: Partition)
    requires Represents(level, base, membership)
    ensures ValidLevel(level) && IsGrouping(membership, |base|, |level|)
  {
  }

  lemma StepGains(next: Level, level: Level, base: Level, membership: Partition, assignment: Partition,
                  groups: Partition)
    requires Represents(level, base, membership) && Aggregates(next, level, groups)
    requires IsRenumbering(assignment, groups)
    requires Modularity(level, assignment) >= Modularity(level, Singletons(|level|))
    ensures Modularity(base, Compose(groups, membership)) >= Modularity(base, membership)
  {
    hide Modularity, ValidLevel, HasLabels, Respects;
    var alone := Singletons(|level|);
    assert Compose(alone, membership) == membership && |groups| == |level|;
    SameCommunitiesSameModularity(level, assignment, groups);
    assert Modularity(level, groups) == Modularity(base, Compose(groups, membership));
  }

  // Louvain: levels until the number of communities stops shrinking.
  method Cluster(base: Level) returns (membership: Partition, ghost top: Level)
    requires ValidLevel(base)
    ensures Represents(top, base, membership) && Final(top)
    ensures Modularity(base, membership) >= Modularity(base, Singletons(|base|))
    ensures WithinComponents(base, membership)
    ensures PositiveWeights(base) ==> LevelsLeadTo(base, membership)
  {
    hide Modularity, ValidLevel, Aggregates, Linked, Settled, M2, IsRenumbering, Respects, HasLabels, Follows,
      PositiveWeights, LevelLabels, LevelsLeadTo, Step, Final, Represents;
    membership := Singletons(|base|);
    var level := base;
    InitiallyRepresents(base);
    InitiallyFollows(base);
    while true
      invariant Represents(level, base, membership)
      invariant Follows(level, base, membership)
      invariant Modularity(base, membership) >= Modularity(base, Singletons(|base|))
      decreases |level|
    {
      assert ValidLevel(level) && IsGrouping(membership, |base|, |level|) by {
        RepresentsLevel(level, base, membership);
      }
      var assignment := LouvainLevel(level);
      var groups := Renumber(assignment);
      var count := CountGroups(groups);
      if count == |level| {
        NothingMoved(level, assignment, groups);
        FollowsToEnd(level, base, membership, groups);
        break;
      }
      var next := Aggregate(level, groups, count);
      StepRepresents(next, level, base, membership, assignment, groups);
      FollowsStep(next, level, base, membership, groups);
      StepGains(next, level, base, membership, assignment, groups);
      level, membership := next, Compose(groups, membership);
    }
    top := level;
    CommunitiesAreConnected(top, base, membership);
  }

  lemma CommunitiesAreConnected(level: Level, base: Level, membership: Partition)
    requires Represents(level, base, membership)
    ensures WithinComponents(base, membership)
  {
    forall comp, i, j | Respects(base, comp) && Same(membership, i, j)
      ensures comp[i] == comp[j]
    {
      assert HasLabels(level, membership, comp);
      var labels :| LabelsOf(level, membership, comp, labels);
    }
  }

  // At the end no two linked communities gain by being merged, beyond what
  // the least accepted gain allows.
  lemma NoMergeGains(base: Level, membership: Partition, top: Level, a: nat, p: nat)
    requires Represents(top, base, membership) && Final(top) && M2(top) != 0.0
    requires a < |top| && p < |top[a]| && top[a][p].to < |top| && top[a][p].to != a
    ensures Modularity(base, Compose(Singletons(|top|)[a := top[a][p].to], membership)) <=
      Modularity(base, membership) + Step(top)
  {
    hide Modularity, Gain;
    var alone, b := Singletons(|top|), top[a][p].to;
    DegreeNonNeg(top);
    MoveChangesModularity(top, alone, a, b);
    assert Settled(top, alone, a);
    GainStep(Gain(top, alone, a, b) - Gain(top, alone, a, a), M2(top));
    assert Compose(alone, membership) == membership;
  }

  lemma GainStep(gain: real, m2: real)
    requires gain <= MIN_GAIN && m2 > 0.0
    ensures 2.0 * gain / m2 <= 2.0 * MIN_GAIN / m2
  {
  }
}
