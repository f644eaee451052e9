// Topics and importances of an entity graph: they depend only on its
// entities, mention lists and relations, not on how it came about.
module Analytics {
  import opened Types
  import opened Sorting
  import opened Strings
  import opened Sums
  import opened Levels
  import opened PageRank
  import opened Undirected
  import opened TopicCommunities
  import opened Importance
  import opened DiGraph
  import opened Names
  import opened Mentions
  import opened GraphState
  import opened EntityGraph
  import opened Storage

  // The names in order, and every relation once, in any order.
  ghost predicate Lists(names: seq<string>, rels: seq<Relation>, known: set<string>, relations: set<Relation>) {
    && SortedBy(StrLess, names) && Distinct(names) && (forall x :: x in names <==> x in known)
    && Distinct(rels) && (forall r :: r in rels <==> r in relations)
  }

  ghost predicate AreTopicsOf(out: map<string, nat>, known: set<string>, relations: set<Relation>) {
    exists names, rels :: Lists(names, rels, known, relations) && AreTopics(out, names, rels)
  }

  // What the importance of every entity is given by.
  datatype Scoring = Scoring(
    entities: Entities, mentions: MentionLists, relations: set<Relation>,
    ln1p: nat -> real, recency: nat -> real)

  function Linked(mentions: MentionLists, names: seq<string>): seq<nat> {
    seq(|names|, i requires 0 <= i < |names| => |ListOf(mentions, names[i])|)
  }

  function Counted(entities: Entities, names: seq<string>): seq<nat>
    requires forall x :: x in names ==> x in entities
  {
    seq(|names|, i requires 0 <= i < |names| => entities[names[i]].mentionCount)
  }

  function LastSeen(entities: Entities, names: seq<string>): seq<Time>
    requires forall x :: x in names ==> x in entities
  {
    seq(|names|, i requires 0 <= i < |names| => entities[names[i]].lastMentioned)
  }

  // How strongly the random surfer is drawn to an entity: by the records linked
  // to it or the mentions counted, whichever are more.
  ghost function MentionWeight(s: Scoring, n: string): real
    requires n in s.entities
  {
    var linked, counted := |ListOf(s.mentions, n)|, s.entities[n].mentionCount;
    1.0 + s.ln1p(if linked < counted then counted else linked)
  }

  ghost predicate TeleportsByMentions(s: Scoring, names: seq<string>, teleport: seq<real>, total: real)
    requires forall x :: x in names ==> x in s.entities
  {
    total > 0.0 && |teleport| == |names| &&
    forall i :: 0 <= i < |names| ==> teleport[i] == MentionWeight(s, names[i]) / total
  }

  // No entity was mentioned after l.
  ghost predicate IsLastMentioned(entities: Entities, l: string) {
    l in entities && forall n :: n in entities ==> entities[n].lastMentioned <= entities[l].lastMentioned
  }

  // The score of entity i is its share of the top rank, faded by the time from
  // its last mention to the last mention of any.
  ghost predicate ScoreFades(scores: map<string, real>, s: Scoring, names: seq<string>, rank: seq<real>,
                             i: nat, k: nat, l: string)
    requires |rank| == |names| && i < |names| && k < |names| && rank[k] != 0.0
    requires (forall x :: x in names ==> x in s.entities && x in scores) && IsLastMentioned(s.entities, l)
  {
    IsTop(rank, k) ==>
      var age := s.entities[l].lastMentioned - s.entities[names[i]].lastMentioned;
      scores[names[i]] == (rank[i] / rank[k]) * (0.5 + 0.5 * s.recency(age))
  }

  ghost predicate ScoresByRank(scores: map<string, real>, s: Scoring, names: seq<string>, rank: seq<real>)
    requires forall x :: x in names ==> x in s.entities
  {
    && |rank| == |names| && (forall n :: n in scores <==> n in names)
    && (forall n :: n in scores ==> 0.0 < scores[n] <= 1.0)
    && (forall i: nat, k: nat, l ::
         i < |names| && k < |names| && rank[k] > 0.0 && IsLastMentioned(s.entities, l) ==>
           ScoreFades(scores, s, names, rank, i, k, l))
  }

  ghost predicate AreImportancesFrom(scores: map<string, real>, names: seq<string>, rels: seq<Relation>, s: Scoring)
    requires forall x :: x in names ==> x in s.entities
  {
    exists g, teleport, total, rank, iterations ::
      && IsUndirected(g, names, rels) && IsRanking(g, teleport, rank, iterations)
      && TeleportsByMentions(s, names, teleport, total) && ScoresByRank(scores, s, names, rank)
  }

  ghost predicate AreImportancesOf(scores: map<string, real>, s: Scoring) {
    exists names, rels :: Lists(names, rels, s.entities.Keys, s.relations) && AreImportancesFrom(scores, names, rels, s)
  }

  // Listings of the same names and relations differ only in the order of the
  // relations.
  lemma ListsAgree(names: seq<string>, rels: seq<Relation>, names': seq<string>, rels': seq<Relation>,
                   known: set<string>, relations: set<Relation>)
    requires Lists(names, rels, known, relations) && Lists(names', rels', known, relations)
    ensures names == names' && Distinct(rels) && Distinct(rels') && forall r :: r in rels <==> r in rels'
  {
    StrLessIsOrder();
    hide StrLess;
    SortedUnique(StrLess, names, names');
  }

  // Entities and relations determine every topic.
  lemma GraphTopicsAreUnique(out: map<string, nat>, out': map<string, nat>, known: set<string>,
                             relations: set<Relation>)
    requires AreTopicsOf(out, known, relations) && AreTopicsOf(out', known, relations)
    ensures out == out'
  {
    hide Lists, AreTopics, Distinct;
    var names, rels :| Lists(names, rels, known, relations) && AreTopics(out, names, rels);
    var names', rels' :| Lists(names', rels', known, relations) && AreTopics(out', names', rels');
    ListsAgree(names, rels, names', rels', known, relations);
    TopicsAreUnique(out, out', names, rels, rels');
  }

  lemma TotalIsUnique(t: seq<real>, u: seq<real>, weights: seq<real>, a: real, b: real)
    requires |t| == |u| == |weights| && a > 0.0 && b > 0.0
    requires Distribution(|t|, At(t)) && Distribution(|t|, At(u))
    requires forall i :: 0 <= i < |t| ==> t[i] == weights[i] / a && u[i] == weights[i] / b
    ensures a == b && t == u
  {
    forall i | 0 <= i < |t|
      ensures At(u)(i) == Ratio(At(t)(i), a, b)
    {
    }
    SumRatio(|t|, At(u), At(t), a, b);
  }

  lemma TeleportIsUnique(t: seq<real>, u: seq<real>, s: Scoring, names: seq<string>, a: real, b: real)
    requires forall x :: x in names ==> x in s.entities
    requires |t| == |u| == |names| && Distribution(|t|, At(t)) && Distribution(|t|, At(u))
    requires TeleportsByMentions(s, names, t, a) && TeleportsByMentions(s, names, u, b)
    ensures t == u
  {
    hide Distribution, MentionWeight;
    var weights := seq(|names|, i requires 0 <= i < |names| => MentionWeight(s, names[i]));
    TotalIsUnique(t, u, weights, a, b);
  }

  lemma RankingIsUnique(g: Level, teleport: seq<real>, rank: seq<real>, rank': seq<real>, k: nat, l: nat)
    requires IsRanking(g, teleport, rank, k) && IsRanking(g, teleport, rank', l)
    ensures rank == rank'
  {
    hide Change, Iterates, Distribution, ErrorBounded, SettledWithin, Power, Transition;
    var t := At(teleport);
    var atK, atL := Change(|g|, t, Transition(g, t), k), Change(|g|, t, Transition(g, t), l);
    assert k == l;
    forall j | 0 <= j < |g|
      ensures rank[j] == rank'[j]
    {
      assert At(rank)(j) == At(rank')(j);
    }
  }

  lemma {:induction false} HasTop(rank: seq<real>)
    requires |rank| > 0
    ensures exists k :: 0 <= k < |rank| && IsTop(rank, k)
  {
    var rest := rank[..|rank| - 1];
    var k := 0;
    if rest != [] {
      HasTop(rest);
      k :| 0 <= k < |rest| && IsTop(rest, k);
    }
    var top := if rank[|rest|] > rank[k] then |rest| else k;
    forall j | 0 <= j < |rank|
      ensures rank[j] <= rank[top]
    {
      assert j < |rest| ==> rank[j] == rest[j];
    }
    assert IsTop(rank, top);
  }

  lemma {:induction false} HasLatest(entities: Entities, names: seq<string>)
    requires |names| > 0 && forall x :: x in names ==> x in entities
    ensures exists l ::
      l in names && forall x :: x in names ==> entities[x].lastMentioned <= entities[l].lastMentioned
  {
    var rest, n := names[..|names| - 1], names[|names| - 1];
    assert names == rest + [n];
    var l := n;
    if rest != [] {
      HasLatest(entities, rest);
      var m :| m in rest && forall x :: x in rest ==> entities[x].lastMentioned <= entities[m].lastMentioned;
      l := if entities[n].lastMentioned > entities[m].lastMentioned then n else m;
    }
    assert l in names && forall x :: x in names ==> entities[x].lastMentioned <= entities[l].lastMentioned;
  }

  lemma ScoresAreUnique(scores: map<string, real>, scores': map<string, real>, s: Scoring, names: seq<string>,
                        rank: seq<real>)
    requires forall x :: x in names <==> x in s.entities
    requires |names| == |rank| && Distribution(|rank|, At(rank))
    requires ScoresByRank(scores, s, names, rank) && ScoresByRank(scores', s, names, rank)
    ensures scores == scores'
  {
    forall i: nat | i < |names|
      ensures scores[names[i]] == scores'[names[i]]
    {
      HasTop(rank);
      HasLatest(s.entities, names);
      var k: nat :| k < |rank| && IsTop(rank, k);
      var l :| l in names &&
        forall x :: x in names ==> s.entities[x].lastMentioned <= s.entities[l].lastMentioned;
      assert rank[k] == At(rank)(k) > 0.0 && IsLastMentioned(s.entities, l);
      assert ScoreFades(scores, s, names, rank, i, k, l) && ScoreFades(scores', s, names, rank, i, k, l);
    }
    forall n | n in scores
      ensures n in scores' && scores[n] == scores'[n]
    {
      assert n in names;
    }
  }

  lemma SameOrderSameScores(scores: map<string, real>, scores': map<string, real>, names: seq<string>,
                            rels: seq<Relation>, rels': seq<Relation>, s: Scoring)
    requires forall x :: x in names <==> x in s.entities
    requires Distinct(rels) && Distinct(rels') && forall r :: r in rels <==> r in rels'
    requires AreImportancesFrom(scores, names, rels, s) && AreImportancesFrom(scores', names, rels', s)
    ensures scores == scores'
  {
    hide IsUndirected, TeleportsByMentions, ScoresByRank, Distinct, Distribution, IsIterate, StopsAt, ErrorBounded,
      SettledWithin;
    var g, teleport, total, rank, iterations :|
      && IsUndirected(g, names, rels) && IsRanking(g, teleport, rank, iterations)
      && TeleportsByMentions(s, names, teleport, total) && ScoresByRank(scores, s, names, rank);
    var g', teleport', total', rank', iterations' :|
      && IsUndirected(g', names, rels') && IsRanking(g', teleport', rank', iterations')
      && TeleportsByMentions(s, names, teleport', total') && ScoresByRank(scores', s, names, rank');
    UndirectedIsUnique(g, g', names, rels, rels');
    assert |rank| == |names| by { UndirectedIsLevel(g, names, rels); }
    TeleportIsUnique(teleport, teleport', s, names, total, total');
    RankingIsUnique(g, teleport, rank, rank', iterations, iterations');
    ScoresAreUnique(scores, scores', s, names, rank);
  }

  // The scores over the listed counts and times are those of the graph.
  lemma ListedImportances(scores: map<string, real>, names: seq<string>, rels: seq<Relation>, s: Scoring)
    requires forall x :: x in names <==> x in s.entities
    requires AreImportances(scores, names, rels, Linked(s.mentions, names), Counted(s.entities, names),
      LastSeen(s.entities, names), s.ln1p, s.recency)
    ensures AreImportancesFrom(scores, names, rels, s)
  {
    hide IsUndirected, IsRanking, AreScores, FavoursMentions;
    var linked, counted := Linked(s.mentions, names), Counted(s.entities, names);
    var last := LastSeen(s.entities, names);
    var g, teleport, total, rank, iterations :|
      && IsUndirected(g, names, rels) && IsRanking(g, teleport, rank, iterations)
      && FavoursMentions(teleport, linked, counted, s.ln1p, total) && AreScores(scores, names, rank, last, s.recency);
    ListedTeleport(s, names, teleport, total);
    ListedScores(scores, s, names, rank);
    hide ScoresByRank, TeleportsByMentions;
    assert IsUndirected(g, names, rels) && IsRanking(g, teleport, rank, iterations)
      && TeleportsByMentions(s, names, teleport, total) && ScoresByRank(scores, s, names, rank);
  }

  lemma ListedTeleport(s: Scoring, names: seq<string>, teleport: seq<real>, total: real)
    requires forall x :: x in names <==> x in s.entities
    requires FavoursMentions(teleport, Linked(s.mentions, names), Counted(s.entities, names), s.ln1p, total)
    ensures TeleportsByMentions(s, names, teleport, total)
  {
  }

  lemma ListedScores(scores: map<string, real>, s: Scoring, names: seq<string>, rank: seq<real>)
    requires forall x :: x in names <==> x in s.entities
    requires AreScores(scores, names, rank, LastSeen(s.entities, names), s.recency)
    ensures ScoresByRank(scores, s, names, rank)
  {
    hide HalfShare;
    var last := LastSeen(s.entities, names);
    forall i: nat, k: nat, l | i < |names| && k < |names| && rank[k] > 0.0 && IsLastMentioned(s.entities, l)
      ensures ScoreFades(scores, s, names, rank, i, k, l)
    {
      var at: nat :| at < |names| && names[at] == l;
      assert IsLatest(last, at);
      assert IsFaded(scores, names, rank, last, s.recency, i, k, at);
    }
  }

  // Entities, mention lists and relations determine every score.
  lemma ImportancesAreUnique(scores: map<string, real>, scores': map<string, real>, s: Scoring)
    requires AreImportancesOf(scores, s) && AreImportancesOf(scores', s)
    ensures scores == scores'
  {
    hide SortedBy, AreImportancesFrom, Distinct;
    var known := s.entities.Keys;
    var names, rels :| Lists(names, rels, known, s.relations) && AreImportancesFrom(scores, names, rels, s);
    var names', rels' :| Lists(names', rels', known, s.relations) && AreImportancesFrom(scores', names', rels', s);
    ListsAgree(names, rels, names', rels', known, s.relations);
    SameOrderSameScores(scores, scores', names, rels, rels', s);
  }

  method ListGraph(g: SimpleEntityGraph) returns (names: seq<string>, rels: seq<Relation>)
    requires g.Structured()
    ensures Lists(names, rels, g.entities.Keys, g.Rels())
  {
    StrLessIsOrder();
    hide StrLess, NoDangling, WellNamed, MentionsKnown, IndexesNodes, AreNodes;
    names := SortedListing(StrLess, g.entities.Keys);
    rels := NamedAll(g.graph, g.graph.edges);
    Storage.AllNamed(g.graph);
    TriplesAreOrdered(rels);
    assert forall r :: r in SetOf(rels) <==> r in rels;
  }

  method CommunitiesOf(g: SimpleEntityGraph) returns (out: map<string, nat>)
    requires g.Structured()
    ensures AreTopicsOf(out, g.entities.Keys, g.Rels()) && NumberedBySize(out)
  {
    hide AreTopics, StrLess, NumberedBySize;
    var names, rels := ListGraph(g);
    out := FindCommunities(names, rels);
  }

  ghost function ScoringOf(g: SimpleEntityGraph, ln1p: nat -> real, recency: nat -> real): Scoring
    reads g
    requires g.Structured()
  {
    Scoring(g.entities, g.mentions, g.Rels(), ln1p, recency)
  }

  method ImportanceOf(g: SimpleEntityGraph, ln1p: nat -> real, recency: nat -> real)
    returns (scores: map<string, real>)
    requires g.Structured()
    requires forall k :: ln1p(k) >= 0.0
    requires forall age :: 0.0 < recency(age) <= 1.0
    ensures g.entities == map[] ==> scores == map[]
    ensures g.entities != map[] ==> AreImportancesOf(scores, ScoringOf(g, ln1p, recency))
  {
    hide AreImportances, AreImportancesFrom, StrLess;
    var names, rels := ListGraph(g);
    scores := ComputeImportance(names, rels, Linked(g.mentions, names), Counted(g.entities, names),
      LastSeen(g.entities, names), ln1p, recency);
    ghost var s := ScoringOf(g, ln1p, recency);
    if |names| > 0 {
      assert names[0] in g.entities;
      ListedImportances(scores, names, rels, s);
    } else {
      assert forall x :: x in g.entities ==> x in names;
    }
  }

  // A graph that was stored and loaded gives the same topics and scores.
  method AnalyzeReloaded(g: SimpleEntityGraph, now: Time, ln1p: nat -> real, recency: nat -> real)
    returns (topics: map<string, nat>, topics': map<string, nat>, scores: map<string, real>, scores': map<string, real>)
    requires g.Valid()
    requires forall k :: ln1p(k) >= 0.0
    requires forall age :: 0.0 < recency(age) <= 1.0
    ensures topics == topics' && scores == scores'
    ensures AreTopicsOf(topics, g.entities.Keys, g.Rels())
    ensures g.entities != map[] ==> AreImportancesOf(scores, ScoringOf(g, ln1p, recency))
  {
    hide AreImportancesOf, AreTopicsOf, AliasExact, IsStructured;
    topics := CommunitiesOf(g);
    scores := ImportanceOf(g, ln1p, recency);
    var h := StoreAndLoad(g, now);
    topics' := CommunitiesOf(h);
    scores' := ImportanceOf(h, ln1p, recency);
    GraphTopicsAreUnique(topics, topics', g.entities.Keys, g.Rels());
    if g.entities != map[] {
      ImportancesAreUnique(scores, scores', ScoringOf(g, ln1p, recency));
    }
  }
}
