# The knowledge-graph engine, modelled and proved

This project models the knowledge graph of `post-cortex-core`, the graph
analytics on it, and the traversals, result cache and query language that
`post-cortex-memory` builds on it, and proves what they promise for every
input, every run and every reachable state. `dafny verify dfyconfig.toml`
checks all of it.

The files, in the order of their dependencies:

- `Types`, `Sorting`, `Strings`, `Sums`: stored values, the stable sort, the
  order of strings, finite sums over reals.
- `Undirected`, `Levels`, `Louvain`, `Adjacency`, `Aggregation`,
  `Communities`, `Components`, `TopicCommunities`: the undirected weighted
  graph, modularity, one Louvain level in place over arrays, aggregation, the
  loop over levels, and the numbered communities.
- `PageRank`, `Importance`: the random surfer, the iteration over adjacency
  lists, and the scores.
- `DiGraph`, `Names`, `Quotient`, `Mentions`, `GraphState`: the directed
  multigraph with dense indices and swap-removal, name keys and the alias
  index, merging as a quotient, mention lists, and the state invariant.
- `Reach`, `Rebuild`, `Roots`, `Classes`, `Merging`, `Outcome`, `Grouping`,
  `Conflicts`: breadth-first distances, the claims and merges of an index
  rebuild, groups of entities connected by shared keys, what merged entities
  stand for, when the rebuild does what it is meant to, and when it does not.
- `Recording`, `EntityGraph`, `Storage`, `Cases`, `Network`, `Analytics`: what
  an update makes of every entity, the mutable graph as a class with the fields
  of the original, the canonical stored form with its round trip, stored
  entities for which the rebuild goes wrong, both neighbourhood searches, and
  the topics and scores of a graph.
- `Risks`, `Impact`, `GraphRag`, `Chains`, `AliasCandidates`: layered impact
  analysis and the records at risk, the depth-limited traversal with a shared
  visited set and the graphs that defeat it, and the prefix scan over sorted
  keys.
- `QueryCache`: the scoped result cache as a class, its eviction, and the
  agreement of every hit with a fresh search.
- `JsonPath`, `JsonPathParser`, `JsonPathGrammar`: the meaning of paths and the
  locations they lead to, the executor, the parser, the spelling of paths, and
  the grammar of the texts the parser accepts.

How the original's terms are rendered:

- `f64` is `real`. `ln_1p`, the recency power and `ln` are parameters with the
  signs and ranges the scores need.
- The directed multigraph is a sequence of node names and a sequence of
  (source, target, kind, context). Removing a node drops its edges and moves
  the last node into the hole. A node's edges are listed most recent first.
- Record ids and times are integers; the current time is a parameter.
- `Structured` is the part of the graph's invariant that every operation
  keeps in any state, and `Valid` adds that the alias index is exact.
- In the cache a query is identified by the hash and text of its parameters,
  and a search is a function of those and the session contents.

Where the code and its comments differ, the model follows the code:

- Impact analysis describes a required-by relation as making only its target
  depend on its source (crates/post-cortex-memory/src/context_assembly.rs:407-410),
  but the first test also takes it as a dependency of the source on the
  target. `Impact.DescribedExactlyWhen` and `Impact.AnalyzeImpact` state
  exactly when the results are the described ones.
- The traversal of relations does not report everything within its depth
  limit: an entity first reached by a long path blocks the shorter one.
  `Chains.CompleteExactlyWhen` states exactly for which limits it does.
- Rebuilding the alias index is described as merging entities whose names share
  a key into the earliest mentioned one
  (crates/post-cortex-core/src/graph/entity_graph.rs:471-472), that is, as
  leaving just the earliest of each group connected by shared keys, and each
  key with one entity. An entity that shares keys with two groups can make the
  earlier of them go into the later one: `Cases.LoadLetters`. Where aliases
  have keys of other entities' own names, a name can even be left to an entity
  that is not called that: `Cases.LoadMisnamedLetters`. Where no alias has such
  a key, each key is always left with one entity and each group becomes one,
  and `Grouping.GroupingExactlyWhen` states exactly when that one is the
  earliest: when no entity lists a key leading to the earliest of its group
  before the first key leading to another part of it. For any stored entities
  the outcome is the described one if each group has one entity that no
  earlier one shares a key with (`Outcome.RebuildExactlyWhen`).
  `Conflicts.FirstListedIsLost` states for any entity before which single
  roots were met, and which lists a key leading to one of them before a key
  of another, that the former goes.

## Model

| member | source | states |
|---|---|---|
| Undirected.BuildUndirected | crates/post-cortex-core/src/graph/analytics.rs:36-55 | the adjacency lists hold, for every two different entities, exactly the summed weight of the relations between them in either direction, each neighbour listed once, no self loops, rows agreeing with each other |
| Undirected.PairTotalSymmetric | crates/post-cortex-core/src/graph/analytics.rs:40-47 | the weight between two entities does not depend on the direction of the relations or the order of the pair |
| Undirected.PairTotalOfAny | crates/post-cortex-core/src/graph/analytics.rs:40-47 | the weight between two entities does not depend on the order in which the relations come |
| Louvain.ComputeDegrees | crates/post-cortex-core/src/graph/analytics.rs:208-217 | the computed degrees are the row sums of the symmetric weight matrix (a self loop, listed once, counts twice) and their sum is twice the total weight |
| Louvain.LinksOf | crates/post-cortex-core/src/graph/analytics.rs:229-235 | the link map holds exactly the neighbouring communities, each with the weight from the node to its other members |
| Levels.GainFormula | crates/post-cortex-core/src/graph/analytics.rs:236 | the gain computed from one link weight and one community total equals the excess weight of the node towards the whole community |
| Levels.MoveChangesModularity | crates/post-cortex-core/src/graph/analytics.rs:203-206 | relabelling one node changes the modularity by exactly twice the difference of the two gains over the total weight |
| Louvain.BestCommunity | crates/post-cortex-core/src/graph/analytics.rs:236-243 | the chosen community is the node's own or a neighbouring one that gains more by over 1e-12, and no neighbouring one beats the choice by more than that |
| Louvain.TotalsFollow | crates/post-cortex-core/src/graph/analytics.rs:227-245 | taking a node's degree out of its community total and into another's keeps every total equal to the summed degrees of the members |
| Louvain.MoveNode | crates/post-cortex-core/src/graph/analytics.rs:226-247 | an accepted move strictly increases the modularity by more than a fixed step, the totals stay the summed degrees of the members, labels stay within connected components, and a node left in place has no better neighbouring community |
| Louvain.LouvainPass | crates/post-cortex-core/src/graph/analytics.rs:224-250 | a pass that moved anything raised the modularity by at least the step; a pass that moved nothing leaves every node settled |
| Louvain.LouvainLevel | crates/post-cortex-core/src/graph/analytics.rs:206-253 | a level never lowers the modularity, strictly raises it when anything moved, stays within connected components, and ends with every node settled unless the pass limit was used up on 32 improving passes; the running totals and early stop give the labels of at most 32 passes in which each node in turn takes its best gain |
| Adjacency.RowsFromPairs | crates/post-cortex-core/src/graph/analytics.rs:166-172 | turning a map of unordered pairs into adjacency lists gives each neighbour once, self loops listed once, with exactly the weight of the pair |
| Adjacency.CanonicalIsUnique | crates/post-cortex-core/src/graph/analytics.rs:36-55 | lists in ascending order without zero weights are determined by the weights between nodes |
| Aggregation.BlockTotal | crates/post-cortex-core/src/graph/analytics.rs:155-173 | summing a matrix by groups of rows and columns and then over all groups gives the sum of the matrix, for every class of pairs that is a union of blocks |
| Aggregation.AggregateDegree | crates/post-cortex-core/src/graph/analytics.rs:155-173 | the degree of an aggregated node is the summed degree of its members |
| Aggregation.AggregateWeight | crates/post-cortex-core/src/graph/analytics.rs:155-173 | aggregating keeps the total weight |
| Aggregation.AggregateModularity | crates/post-cortex-core/src/graph/analytics.rs:155-173 | every partition of the aggregated level has the same modularity as the partition it induces on the level below |
| Aggregation.HalfIsBlock | crates/post-cortex-core/src/graph/analytics.rs:157-165 | collecting each listed link once (the half with i <= j) gives every pair of groups the weight between them, internal weight as a self loop counted once |
| Aggregation.Aggregate | crates/post-cortex-core/src/graph/analytics.rs:157-173 | the next level is a valid level whose weights are the block sums of the weight matrix over the groups, and two groups are adjacent only if two of their members are |
| Communities.Renumber | crates/post-cortex-core/src/graph/analytics.rs:192-201 | equal labels get equal numbers, different labels different ones, in order of first appearance |
| Communities.CountGroups | crates/post-cortex-core/src/graph/analytics.rs:147-148 | the count is the number of groups, one more than the largest number |
| Communities.StepRepresents | crates/post-cortex-core/src/graph/analytics.rs:152-173 | after a step the level below is still represented: the membership induces modularity as the new level's singletons do, and labels stay in their component |
| Communities.Cluster | crates/post-cortex-core/src/graph/analytics.rs:142-174 | the loop ends since levels shrink, with a partition of modularity at least that of all singletons that joins no two connected components, at a level where another round would change nothing; with positive weights it is the one partition the level leads to |
| Communities.PartitionIsUnique | crates/post-cortex-core/src/graph/analytics.rs:142-174 | a level leads to one partition only: passes, numbering and aggregation determine it |
| Communities.NoMergeGains | crates/post-cortex-core/src/graph/analytics.rs:203-206 | at the end no two linked communities gain by being merged, beyond what the 1e-12 margin allows |
| Components.CommunitiesAreJoined | crates/post-cortex-core/src/graph/analytics.rs:135-139 | two entities in one community are joined by a walk along weighted relations |
| TopicCommunities.NumberCommunities | crates/post-cortex-core/src/graph/analytics.rs:176-181 | the groups are exactly the communities of at least two members, each listed once in full; none is smaller than a later one, and of two of one size the earlier has the lesser first member |
| TopicCommunities.FindCommunities | crates/post-cortex-core/src/graph/analytics.rs:139-189 | the numbers come from a partition of modularity at least that of singletons, with connected communities, at which no single move would gain; an entity is listed exactly when it shares its community with another, under its community's number; for names in order, the numbers count the communities from the largest, ties by the first name |
| TopicCommunities.TopicsBySize | crates/post-cortex-core/src/graph/analytics.rs:135-138 | of any two numbers the smaller one has at least as many entities, and if as many, an entity named before all of the other's; no number has only one |
| TopicCommunities.NumberIsCommunity | crates/post-cortex-core/src/graph/analytics.rs:182-187 | two listed entities have the same number exactly when they are in the same community |
| TopicCommunities.TopicsAreUnique | crates/post-cortex-core/src/graph/analytics.rs:139-189 | the numbers are determined by the names and the set of relations, in whatever order the relations come |
| Analytics.CommunitiesOf | crates/post-cortex-core/src/graph/analytics.rs:139-189 | the topics of a graph are those of its entity names in order and its relations, numbered from the largest community, ties by the first name |
| Analytics.GraphTopicsAreUnique | crates/post-cortex-core/src/graph/analytics.rs:4-10 | graphs with the same entities and relations have the same topics |
| PageRank.IterateKeepsMass | crates/post-cortex-core/src/graph/analytics.rs:88-108 | an iteration keeps all ranks positive and their sum 1, nodes without links included |
| PageRank.IterateContracts | crates/post-cortex-core/src/graph/analytics.rs:88-107 | an iteration shrinks the L1 distance of any two rank vectors by at least the damping factor |
| PageRank.ChangesShrink | crates/post-cortex-core/src/graph/analytics.rs:88-112 | each iteration changes the ranks by at most the damping factor times the previous change, so the change of iteration k is at most 2 * 0.85^(k-1) |
| PageRank.NearStationary | crates/post-cortex-core/src/graph/analytics.rs:107-111 | a small last step bounds the distance to any stationary rank vector |
| PageRank.StationaryUnique | crates/post-cortex-core/src/graph/analytics.rs:62-66 | there is at most one stationary rank vector |
| Importance.TransitionIsStochastic | crates/post-cortex-core/src/graph/analytics.rs:86-106 | following links by weight, and teleporting from nodes without links, is a probability transition |
| Importance.NextIsIterate | crates/post-cortex-core/src/graph/analytics.rs:90-106 | the two sums of the code, teleport with dangling mass and shares along links, make one step of the random surfer |
| Importance.NextRank | crates/post-cortex-core/src/graph/analytics.rs:89-106 | one pass over the adjacency lists computes one step of the random surfer |
| Importance.RankNodes | crates/post-cortex-core/src/graph/analytics.rs:87-112 | the result is the iterate at which the change first fell below the tolerance, or the hundredth; ranks are positive and sum to 1; every later iterate and every stationary ranking lies within 2 * 0.85^k, and within tolerance * 0.85 / 0.15 after an early stop |
| PageRank.LaterIterates | crates/post-cortex-core/src/graph/analytics.rs:95-110 | every later iterate stays within 2 * 0.85^k of iterate k |
| PageRank.LaterChanges | crates/post-cortex-core/src/graph/analytics.rs:95-110 | every later iterate stays within 0.85 / 0.15 of the last change |
| Importance.Normalise | crates/post-cortex-core/src/graph/analytics.rs:82-84 | the teleport weights are scaled to a positive distribution |
| Importance.TeleportWeights | crates/post-cortex-core/src/graph/analytics.rs:74-82 | each weight is 1 plus the logarithmic weight of the larger of linked and counted mentions |
| Importance.ScoreRange | crates/post-cortex-core/src/graph/analytics.rs:62-66 | a score lies between half the share of the largest rank and that share, and is 1 for the most central fresh entity |
| Importance.ScoreAll | crates/post-cortex-core/src/graph/analytics.rs:114-126 | every score is the share of the largest rank faded by half the recency, in (0, 1]; the most central entity mentioned last scores 1 |
| Importance.ComputeImportance | crates/post-cortex-core/src/graph/analytics.rs:67-127 | every entity gets a score in (0, 1], its faded share of the largest rank, from the PageRank iterate of the undirected relation graph with the teleport that favours mentions; none for an empty graph |
| Analytics.ImportanceOf | crates/post-cortex-core/src/graph/analytics.rs:67-127 | every entity's score is its share of the top rank, faded by the time from its own last mention to the last mention of any; the ranks are those of the surfer drawn to each entity by the larger of the records linked to it and its counted mentions; none for an empty graph |
| Analytics.ImportancesAreUnique | crates/post-cortex-core/src/graph/analytics.rs:4-10 | graphs with the same entities, mention lists and relations have the same scores |
| Analytics.AnalyzeReloaded | crates/post-cortex-core/src/graph/analytics.rs:4-10 | a graph that was stored and loaded has the same topics and the same scores |
| DiGraph.RelationsAreUnique | crates/post-cortex-core/src/graph/entity_graph.rs:815-821 | a valid graph holds at most one relation per (from, to, kind) |
| DiGraph.PutEdgeUpserts | crates/post-cortex-core/src/graph/entity_graph.rs:834-853 | updating the context of the edge that matches, or adding one, replaces exactly the relation with the same ends and kind |
| DiGraph.RemoveNodeRelations | crates/post-cortex-core/src/graph/entity_graph.rs:404-427 | removing a node drops exactly the relations that touch it, although the last node moves into the hole |
| DiGraph.RelationsAtNode | crates/post-cortex-core/src/graph/entity_graph.rs:1593-1609 | outgoing edges and incoming non-loops of a node name exactly the relations touching it, each once |
| DiGraph.EdgesAreOutThenIn | crates/post-cortex-core/src/graph/entity_graph.rs:1596-1609 | the edges at a node are listed outgoing ones first, later ones before earlier ones |
| Names.ResolveByKey | crates/post-cortex-core/src/graph/entity_graph.rs:431-436 | the exact-name fast path agrees with the index lookup, so resolution depends on the key alone |
| Names.SameKeySameEntity | crates/post-cortex-core/src/graph/entity_graph.rs:209-226 | two spellings with one key refer to the same entity, and no two entities share a key |
| Names.KeyIgnoresSeparator | crates/post-cortex-core/src/graph/entity_graph.rs:209-226 | a blank, '-' or '_' anywhere in a name does not change its key, if some other character is in it |
| Names.KeyIgnoresCase | crates/post-cortex-core/src/graph/entity_graph.rs:209-226 | the case of a letter does not change the key |
| Names.PlainIsKey | crates/post-cortex-core/src/graph/entity_graph.rs:209-226 | a name without capitals and separators is its own key, and so is a name of separators alone |
| Names.AliasExactUnique | crates/post-cortex-core/src/graph/entity_graph.rs:191-193 | the entities determine the alias index |
| Names.TouchKeepsExact | crates/post-cortex-core/src/graph/entity_graph.rs:718-732 | recording a mention under a new spelling keeps every name and alias indexed to its entity |
| Names.AbsorbKeepsExact | crates/post-cortex-core/src/graph/entity_graph.rs:529-557 | after a merge every name and alias of the target, taken-over ones included, is indexed to it and nothing dangles |
| Names.AbsorbTakesOver | crates/post-cortex-core/src/graph/entity_graph.rs:531-544 | after a merge the target counts for both, has the earlier first and the later last mention, the higher importance and its own description or else the merged entity's, and the names of both, the new ones last and in their order |
| Impact.FallbackIsIdle | crates/post-cortex-memory/src/graph_views.rs:1189-1202 | with an exact index the case-insensitive fallback finds nothing that resolving does not |
| Quotient.MergeIsQuotient | crates/post-cortex-core/src/graph/entity_graph.rs:519-575 | re-adding the merged entity's renamed relations, self loops skipped, gives the old relations without it plus its renamed ones, one per triple |
| Quotient.MergedTriples | crates/post-cortex-core/src/graph/entity_graph.rs:564-574 | after a merge a (from, to, kind) triple exists exactly when it is the image of an old one that does not become a self loop |
| Classes.MergeConservesMentions | crates/post-cortex-core/src/graph/entity_graph.rs:531-532 | a merge keeps the total mention count |
| Classes.RecordAllCounts | crates/post-cortex-core/src/graph/entity_graph.rs:723-759 | recording the entities of an update adds exactly their number to the total mention count |
| Mentions.MovedIsUnion | crates/post-cortex-core/src/graph/entity_graph.rs:559-563 | the target's mention ids become the duplicate-free union, its own first; other lists stay |
| Mentions.MentionAllEffect | crates/post-cortex-core/src/graph/entity_graph.rs:625-638 | linking an update adds its id exactly to the entities one of its names refers to, once, however many spellings it uses |
| Mentions.MentionedAreSaid | crates/post-cortex-core/src/graph/entity_graph.rs:228-243 | the names an update mentions are its typed, created and referenced entities and the ends of its relations |
| Mentions.LinkUpdateLinks | crates/post-cortex-core/src/graph/entity_graph.rs:625-638 | after linking, an entity has the update's id if it had it before or one of those names refers to it, and only then; what it had before comes first, and no other id appears |
| Mentions.LinkAllIsFirstMentions | crates/post-cortex-core/src/graph/entity_graph.rs:640-657 | linking update after update from empty lists gives each entity the ids of the updates mentioning it in order of first mention |
| Mentions.FirstMentionsMeaning | crates/post-cortex-core/src/graph/entity_graph.rs:640-657 | those lists have no repeats, hold exactly the mentioning updates, and only grow at the end |
| Mentions.FirstMentionsInOrder | crates/post-cortex-core/src/graph/entity_graph.rs:640-657 | of two ids the earlier listed one was mentioned by an update before any mentioned the entity under the other |
| GraphState.NodeIndexIsInverse | crates/post-cortex-core/src/graph/entity_graph.rs:182-193 | the two index maps are mutual inverses over exactly the node indices and the entity names |
| GraphState.RemovalKeepsIndexes | crates/post-cortex-core/src/graph/entity_graph.rs:407-427 | patching both maps after a swap-removal keeps them mutual inverses |
| GraphState.RemovalKeepsStructure | crates/post-cortex-core/src/graph/entity_graph.rs:407-427 | removal keeps the whole structural invariant and exactly the relations that do not touch the entity |
| GraphState.GrowthKeepsResolution | crates/post-cortex-core/src/graph/entity_graph.rs:431-436 | while the graph only grows, a known name keeps referring to the same entity |
| GraphState.AddedIsRecorded | crates/post-cortex-core/src/graph/entity_graph.rs:822-854 | adding a relation creates missing entities, forgets nothing, and records it between the entities its ends refer to unless they are spellings of one |
| EntityGraph.SimpleEntityGraph.constructor | crates/post-cortex-core/src/graph/entity_graph.rs:380-389 | an empty graph satisfies the full invariant |
| EntityGraph.SimpleEntityGraph.Clear | crates/post-cortex-core/src/graph/entity_graph.rs:392-399 | clearing empties everything and keeps the full invariant |
| EntityGraph.SimpleEntityGraph.RemoveEntity | crates/post-cortex-core/src/graph/entity_graph.rs:407-427 | the entity, its mentions, its index entries and its relations go, nothing else changes, and the invariant holds again after the last node moved into the hole |
| EntityGraph.SimpleEntityGraph.AddOrUpdateEntity | crates/post-cortex-core/src/graph/entity_graph.rs:711-768 | a known entity's last mention, count, missing description and spelling are updated and the rest of it stays, an unknown name becomes a fresh indexed entity with the given kind, time and description; other entities, relations and mentions stay |
| EntityGraph.SimpleEntityGraph.GetOrCreateNode | crates/post-cortex-core/src/graph/entity_graph.rs:772-799 | the node returned is that of the entity the name refers to, created if unknown |
| EntityGraph.SimpleEntityGraph.AddRelationship | crates/post-cortex-core/src/graph/entity_graph.rs:822-854 | idempotent on (from, to, kind): the relation between the referred entities is added or its context replaced; two spellings of one entity add nothing; unknown ends become fresh concepts, known entities do not change |
| EntityGraph.SimpleEntityGraph.RelationshipsOf | crates/post-cortex-core/src/graph/entity_graph.rs:1596-1609 | exactly the relations touching the entity, each once, outgoing ones first, later ones before earlier ones |
| EntityGraph.SimpleEntityGraph.MergeEntities | crates/post-cortex-core/src/graph/entity_graph.rs:506-576 | false and unchanged unless both names are known and distinct; else entities, mentions, relations and index are those of the graph quotient, the target takes over counts, times, importance, description and names, other entities stay, and the full invariant is kept |
| EntityGraph.SimpleEntityGraph.LinkMentions | crates/post-cortex-core/src/graph/entity_graph.rs:625-638 | every entity that one of the update's typed, created or referenced names or relation ends refers to is linked to it, once and after the records it had; nothing else changes |
| EntityGraph.SimpleEntityGraph.RelinkMentions | crates/post-cortex-core/src/graph/entity_graph.rs:643-657 | every entity has exactly the ids of the updates that mention it, once each, in the order of their first mention, although duplicates are removed differently from linking one by one |
| EntityGraph.SimpleEntityGraph.ApplyUpdate | crates/post-cortex-core/src/graph/entity_graph.rs:596-620 | every entity the update creates is mentioned as many times more as the update names it, last at the update's time, under all spellings used, and a new one has the kind it is first named with and a note of the title; unknown relation ends become fresh concepts; all other entities stay; all relations are recorded; every entity the update mentions, and no other, is linked to it; nothing is lost and the full invariant holds |
| Recording.CreatedIs | crates/post-cortex-core/src/graph/entity_graph.rs:596-615 | the entities created are the typed ones as given, or else the created names as concepts, with a note of who named them and the title |
| Recording.RecordsStep | crates/post-cortex-core/src/graph/entity_graph.rs:711-768 | recording one more name keeps every entity what the names so far make of it: one mention for each, all spellings, the first kind |
| Recording.RecordsApply | crates/post-cortex-core/src/graph/entity_graph.rs:596-620 | adding the relations leaves those records as they are |
| EntityGraph.SimpleEntityGraph.RebuildAliasIndex | crates/post-cortex-core/src/graph/entity_graph.rs:471-500 | for any stored entities only ones connected by shared keys come together, names, counts, mentions and relations of each class are carried over, and every stored name still refers to an entity; where every connected group has one entity that no earlier one shares a key with, the index is exact and each group becomes its earliest; where no alias has the key of another entity's own name, the index is exact, each group becomes one entity, and all of them become their earliest if and only if names are listed so that the earliest comes last; without conflicting names nothing changes, without aliases one entity per key remains |
| EntityGraph.Replay | crates/post-cortex-core/src/graph/entity_graph.rs:176-194 | after any run of updates, mentions, relations, merges and removals each name and alias refers to its own entity, and equal keys to the same one |
| Strings.FirstDifferenceDecides | crates/post-cortex-core/src/graph/entity_graph.rs:471-479 | names are ordered by their first differing character, a name before its extensions |
| Rebuild.KeysGoToEarliest | crates/post-cortex-core/src/graph/entity_graph.rs:473-495 | every key goes to the earliest entity, by (first mention, name), that has it |
| Rebuild.ExactIsServed | crates/post-cortex-core/src/graph/entity_graph.rs:473-495 | when an exact index exists, claiming keys in any order gives it and calls for no merge |
| Rebuild.MergesAreLate | crates/post-cortex-core/src/graph/entity_graph.rs:480-495 | the merges called for are, entity by entity in the mention order and name by name, those into the owners of keys that another entity owns |
| Roots.RootIsEarliest | crates/post-cortex-core/src/graph/entity_graph.rs:471-472 | with one root per group, entities have the same root exactly when they are connected by shared keys, and the root is the earliest of them |
| Roots.ExactSingleRoots | crates/post-cortex-core/src/graph/entity_graph.rs:471-472 | where an exact index exists every entity is its own root, so the general condition holds |
| Merging.RebuildTracks | crates/post-cortex-core/src/graph/entity_graph.rs:497-499 | after the merges called for, whatever the stored entities, classes hold connected entities only, names, counts, mentions and relations are those of the classes, each remaining entity has its own kind and the first mention, last mention and importance of its class, and every key of a stored entity has an owner that has it |
| Outcome.FoldIsRooted | crates/post-cortex-core/src/graph/entity_graph.rs:480-499 | with one root per group the merges fold entity after entity of the mention order into its root, and the index follows |
| Outcome.RebuildExactlyWhen | crates/post-cortex-core/src/graph/entity_graph.rs:471-500 | where every group connected by shared keys has one entity that no earlier one shares a key with, each group becomes its earliest and the index is exact; no other stored entities end with just the entities that no earlier one shares a key with and an exact index |
| Grouping.FoldGroups | crates/post-cortex-core/src/graph/entity_graph.rs:480-499 | where no alias has the key of another entity's own name, the merges up to each entity of the mention order bring together exactly the entities connected by shared keys among those |
| Grouping.LaterNameLoses | crates/post-cortex-core/src/graph/entity_graph.rs:480-499 | if one name of an entity leads to another entity, and a later name to one that no name up to the former leads to, the other entity is merged away, even the earliest of the group |
| Grouping.GroupingExactlyWhen | crates/post-cortex-core/src/graph/entity_graph.rs:471-500 | where no alias has the key of another entity's own name, every key is left with one entity and every connected group becomes one; the entities that remain are the earliest of each group if and only if, whenever a name of an entity leads to the earliest of a group, no later name leads to anything the names up to it do not lead to |
| Conflicts.FirstListedIsLost | crates/post-cortex-core/src/graph/entity_graph.rs:480-499 | if the entities mentioned before an entity have single roots, and it lists names whose keys lead to one root, then a key of another of those roots, the first of the two roots disappears, even if it was mentioned first of all |
| Cases.ChainMerges | crates/post-cortex-core/src/graph/entity_graph.rs:480-495 | for stored entities a, b, c mentioned in this order, where c shares one alias with a and one with b, the rebuild calls for merging c into a and then c into b |
| Cases.RebuildChain | crates/post-cortex-core/src/graph/entity_graph.rs:473-500 | rebuilding the index of such a graph keeps b alone, and not a, the earliest |
| Cases.LoadLetters | crates/post-cortex-core/src/graph/entity_graph.rs:333-370 | so does loading the stored entities a, b and c with the aliases x, y and both |
| Cases.MisnamedRebuilt | crates/post-cortex-core/src/graph/entity_graph.rs:480-499 | for stored a, b, c and y, where b shares an alias with a, and y has the aliases c and b, in this order, the rebuild keeps a and c; a is called b, but the name b refers to c |
| Cases.LoadMisnamedLetters | crates/post-cortex-core/src/graph/entity_graph.rs:333-370 | loading such entities gives a graph whose index is not exact: its entity a has the alias b, which resolves to c |
| Classes.QuotientStep | crates/post-cortex-core/src/graph/entity_graph.rs:497-499 | one merge after another composes to the quotient by the representatives |
| Classes.MergedClassesStep | crates/post-cortex-core/src/graph/entity_graph.rs:497-499 | merging keeps every remaining entity named by and counting for exactly its class |
| Classes.AllSpanStep | crates/post-cortex-core/src/graph/entity_graph.rs:531-539 | merging keeps every remaining entity's first mention the earliest, its last mention the latest and its importance the highest of its class, and its own kind and description |
| Classes.MergedMentionsStep | crates/post-cortex-core/src/graph/entity_graph.rs:562-566 | merging keeps every remaining entity linked to exactly the records of its class, once each |
| Reach.WithinIsWalk | crates/post-cortex-core/src/graph/entity_graph.rs:1202-1203 | being within d steps is being joined by a walk of at most d steps |
| Reach.DistanceIsLeast | crates/post-cortex-core/src/graph/entity_graph.rs:1202-1203 | the distance is the least number of steps |
| Reach.BfsExpand | crates/post-cortex-core/src/graph/entity_graph.rs:1228-1262 | expanding the head of the queue keeps distances exact, the queue ordered over two layers, and everything expanded closed |
| Reach.BfsDone | crates/post-cortex-core/src/graph/entity_graph.rs:1228-1229 | when the queue is empty exactly what is within the limit has been found |
| Network.GetEntityNetwork | crates/post-cortex-core/src/graph/entity_graph.rs:1203-1318 | exactly the entities within undirected distance max_depth and exactly the relations with an end nearer than that, each once; nothing for an unknown centre |
| Network.ScanBounded | crates/post-cortex-core/src/graph/entity_graph.rs:1367-1383 | scanning an entity's relations adds other ends and relations up to the limits, and leaves something out only when a limit is reached |
| Network.GetEntityNetworkBounded | crates/post-cortex-core/src/graph/entity_graph.rs:1329-1387 | both limits hold, relations connect entities of the result, no entity nearer than a kept one is missing, all relations between kept entities with an end below the depth limit are listed unless the relation limit is reached, and under loose limits the result is that of the unbounded search |
| Storage.SerializedIsSorted | crates/post-cortex-core/src/graph/entity_graph.rs:271-291 | the stored form lists every node once by name and every relation exactly once, by source, target and kind as declared |
| Storage.StoredFormIsCanonical | crates/post-cortex-core/src/graph/entity_graph.rs:271-291 | two graphs are stored alike exactly when they have the same nodes and relations, whatever built them |
| Storage.DeserializeGraph | crates/post-cortex-core/src/graph/entity_graph.rs:295-329 | any stored graph can be read: nodes in stored order, edges with an unknown end dropped, the others kept in order |
| Storage.Deserialize | crates/post-cortex-core/src/graph/entity_graph.rs:333-370 | loading rebuilds both index maps and the alias index, with the outcome of the rebuild for the stored entities, both its conditions included, and the edges between known nodes; entities without conflicting names come back as stored |
| Storage.StoreAndLoad | crates/post-cortex-core/src/graph/entity_graph.rs:255-370 | storing and loading gives the same entities, mentions, relations and index, so every name resolves as before, and the same stored form |
| Impact.AnalyzeImpact | crates/post-cortex-memory/src/context_assembly.rs:379-426 | walking only the queried entities' edges lists exactly the (entity, depends_on) pairs that a scan of all relations gives, each once, with a relation that shows it; they are the pairs of the described dependency exactly when what a queried entity requires depends back on it anyway |
| Impact.DescribedExactlyWhen | crates/post-cortex-memory/src/context_assembly.rs:400-416 | the code's dependency and the described one agree on the queried entities exactly when, for every required-by relation into one of them, the described dependency of its source on its target also holds |
| Impact.LayerStep | crates/post-cortex-memory/src/graph_views.rs:445-468 | the entities seen after one more hop are exactly those within one more dependency step |
| Impact.EmptyLayer | crates/post-cortex-memory/src/graph_views.rs:464-466 | when a layer is empty every layer beyond it is |
| Impact.Dependents | crates/post-cortex-memory/src/graph_views.rs:443-469 | exactly the entities reachable by a dependency chain of at most max(depth, 1) hops, each once and never the entity itself, nearest first, with the shortest chain length and a via one hop nearer |
| Impact.FindEntity | crates/post-cortex-memory/src/graph_views.rs:1189-1202 | the entity a name resolves to, or else the first whose name differs only in case |
| Impact.ImpactView | crates/post-cortex-memory/src/graph_views.rs:440-501 | no view exactly when the name means no entity; else the dependents of the entity it means and the latest records at risk about any of them |
| Risks.FindRisks | crates/post-cortex-memory/src/graph_views.rs:473-495 | the latest, up to the limit, of exactly the current decisions, requirements and solved problems that mention one of the entities, each once; none is older than a later listed or left out one |
| GraphRag.TraverseRelations | crates/post-cortex-core/src/graph/graph_rag.rs:291-329 | the recursive traversal with shared visited set and results computes the traversal function |
| GraphRag.TraverseKeeps | crates/post-cortex-core/src/graph/graph_rag.rs:291-329 | every call keeps each reached entity reported once, never the start, with the length of a real walk as depth, and covers what it reports below the limit |
| GraphRag.TraversalIsSound | crates/post-cortex-core/src/graph/graph_rag.rs:246-277 | a whole traversal is sound and stays within the limit |
| GraphRag.DeepTraversalIsComplete | crates/post-cortex-core/src/graph/graph_rag.rs:246-277 | with a limit of at least the entity count less one the start's whole connected component is reported |
| Chains.ChainMisses | crates/post-cortex-core/src/graph/graph_rag.rs:291-329 | in the graph of a chain of m + 1 links with a shortcut to its last but one entity, for every limit m of at least 2, an entity two steps away is missed |
| Chains.CompleteExactlyWhen | crates/post-cortex-core/src/graph/graph_rag.rs:291-329 | all graphs of n entities, and all with an exact alias index, are searched completely within the limit exactly when the limit is at most 1 or at least n - 1 |
| GraphRag.FindRelatedWithDepth | crates/post-cortex-core/src/graph/graph_rag.rs:246-288 | the result is the best-ranked part of the traversal: none behind another of a kind listed earlier, or as early and less deep; other entities at the end of walks within the limit, and the whole connected component under a limit that covers the graph |
| AliasCandidates.ExtensionsFollow | crates/post-cortex-memory/src/graph_views.rs:1150-1154 | in key order the keys that extend a key follow it directly |
| AliasCandidates.ExtensionsOf | crates/post-cortex-memory/src/graph_views.rs:1147-1175 | the run after a key yields exactly the entities whose key properly extends it |
| AliasCandidates.CountIsIntersection | crates/post-cortex-memory/src/graph_views.rs:1158-1171 | the shared records are the common mention ids |
| AliasCandidates.FindAliasCandidates | crates/post-cortex-memory/src/graph_views.rs:1138-1185 | the scan finds exactly the pairs a comparison of all pairs finds, each once with the number of records that mention both, and returns those with the most shared records, ties by name |
| QueryCache.QueryCache.constructor | crates/post-cortex-memory/src/query_cache.rs:280-293 | an empty cache satisfies the invariant |
| QueryCache.QueryCache.Get | crates/post-cortex-memory/src/query_cache.rs:296-319 | a hit is exactly a live entry with the same text and serves its results; an expired entry is removed; hits and misses add up to the queries |
| QueryCache.QueryCache.RemoveWhere | crates/post-cortex-memory/src/query_cache.rs:394-411 | exactly the selected entries go and the byte counter and size follow |
| QueryCache.QueryCache.EvictLeastEfficient | crates/post-cortex-memory/src/query_cache.rs:427-459 | a tenth of the capacity, at least one entry, goes, and every evicted entry scores no higher than every kept one |
| QueryCache.FactorsAreUnique | crates/post-cortex-memory/src/query_cache.rs:153-158 | the score is the frequency factor divided by one plus the days since the entry was stored, counted in whole hours and at least one |
| QueryCache.ScoreFavours | crates/post-cortex-memory/src/query_cache.rs:153-158 | an entry stored no earlier and used no less often scores no less |
| QueryCache.BytesOfAll | crates/post-cortex-memory/src/query_cache.rs:162-170 | the results take a fixed size each and the size of their texts |
| QueryCache.QueryCache.MakeRoom | crates/post-cortex-memory/src/query_cache.rs:329-341 | there is room for the key afterwards; a sweep, and a new key at capacity, leave nothing expired, and only if that makes no room exactly one batch of least scores is evicted; every entry gone is counted once as expired or evicted |
| QueryCache.QueryCache.Insert | crates/post-cortex-memory/src/query_cache.rs:322-352 | the entry is stored as not used yet, with the size of its texts and results, the size stays at most max(max_cache_size, 1), the byte counter is the sum over the entries, and no other entry goes without need |
| QueryCache.QueryCache.InvalidateSession | crates/post-cortex-memory/src/query_cache.rs:483-494 | exactly the entries whose scope covers the session go |
| QueryCache.QueryCache.Clear | crates/post-cortex-memory/src/query_cache.rs:467-478 | the cache is empty and the counters follow |
| QueryCache.InvalidatedIsCoherent | crates/post-cortex-memory/src/query_cache.rs:27-30 | after a write and its invalidation every remaining entry equals a fresh search on the new data |
| QueryCache.CoveredCanBeStale | crates/post-cortex-memory/src/query_cache.rs:91-97 | any entry that covers the written session can be stale, so invalidation drops no more than it must |
| QueryCache.Run | crates/post-cortex-memory/src/query_cache.rs:21-30 | over any run of searches, writes each followed by invalidation, and clears, every answer equals a fresh search on the current data |
| JsonPath.SliceMeetsRfc | crates/post-cortex-memory/src/jsonpath.rs:390-402 | slices select what section 2.3.4.2.2 of RFC 9535 prescribes for step 1, within bounds |
| JsonPath.IndexIsSlice | crates/post-cortex-memory/src/jsonpath.rs:372-388 | an index selects the slice of one element that starts there |
| JsonPath.Execute | crates/post-cortex-memory/src/jsonpath.rs:295-338 | the segment-by-segment loop yields the node list of the recursive meaning, in order: nothing for none, the node itself for one, the array of them for more |
| JsonPath.SegmentPicks | crates/post-cortex-memory/src/jsonpath.rs:303-320 | a segment selects, in order, just the children it picks: in an object the first of the name, in an array the one at the index from either end or all from start to before end, or all children |
| JsonPath.UnionInTurn | crates/post-cortex-memory/src/jsonpath.rs:321-327 | a union selects what its indices select, in turn |
| JsonPath.FieldIsFound | crates/post-cortex-memory/src/jsonpath.rs:303-307 | every field of an object with different names is found under its name |
| JsonPath.NoFieldIsFound | crates/post-cortex-memory/src/jsonpath.rs:303-307 | nothing is found under a name that is no key, or in what is no object |
| JsonPath.SelectReaches | crates/post-cortex-memory/src/jsonpath.rs:295-338 | the nodes are just the values the path leads to, position by position |
| JsonPath.SelectInOrder | crates/post-cortex-memory/src/jsonpath.rs:295-338 | without unions every location the path leads to is selected once, in document order |
| JsonPath.SelectComposes | crates/post-cortex-memory/src/jsonpath.rs:295-338 | selecting along two paths in turn is selecting along their concatenation |
| JsonPathParser.ParsePath | crates/post-cortex-memory/src/jsonpath.rs:85-160 | the parser that advances a position computes the parse function, errors and offsets included |
| JsonPathParser.ParseSpelled | crates/post-cortex-memory/src/jsonpath.rs:85-181 | parsing gives back every path from its documented spelling |
| JsonPathParser.ParseableExactlyWhen | crates/post-cortex-memory/src/jsonpath.rs:85-285 | a path comes from some expression exactly when its field names are non-empty words, its numbers fit the machine integer and its unions have at least two members |
| JsonPathGrammar.ParsesExactly | crates/post-cortex-memory/src/jsonpath.rs:85-285 | the parser accepts just the texts of the grammar, each for its path: words after dots, stars, signed integers that fit 64 bits, slices with optional bounds and lists, with blanks around content and numbers |
| JsonPathGrammar.BracketErrors | crates/post-cortex-memory/src/jsonpath.rs:232-286 | rejected bracket content is reported as a call if it ends like one, else as a slice step if it has two colons, else as not an integer |
| JsonPathParser.ForbiddenIsRejected | crates/post-cortex-memory/src/jsonpath.rs:14-18 | an accepted expression contains no call, no filter, no recursive descent, and no two colons within one pair of brackets, so no slice step |

## Left out

- EntityGraph.SimpleEntityGraph.RebuildAliasIndex: where some alias has the key of another entity's own name, only one direction of the condition is stated (single roots give the described outcome); what else happens there is stated by the fold of the merges (Merging.Rebuilt), not in closed form.
- Outcome.RebuildExactlyWhen: the converse it states is about which entities remain with an exact index, not about the earliest of each group; the condition for that is Grouping.GroupingExactlyWhen, where no alias has the key of another entity's own name.
- Storage.Deserialize: requires stored data that fits together (one node per entity, one edge per triple between nodes, mention lists of known entities without repeats); edges with unknown ends may be there, and reading the graph part alone is stated for any data.
- Storage.StoredFormIsCanonical: the JSON text encoding and older edge formats are not modelled.
- Importance.RankNodes: floating-point rounding and the narrowing of scores to 32 bits are not modelled; a stationary ranking is shown to be unique, not to exist, and the error is bounded against every later iterate as well.
- Louvain.LouvainLevel: rounding is not modelled, so gains compare as exact reals with the same 1e-12 margin.
- JsonPathParser.ParsePath: characters are single units and whitespace is the ASCII one, so byte offsets after non-ASCII text are not modelled; messages are reasons without text.
- QueryCache.Run: the cache's counters under concurrent access, and two queries that differ while sharing hash and text, are not modelled.
- QueryCache.QueryCache.EvictLeastEfficient: ties at the cut are broken by the sort here and are unspecified in the original; only the order of scores is claimed.
- GraphRag.FindRelatedWithDepth: the cache of earlier lookups, keyed by the graph's address, is not modelled; reports that rank alike come in the order of the stable sort, which is not claimed.
- Impact.ImpactView: how a record's validity and texts come about is not modelled; which records are current is a parameter, and records of equal time are listed in the order found, of which only the order of times is claimed.
- EntityKey covers ASCII letters and whitespace; Unicode lowercasing is not modelled, and the graph results need only that equal names up to case have equal keys.
- Counts are unbounded; the 32-bit mention counter's overflow is not modelled.
- The order of edge indices after a swap-removal; only each node's own order and the set of relations matter to the results.
- merge_from, note_alias and insert_entity: they can record an alias whose key belongs to another entity, so the exact alias index is claimed for the session operations only.
- mention_entity and update_entity_timestamp: the first can list a record twice, or for an unknown name, so what is stated of mention lists is claimed for the session operations only; the second sets one entity's time and raises its count.
- Shortest paths, relation traces, entity search, and the sorted analysis views of the graph.
- Lineage, timeline and entity views, and the greedy packing of excerpts: easy next to the searches here.
- Storage backends, export and import, embeddings and vector search, pipeline workers, redaction, and the MCP, gRPC and HTTP layers.
