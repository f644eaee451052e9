// The records an impact view warns about: current decisions, requirements and
// solved problems that mention any of the entities concerned.
module Risks {
  import opened Types
  import opened Sorting
  import opened Mentions

  datatype RecordKind =
    QuestionAnswered | ProblemSolved | CodeChanged | DecisionMade | ConceptDefined | RequirementAdded

  datatype Record = Record(id: Uuid, kind: RecordKind, timestamp: Time, current: bool)

  predicate ById(records: map<Uuid, Record>) {
    forall id :: id in records ==> records[id].id == id
  }

  predicate IsRisk(r: Record) {
    r.current && (r.kind == DecisionMade || r.kind == RequirementAdded || r.kind == ProblemSolved)
  }

  // A current decision, requirement or solved problem that mentions one of the
  // entities.
  ghost predicate IsRiskFor(mentions: MentionLists, names: seq<string>, records: map<Uuid, Record>, r: Record) {
    && r.id in records && records[r.id] == r && r.current && r.kind in {DecisionMade, RequirementAdded, ProblemSolved}
    && exists k :: 0 <= k < |names| && r.id in ListOf(mentions, names[k])
  }

  ghost predicate AreAllRisks(mentions: MentionLists, names: seq<string>, records: map<Uuid, Record>,
                              all: seq<Record>)
  {
    Distinct(all) && forall r :: r in all <==> IsRiskFor(mentions, names, records, r)
  }

  predicate Newer(a: Record, b: Record) { a.timestamp > b.timestamp }

  // a is no older than b.
  ghost predicate NotOlder(a: Record, b: Record) { a.timestamp >= b.timestamp }

  // The latest of all of them, each once, latest first.
  ghost predicate AreRisks(mentions: MentionLists, names: seq<string>, records: map<Uuid, Record>, limit: nat,
                           risks: seq<Record>)
  {
    exists all :: AreAllRisks(mentions, names, records, all) && AreBest(NotOlder, limit, all, risks) && Distinct(risks)
  }

  // The records found, by id.
  predicate HasIds(found: seq<Record>, listed: set<Uuid>) {
    && (forall r :: r in found ==> r.id in listed)
    && forall id :: id in listed ==> exists k :: 0 <= k < |found| && found[k].id == id
  }

  lemma HasIdsSnoc(found: seq<Record>, listed: set<Uuid>, r: Record)
    requires HasIds(found, listed) && r.id !in listed && Distinct(found)
    ensures HasIds(found + [r], listed + {r.id}) && Distinct(found + [r])
  {
    assert forall k :: 0 <= k < |found| ==> (found + [r])[k] == found[k];
    assert (found + [r])[|found|] == r;
  }

  lemma RiskNamesSnoc(mentions: MentionLists, names: seq<string>, n: string, records: map<Uuid, Record>, r: Record)
    ensures IsRiskFor(mentions, names + [n], records, r) <==>
      IsRiskFor(mentions, names, records, r) ||
      (r.id in records && records[r.id] == r && IsRisk(r) && r.id in ListOf(mentions, n))
  {
    if k :| 0 <= k < |names| && r.id in ListOf(mentions, names[k]) {
      assert (names + [n])[k] == names[k];
    }
    assert (names + [n])[|names|] == n;
  }

  // Records at risk among some ids.
  ghost predicate IsAmong(ids: seq<Uuid>, records: map<Uuid, Record>, r: Record) {
    r.id in records && records[r.id] == r && IsRisk(r) && r.id in ids
  }

  // Add the records at risk that an entity's list names, each once.
  method AddRisks(ids: seq<Uuid>, records: map<Uuid, Record>, found0: seq<Record>, listed0: set<Uuid>)
    returns (found: seq<Record>, listed: set<Uuid>)
    requires ById(records) && Distinct(found0) && HasIds(found0, listed0)
    requires forall r :: r in found0 ==> r.id in records && records[r.id] == r
    ensures Distinct(found) && HasIds(found, listed)
    ensures forall r :: r in found ==> r.id in records && records[r.id] == r
    ensures forall r :: r in found <==> r in found0 || IsAmong(ids, records, r)
  {
    found, listed := found0, listed0;
    for j := 0 to |ids|
      invariant Distinct(found) && HasIds(found, listed)
      invariant forall r :: r in found ==> r.id in records && records[r.id] == r
      invariant forall r :: r in found <==> r in found0 || IsAmong(ids[..j], records, r)
    {
      var id := ids[j];
      assert ids[..j + 1] == ids[..j] + [id];
      if id in records {
        var r := records[id];
        if IsRisk(r) && id !in listed {
          HasIdsSnoc(found, listed, r);
          hide HasIds;
          listed := listed + {id};
          found := found + [r];
        } else if IsRisk(r) {
          assert r in found;
        }
      }
    }
    assert ids[..|ids|] == ids;
  }

  method FindRisks(mentions: MentionLists, names: seq<string>, records: map<Uuid, Record>, limit: nat)
    returns (risks: seq<Record>)
    requires ById(records)
    ensures AreRisks(mentions, names, records, limit, risks)
  {
    hide ById;
    var found: seq<Record>, listed: set<Uuid> := [], {};
    for k := 0 to |names|
      invariant AreAllRisks(mentions, names[..k], records, found) && HasIds(found, listed)
    {
      assert names[..k + 1] == names[..k] + [names[k]];
      forall r { RiskNamesSnoc(mentions, names[..k], names[k], records, r); }
      found, listed := AddRisks(ListOf(mentions, names[k]), records, found, listed);
    }
    assert names[..|names|] == names;
    PrefixIsFirst(Newer, limit, found);
    SortElements(Newer, found);
    risks := Sort(Newer, found);
    if |risks| >= limit {
      risks := risks[..limit];
    }
    FirstAreDistinct(Newer, limit, found, risks);
    FirstAreBest(Newer, NotOlder, limit, found, risks);
  }
}
