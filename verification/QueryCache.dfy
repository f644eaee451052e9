// The cache of search results: scoped entries, expiry, eviction, and why a
// hit always equals a fresh search.
module QueryCache {
  import opened Types
  import opened Sorting

  datatype SearchResult = SearchResult(id: string, text: string)

  type Results = seq<SearchResult>

  // Which sessions a result was computed from.
  datatype CacheScope = Global | Session(id: Uuid) | Sessions(ids: seq<Uuid>) {
    predicate Covers(session: Uuid) {
      match this
      case Global => true
      case Session(id) => id == session
      case Sessions(ids) => session in ids
    }
  }

  datatype CachedQuery = CachedQuery(text: string, results: Results, scope: CacheScope, cachedAt: Time,
                                     accessCount: nat, bytes: nat)

  // Hashes of query parameters.
  type Hash = nat

  type Entries = map<Hash, CachedQuery>

  // Seconds since an instant; an instant in the future is no time ago.
  function Elapsed(since: Time, now: Time): (seconds: nat)
    ensures seconds >= now - since && (since + seconds == now || (seconds == 0 && now <= since))
  {
    if now > since then now - since else 0
  }

  predicate IsExpired(e: CachedQuery, ttlMinutes: int, now: Time): (expired: bool)
    ensures expired <==> ttlMinutes <= 0 || now >= e.cachedAt + 60 * ttlMinutes
  {
    Elapsed(e.cachedAt, now) >= if ttlMinutes > 0 then ttlMinutes * 60 else 0
  }

  // Whole hours since the entry was stored, at least one, and the logarithm of
  // its uses, at least one.
  ghost predicate AreFactors(e: CachedQuery, now: Time, ln: nat -> real, hours: nat, frequency: real) {
    && hours >= 1 && (hours == 1 || 3600 * hours <= now - e.cachedAt) && now - e.cachedAt < 3600 * (hours + 1)
    && frequency >= 1.0 && (e.accessCount > 0 ==> frequency >= ln(e.accessCount))
    && (frequency == 1.0 || (e.accessCount > 0 && frequency == ln(e.accessCount)))
  }

  // Used often and stored recently scores high: the factor for use is halved
  // by a day, and so on.
  function Score(e: CachedQuery, now: Time, ln: nat -> real): (s: real)
    ensures s > 0.0
    ensures forall hours: nat, frequency :: AreFactors(e, now, ln, hours, frequency) ==>
      s * (1.0 + hours as real / 24.0) == frequency
  {
    var hours := if Elapsed(e.cachedAt, now) / 3600 > 1 then Elapsed(e.cachedAt, now) / 3600 else 1;
    var frequency := if e.accessCount > 0 && ln(e.accessCount) > 1.0 then ln(e.accessCount) else 1.0;
    assert AreFactors(e, now, ln, hours, frequency);
    FactorsAreUnique(e, now, ln, hours, frequency);
    Recency(hours) * frequency
  }

  lemma FactorsAreUnique(e: CachedQuery, now: Time, ln: nat -> real, hours: nat, frequency: real)
    requires AreFactors(e, now, ln, hours, frequency)
    ensures forall h: nat, f :: AreFactors(e, now, ln, h, f) ==> h == hours && f == frequency
    ensures Recency(hours) * frequency > 0.0
    ensures Recency(hours) * frequency * (1.0 + hours as real / 24.0) == frequency
  {
    ShareOfWhole(frequency, 1.0 + hours as real / 24.0);
  }

  lemma ShareOfWhole(f: real, d: real)
    requires d >= 1.0 && f >= 1.0
    ensures (1.0 / d) * f > 0.0 && (1.0 / d) * f * d == f
  {
    assert (1.0 / d) * d == 1.0 && 1.0 / d > 0.0;
  }

  // An entry stored no earlier and used no less often scores no less.
  lemma ScoreFavours(e: CachedQuery, f: CachedQuery, now: Time, ln: nat -> real)
    requires e.cachedAt >= f.cachedAt && e.accessCount >= f.accessCount
    requires forall a: nat, b: nat :: 0 < a <= b ==> ln(a) <= ln(b)
    ensures Score(e, now, ln) >= Score(f, now, ln)
  {
    var hours, used := FactorsOf(e, now, ln);
    var hours', used' := FactorsOf(f, now, ln);
    assert hours <= hours' && used >= used';
    var d, d' := 1.0 + hours as real / 24.0, 1.0 + hours' as real / 24.0;
    LargerShare(Score(e, now, ln), used, d, Score(f, now, ln), used', d');
  }

  lemma LargerShare(s: real, f: real, d: real, s': real, f': real, d': real)
    requires 1.0 <= d <= d' && f >= f' > 0.0 && s > 0.0 && s' > 0.0 && s * d == f && s' * d' == f'
    ensures s >= s'
  {
    assert s * d' >= s * d >= s' * d';
    assert (s - s') * d' >= 0.0;
  }

  lemma FactorsOf(e: CachedQuery, now: Time, ln: nat -> real) returns (hours: nat, frequency: real)
    ensures AreFactors(e, now, ln, hours, frequency)
  {
    hours := if now - e.cachedAt >= 3600 then (now - e.cachedAt) / 3600 else 1;
    frequency := if e.accessCount > 0 && ln(e.accessCount) > 1.0 then ln(e.accessCount) else 1.0;
  }

  function Recency(hours: nat): (r: real)
    ensures 0.0 < r <= 1.0
  {
    1.0 / (1.0 + hours as real / 24.0)
  }

  function ResultBytes(results: Results, resultSize: nat): nat {
    if results == [] then 0
    else resultSize + |results[0].id| + |results[0].text| + ResultBytes(results[1..], resultSize)
  }

  ghost function TextBytes(results: Results): nat {
    if results == [] then 0
    else TextBytes(results[..|results| - 1]) + |results[|results| - 1].id| + |results[|results| - 1].text|
  }

  // A fixed size for each result, and its texts.
  lemma {:induction false} BytesOfAll(results: Results, resultSize: nat)
    ensures ResultBytes(results, resultSize) == |results| * resultSize + TextBytes(results)
  {
    if results != [] {
      var rest := results[1..];
      BytesOfAll(rest, resultSize);
      TextBytesFirst(results);
    }
  }

  lemma {:induction false} TextBytesFirst(results: Results)
    requires results != []
    ensures TextBytes(results) == |results[0].id| + |results[0].text| + TextBytes(results[1..])
  {
    if |results| > 1 {
      var front := results[..|results| - 1];
      TextBytesFirst(front);
      assert front[1..] == results[1..][..|results| - 2];
    }
  }

  function EstimateBytes(text: string, results: Results, entrySize: nat, resultSize: nat): (bytes: nat)
    ensures bytes == |text| + TextBytes(results) + |results| * resultSize + entrySize
  {
    BytesOfAll(results, resultSize);
    |text| + ResultBytes(results, resultSize) + entrySize
  }

  ghost function SumBytes(m: Entries): nat {
    if m == map[] then 0 else var h :| h in m; m[h].bytes + SumBytes(m - {h})
  }

  lemma {:induction false} SumBytesSplit(m: Entries, h: Hash)
    requires h in m
    ensures SumBytes(m) == m[h].bytes + SumBytes(m - {h})
    decreases |m|
  {
    var k :| k in m && SumBytes(m) == m[k].bytes + SumBytes(m - {k});
    assert |m - {k}| < |m| by {
      assert m.Keys == (m - {k}).Keys + {k};
      assert |m| == |m.Keys| && |m - {k}| == |(m - {k}).Keys|;
    }
    assert |m - {h}| < |m| by {
      assert m.Keys == (m - {h}).Keys + {h};
      assert |m| == |m.Keys| && |m - {h}| == |(m - {h}).Keys|;
    }
    if k != h {
      SumBytesSplit(m - {k}, h);
      SumBytesSplit(m - {h}, k);
      assert m - {k} - {h} == m - {h} - {k};
    }
  }

  lemma RemovedCount(m: Entries, h: Hash)
    requires h in m
    ensures |m - {h}| == |m| - 1
  {
    assert m.Keys == (m - {h}).Keys + {h};
    assert |m| == |m.Keys| && |m - {h}| == |(m - {h}).Keys|;
  }

  lemma InsertedBytes(m: Entries, h: Hash, e: CachedQuery)
    ensures SumBytes(m[h := e]) == SumBytes(m - {h}) + e.bytes
    ensures |m[h := e]| == if h in m then |m| else |m| + 1
  {
    SumBytesSplit(m[h := e], h);
    assert m[h := e] - {h} == m - {h};
    RemovedCount(m[h := e], h);
    if h in m {
      RemovedCount(m, h);
    } else {
      assert m - {h} == m;
    }
  }

  // Storing an entry, in terms of the counters.
  lemma StoredBytes(m: Entries, h: Hash, e: CachedQuery)
    ensures var gone := if h in m then m[h].bytes else 0;
      gone <= SumBytes(m) && SumBytes(m[h := e]) == SumBytes(m) - gone + e.bytes
    ensures |m[h := e]| == if h in m then |m| else |m| + 1
    ensures m[h := e] - {h} == m - {h}
  {
    hide SumBytes;
    InsertedBytes(m, h, e);
    if h in m {
      SumBytesSplit(m, h);
    } else {
      assert m - {h} == m;
    }
  }

  // m without some entries.
  ghost predicate IsPart(part: Entries, m: Entries) {
    forall h :: h in part ==> h in m && part[h] == m[h]
  }

  function Least(a: nat, b: nat): (m: nat)
    ensures m <= a && m <= b && (m == a || m == b)
  {
    if a < b then a else b
  }

  const EXPIRY_SWEEP_INTERVAL: nat := 64

  // The score of a stored entry.
  function ScoreIn(m: Entries, h: Hash, now: Time, ln: nat -> real): (s: real)
    ensures h in m ==> s == Score(m[h], now, ln)
  {
    if h in m then Score(m[h], now, ln) else 0.0
  }

  function ByScore(m: Entries, now: Time, ln: nat -> real): (Hash, Hash) -> bool {
    (a: Hash, b: Hash) => ScoreIn(m, a, now, ln) < ScoreIn(m, b, now, ln)
  }

  // Every entry that went scores no higher than every entry that stayed.
  ghost predicate LeastWent(m: Entries, kept: Entries, now: Time, ln: nat -> real) {
    forall a, b :: a in m && a !in kept && b in kept ==> ScoreIn(m, a, now, ln) <= ScoreIn(m, b, now, ln)
  }

  class QueryCache {
    var cache: Entries
    var inserts: nat
    var totalQueries: nat
    var hits: nat
    var misses: nat
    var expiredRemoved: nat
    var evicted: nat
    var size: nat
    var bytes: nat
    const maxSize: nat
    const ttlMinutes: int
    const entrySize: nat
    const resultSize: nat

    function Capacity(): (n: nat)
      ensures n >= maxSize && n >= 1 && (n == maxSize || n == 1)
    {
      if maxSize > 1 then maxSize else 1
    }

    // The counters agree with the entries and with each other.
    ghost predicate Counted()
      reads this
    {
      size == |cache| && bytes == SumBytes(cache) && hits + misses == totalQueries
    }

    ghost predicate Valid()
      reads this
    {
      Counted() && |cache| <= Capacity()
    }

    constructor (maxSize: nat, ttlMinutes: int, entrySize: nat, resultSize: nat)
      ensures Valid() && cache == map[] && inserts == 0
      ensures this.maxSize == maxSize && this.ttlMinutes == ttlMinutes
      ensures this.entrySize == entrySize && this.resultSize == resultSize
    {
      this.maxSize, this.ttlMinutes, this.entrySize, this.resultSize := maxSize, ttlMinutes, entrySize, resultSize;
      cache, inserts, totalQueries, hits, misses := map[], 0, 0, 0, 0;
      expiredRemoved, evicted, size, bytes := 0, 0, 0, 0;
    }

    // Saturating.
    method SubBytes(freed: nat)
      modifies this`bytes
      ensures bytes == if freed < old(bytes) then old(bytes) - freed else 0
    {
      bytes := if freed < bytes then bytes - freed else 0;
    }

    // A hit is a live entry with the same query text; an expired entry is
    // removed.
    method Get(hash: Hash, text: string, now: Time) returns (hit: Option<Results>)
      requires Valid()
      modifies this
      ensures Valid() && totalQueries == old(totalQueries) + 1 && inserts == old(inserts)
      ensures hit.Some? <==>
        hash in old(cache) && !IsExpired(old(cache)[hash], ttlMinutes, now) && old(cache)[hash].text == text
      ensures hit.Some? ==>
        var e := old(cache)[hash];
        hit.value == e.results && cache == old(cache)[hash := e.(accessCount := e.accessCount + 1)]
      ensures hit.None? ==>
        cache ==
          if hash in old(cache) && IsExpired(old(cache)[hash], ttlMinutes, now) then old(cache) - {hash} else old(cache)
      ensures hits == old(hits) + (if hit.Some? then 1 else 0) && misses == old(misses) + (if hit.Some? then 0 else 1)
    {
      hide SumBytes, IsExpired;
      totalQueries := totalQueries + 1;
      hit := None;
      if hash in cache {
        var e := cache[hash];
        SumBytesSplit(cache, hash);
        RemovedCount(cache, hash);
        if IsExpired(e, ttlMinutes, now) {
          cache := cache - {hash};
          SubBytes(e.bytes);
          expiredRemoved := expiredRemoved + 1;
          size := |cache|;
        } else if e.text == text {
          StoredBytes(cache, hash, e.(accessCount := e.accessCount + 1));
          cache := cache[hash := e.(accessCount := e.accessCount + 1)];
          hit := Some(e.results);
        }
      }
      if hit.Some? {
        hits := hits + 1;
      } else {
        misses := misses + 1;
      }
    }

    // Remove every entry the test selects.
    method RemoveWhere(test: CachedQuery -> bool) returns (removed: nat)
      requires Counted()
      modifies this`cache, this`bytes, this`size
      ensures Counted()
      ensures cache == map h | h in old(cache) && !test(old(cache)[h]) :: old(cache)[h]
      ensures |cache| + removed == |old(cache)|
    {
      hide SumBytes, IsPart, Sifted;
      ghost var all := cache;
      var todo := cache.Keys;
      SiftStart(cache, test);
      var freed: nat := 0;
      removed := 0;
      while todo != {}
        invariant todo <= all.Keys && Sifted(all, cache, todo, test, removed, freed)
        invariant bytes == old(bytes) && size == old(size)
        decreases todo
      {
        var h :| h in todo;
        SiftStep(all, cache, todo, test, removed, freed, h);
        todo := todo - {h};
        if test(cache[h]) {
          removed := removed + 1;
          freed := freed + cache[h].bytes;
          cache := cache - {h};
        }
      }
      SiftEnd(all, cache, test, removed, freed);
      if removed > 0 {
        SubBytes(freed);
        size := |cache|;
      }
    }

    method CleanupExpired(now: Time)
      requires Counted()
      modifies this`cache, this`bytes, this`size, this`expiredRemoved
      ensures Counted()
      ensures cache == map h | h in old(cache) && !IsExpired(old(cache)[h], ttlMinutes, now) :: old(cache)[h]
      ensures |cache| <= |old(cache)|
      ensures expiredRemoved == old(expiredRemoved) + (|old(cache)| - |cache|)
    {
      var ttl := ttlMinutes;
      var removed := RemoveWhere((e: CachedQuery) => IsExpired(e, ttl, now));
      expiredRemoved := expiredRemoved + removed;
    }

    method InvalidateSession(session: Uuid)
      requires Valid()
      modifies this`cache, this`bytes, this`size
      ensures Valid()
      ensures cache == map h | h in old(cache) && !old(cache)[h].scope.Covers(session) :: old(cache)[h]
    {
      var removed := RemoveWhere((e: CachedQuery) => e.scope.Covers(session));
    }

    method Clear()
      requires Valid()
      modifies this`cache, this`bytes, this`size
      ensures Valid() && cache == map[]
    {
      cache, size, bytes := map[], 0, 0;
    }

    // A tenth of the limit, at least one.
    function Batch(): (n: nat)
      ensures n >= 1 && maxSize < 10 * n + 10 && (n == 1 || 10 * n <= maxSize)
    {
      if maxSize / 10 > 1 then maxSize / 10 else 1
    }

    // Evict a batch of the entries that score least.
    method EvictLeastEfficient(now: Time, ln: nat -> real)
      requires Counted()
      modifies this`cache, this`bytes, this`size, this`evicted
      ensures Counted() && IsPart(cache, old(cache))
      ensures |cache| == |old(cache)| - Least(Batch(), |old(cache)|)
      ensures evicted == old(evicted) + Least(Batch(), |old(cache)|)
      ensures LeastWent(old(cache), cache, now, ln)
    {
      hide ByScore, Sort, ScoreIn, Distinct, LeastFirst, LeastWent, SumBytes, IsPart;
      var m := cache;
      var keys := Listing(cache.Keys);
      var ranked := Sort(ByScore(m, now, ln), keys);
      RankedKeys(m, now, ln, keys);
      var batch := Least(Batch(), |ranked|);
      var scored := ranked[..batch];
      NoneEvicted(m, ranked);
      for k := 0 to batch
        invariant Evicted(m, cache, ranked, k)
        invariant bytes == SumBytes(cache) && evicted == old(evicted) + k
      {
        EvictStep(m, cache, ranked, k);
        hide Evicted;
        SubBytes(cache[scored[k]].bytes);
        cache := cache - {scored[k]};
        evicted := evicted + 1;
      }
      size := |cache|;
      EvictedLeast(m, cache, now, ln, ranked, batch);
    }

    // Before an insert: a sweep of expired entries when one is due, then room
    // for a new key, by expiry and if need be by eviction.
    method MakeRoom(hash: Hash, sweep: bool, now: Time, ln: nat -> real)
      requires Valid()
      modifies this`cache, this`bytes, this`size, this`expiredRemoved, this`evicted
      ensures Counted() && |cache| <= Capacity() && (hash in cache || |cache| < Capacity())
      ensures DroppedRightly(old(cache), cache, hash, Capacity(), ttlMinutes, now, ln)
      ensures !sweep && (|old(cache)| < Capacity() || hash in old(cache)) ==> cache == old(cache)
      // A sweep, and an insert of a new key at capacity, leave nothing
      // expired; only if that makes no room a batch is evicted.
      ensures sweep || Crowds(old(cache), hash, Capacity()) ==> NoneExpired(cache, ttlMinutes, now)
      ensures evicted == old(evicted) +
        if Crowds(old(cache), hash, Capacity()) && NoneExpired(old(cache), ttlMinutes, now) then
          Least(Batch(), |old(cache)|)
        else
          0
      ensures |old(cache)| == |cache| + (expiredRemoved - old(expiredRemoved)) + (evicted - old(evicted))
    {
      hide SumBytes, IsExpired, ScoreIn, DroppedRightly, LeastWent, IsPart;
      ghost var m := cache;
      NothingDropped(m, hash, Capacity(), ttlMinutes, now, ln);
      if sweep {
        CleanupExpired(now);
        ExpiredDropped(m, m, cache, hash, Capacity(), ttlMinutes, now, ln);
        LiveEntries(m, cache, ttlMinutes, now);
      }
      if |cache| >= Capacity() && hash !in cache {
        ghost var swept := cache;
        CleanupExpired(now);
        ExpiredDropped(m, swept, cache, hash, Capacity(), ttlMinutes, now, ln);
        LiveEntries(swept, cache, ttlMinutes, now);
        if |cache| >= Capacity() {
          ghost var full := cache;
          EvictLeastEfficient(now, ln);
          PartIsLive(full, cache, ttlMinutes, now);
          LeastDropped(m, full, cache, hash, Capacity(), ttlMinutes, now, ln);
        }
      }
    }

    // Store a result, replacing the one under the same hash.
    method Insert(text: string, results: Results, hash: Hash, scope: CacheScope, now: Time, ln: nat -> real)
      requires Valid()
      modifies this
      ensures Valid() && inserts == old(inserts) + 1
      ensures totalQueries == old(totalQueries) && hits == old(hits) && misses == old(misses)
      ensures hash in cache && cache[hash] == Entry(text, results, scope, now)
      ensures IsPart(cache - {hash}, old(cache))
      // Another entry goes only when expired, or to make room at capacity for
      // a new key, and then scores no higher than any that stays.
      ensures DroppedRightly(old(cache) - {hash}, cache - {hash}, hash, Capacity(), ttlMinutes, now, ln)
      ensures inserts % 64 == 0 || Crowds(old(cache), hash, Capacity()) ==>
        NoneExpired(cache - {hash}, ttlMinutes, now)
      ensures inserts % 64 != 0 && (|old(cache)| < Capacity() || hash in old(cache)) ==>
        cache - {hash} == old(cache) - {hash}
    {
      hide SumBytes, DroppedRightly, IsPart, NoneExpired, Crowds, Entry;
      inserts := inserts + 1;
      MakeRoom(hash, inserts % EXPIRY_SWEEP_INTERVAL == 0, now, ln);
      DroppedOthers(old(cache), cache, hash, Capacity(), ttlMinutes, now, ln);
      if NoneExpired(cache, ttlMinutes, now) {
        OthersAreLive(cache, hash, ttlMinutes, now);
      }
      var entry := Entry(text, results, scope, now);
      StoredBytes(cache, hash, entry);
      var oldBytes := if hash in cache then cache[hash].bytes else 0;
      cache := cache[hash := entry];
      SubBytes(oldBytes);
      bytes := bytes + entry.bytes;
      size := |cache|;
    }

    // An entry not used yet, of the size of its texts and results.
    function Entry(text: string, results: Results, scope: CacheScope, now: Time): (e: CachedQuery)
      ensures e.text == text && e.results == results && e.scope == scope && e.cachedAt == now && e.accessCount == 0
      ensures e.bytes == |text| + TextBytes(results) + |results| * resultSize + entrySize
    {
      CachedQuery(text, results, scope, now, 0, EstimateBytes(text, results, entrySize, resultSize))
    }
  }

  // Entries outside todo have been tested and removed if selected.
  ghost predicate Sifted(all: Entries, m: Entries, todo: set<Hash>, test: CachedQuery -> bool, removed: nat,
                         freed: nat) {
    && IsPart(m, all) && (forall h :: h in all ==> (h in m <==> h in todo || !test(all[h])))
    && SumBytes(m) + freed == SumBytes(all) && |m| + removed == |all| && (removed == 0 ==> freed == 0 && m == all)
  }

  lemma SiftStart(all: Entries, test: CachedQuery -> bool)
    ensures Sifted(all, all, all.Keys, test, 0, 0)
  {
  }

  lemma SiftEnd(all: Entries, m: Entries, test: CachedQuery -> bool, removed: nat, freed: nat)
    requires Sifted(all, m, {}, test, removed, freed)
    ensures m == map h | h in all && !test(all[h]) :: all[h]
    ensures SumBytes(m) + freed == SumBytes(all) && |m| + removed == |all| && (removed == 0 ==> freed == 0 && m == all)
  {
  }

  lemma SiftStep(all: Entries, m: Entries, todo: set<Hash>, test: CachedQuery -> bool, removed: nat, freed: nat,
                 h: Hash)
    requires Sifted(all, m, todo, test, removed, freed) && h in todo && todo <= all.Keys
    ensures h in m
    ensures if test(m[h]) then Sifted(all, m - {h}, todo - {h}, test, removed + 1, freed + m[h].bytes)
            else Sifted(all, m, todo - {h}, test, removed, freed)
  {
    SumBytesSplit(m, h);
    RemovedCount(m, h);
    hide SumBytes;
  }

  // The first k of the ranked keys are gone.
  ghost predicate Evicted(m: Entries, kept: Entries, ranked: seq<Hash>, k: nat)
    requires k <= |ranked|
  {
    IsPart(kept, m) && (forall h :: h in m ==> (h in kept <==> h !in ranked[..k])) && |kept| + k == |m|
  }

  lemma NoneEvicted(m: Entries, ranked: seq<Hash>)
    ensures Evicted(m, m, ranked, 0)
  {
  }

  lemma EvictStep(m: Entries, kept: Entries, ranked: seq<Hash>, k: nat)
    requires k < |ranked| && Distinct(ranked) && (forall h :: h in ranked <==> h in m) && Evicted(m, kept, ranked, k)
    ensures ranked[k] in kept && Evicted(m, kept - {ranked[k]}, ranked, k + 1)
    ensures SumBytes(kept) == kept[ranked[k]].bytes + SumBytes(kept - {ranked[k]})
  {
    hide SumBytes, Distinct;
    var h := ranked[k];
    NotEarlier(ranked, k);
    assert h in ranked;
    SumBytesSplit(kept, h);
    RemovedCount(kept, h);
  }

  lemma NotEarlier(ranked: seq<Hash>, k: nat)
    requires k < |ranked| && Distinct(ranked)
    ensures ranked[k] !in ranked[..k]
    ensures forall x :: x in ranked[..k + 1] <==> x in ranked[..k] || x == ranked[k]
  {
    assert ranked[..k + 1] == ranked[..k] + [ranked[k]];
  }

  lemma EvictedLeast(m: Entries, kept: Entries, now: Time, ln: nat -> real, ranked: seq<Hash>, k: nat)
    requires k <= |ranked| && (forall h :: h in ranked <==> h in m) && Evicted(m, kept, ranked, k)
    requires LeastFirst(m, now, ln, ranked, k)
    ensures LeastWent(m, kept, now, ln) && IsPart(kept, m)
  {
    hide ScoreIn;
  }

  // Entries go only when expired or, at capacity and for a new key, with the
  // least scores.
  ghost predicate DroppedRightly(m: Entries, kept: Entries, hash: Hash, capacity: nat, ttlMinutes: int, now: Time,
                                 ln: nat -> real) {
    IsPart(kept, m) && forall h :: h in m && h !in kept ==>
      IsExpired(m[h], ttlMinutes, now) ||
      (|m| >= capacity && hash !in m && forall k :: k in kept ==> ScoreIn(m, h, now, ln) <= ScoreIn(m, k, now, ln))
  }

  // A new key for a full cache.
  ghost predicate Crowds(m: Entries, hash: Hash, capacity: nat) {
    |m| >= capacity && hash !in m
  }

  ghost predicate NoneExpired(m: Entries, ttlMinutes: int, now: Time) {
    forall h :: h in m ==> !IsExpired(m[h], ttlMinutes, now)
  }

  // Removing the expired entries leaves live ones, all of them if none was
  // expired.
  lemma LiveEntries(m: Entries, kept: Entries, ttlMinutes: int, now: Time)
    requires kept == map h | h in m && !IsExpired(m[h], ttlMinutes, now) :: m[h]
    ensures NoneExpired(kept, ttlMinutes, now) && |kept| <= |m|
    ensures NoneExpired(m, ttlMinutes, now) <==> kept == m
    ensures |kept| == |m| ==> kept == m
  {
    hide IsExpired;
    PartSize(kept, m);
  }

  lemma PartIsLive(m: Entries, kept: Entries, ttlMinutes: int, now: Time)
    requires NoneExpired(m, ttlMinutes, now) && IsPart(kept, m)
    ensures NoneExpired(kept, ttlMinutes, now)
  {
    hide IsExpired;
  }

  lemma OthersAreLive(m: Entries, hash: Hash, ttlMinutes: int, now: Time)
    requires NoneExpired(m, ttlMinutes, now)
    ensures NoneExpired(m - {hash}, ttlMinutes, now)
  {
    hide IsExpired;
  }

  lemma NothingDropped(m: Entries, hash: Hash, capacity: nat, ttlMinutes: int, now: Time, ln: nat -> real)
    ensures DroppedRightly(m, m, hash, capacity, ttlMinutes, now, ln)
  {
  }

  lemma PartSize(part: Entries, m: Entries)
    requires IsPart(part, m)
    ensures |part| <= |m| && (|part| == |m| ==> part == m)
  {
    SubsetSize(part.Keys, m.Keys);
    assert |part| == |part.Keys| && |m| == |m.Keys|;
  }

  lemma {:induction false} SubsetSize(s: set<Hash>, t: set<Hash>)
    requires s <= t
    ensures |s| <= |t| && (|s| == |t| ==> s == t)
  {
    if x :| x in t && x !in s {
      SubsetSize(s, t - {x});
    } else {
      assert s == t;
    }
  }

  // Dropping expired entries only, from what is still all of m if it is full.
  lemma ExpiredDropped(m: Entries, before: Entries, kept: Entries, hash: Hash, capacity: nat, ttlMinutes: int,
                       now: Time, ln: nat -> real)
    requires before == m || (|m| <= capacity && |before| >= capacity && IsPart(before, m))
    requires kept == map h | h in before && !IsExpired(before[h], ttlMinutes, now) :: before[h]
    ensures DroppedRightly(m, kept, hash, capacity, ttlMinutes, now, ln) && |kept| <= |m|
  {
    if before != m {
      PartSize(before, m);
    }
    hide ScoreIn, IsExpired;
    PartSize(kept, m);
  }

  lemma LeastDropped(m: Entries, before: Entries, kept: Entries, hash: Hash, capacity: nat, ttlMinutes: int,
                     now: Time, ln: nat -> real)
    requires |m| <= capacity && |before| >= capacity && hash !in before
    requires DroppedRightly(m, before, hash, capacity, ttlMinutes, now, ln)
    requires LeastWent(before, kept, now, ln) && IsPart(kept, before)
    ensures DroppedRightly(m, kept, hash, capacity, ttlMinutes, now, ln)
  {
    PartSize(before, m);
    hide ScoreIn, IsExpired;
  }

  lemma DroppedOthers(m: Entries, kept: Entries, hash: Hash, capacity: nat, ttlMinutes: int, now: Time, ln: nat -> real)
    requires DroppedRightly(m, kept, hash, capacity, ttlMinutes, now, ln)
    ensures DroppedRightly(m - {hash}, kept - {hash}, hash, capacity, ttlMinutes, now, ln)
    ensures IsPart(kept - {hash}, m)
  {
    hide IsExpired;
    if hash !in m {
      assert m - {hash} == m;
    }
    forall h | h in m - {hash}
      ensures ScoreIn(m - {hash}, h, now, ln) == ScoreIn(m, h, now, ln)
    {
    }
    hide ScoreIn;
  }

  // The first keys in score order are all in the map, once each, and score
  // no higher than the rest.
  lemma RankedKeys(m: Entries, now: Time, ln: nat -> real, keys: seq<Hash>)
    requires Distinct(keys) && forall h :: h in keys <==> h in m
    ensures var scored := Sort(ByScore(m, now, ln), keys);
      && Distinct(scored) && (forall h :: h in scored <==> h in m) && |scored| == |m|
      && (forall n :: 0 <= n <= |scored| ==> LeastFirst(m, now, ln, scored, n))
  {
    var less := ByScore(m, now, ln);
    var scored := Sort(less, keys);
    SortOrders(less, keys);
    SortElements(less, keys);
    SortMultiset(less, keys);
    DistinctByMultiset(keys, scored);
    KeysCount(m, keys);
    hide Sort, ScoreIn, ByScore, LeastFirst;
    forall n | 0 <= n <= |scored|
      ensures LeastFirst(m, now, ln, scored, n)
    {
      OrderedLeastFirst(m, now, ln, scored, n);
    }
  }

  lemma OrderedLeastFirst(m: Entries, now: Time, ln: nat -> real, scored: seq<Hash>, n: nat)
    requires NeverAfter(ByScore(m, now, ln), scored) && n <= |scored|
    ensures LeastFirst(m, now, ln, scored, n)
  {
    hide ScoreIn;
    forall a, b | a in scored[..n] && b in scored && b !in scored[..n]
      ensures ScoreIn(m, a, now, ln) <= ScoreIn(m, b, now, ln)
    {
      var i :| 0 <= i < n && scored[i] == a;
      var j :| 0 <= j < |scored| && scored[j] == b;
      assert forall k :: 0 <= k < n ==> scored[..n][k] == scored[k];
      assert !ByScore(m, now, ln)(scored[j], scored[i]);
    }
  }

  ghost predicate LeastFirst(m: Entries, now: Time, ln: nat -> real, scored: seq<Hash>, n: nat)
    requires n <= |scored|
  {
    forall a, b :: a in scored[..n] && b in scored && b !in scored[..n] ==>
      ScoreIn(m, a, now, ln) <= ScoreIn(m, b, now, ln)
  }

  lemma DistinctByMultiset(s: seq<Hash>, t: seq<Hash>)
    requires Distinct(s) && multiset(s) == multiset(t)
    ensures Distinct(t)
  {
    forall i, j | 0 <= i < j < |t|
      ensures t[i] != t[j]
    {
      if t[i] == t[j] {
        assert t == t[..i] + [t[i]] + t[i + 1..j] + [t[j]] + t[j + 1..];
        assert multiset(t)[t[i]] >= 2;
        OnceOnly(s, t[i]);
      }
    }
  }

  lemma {:induction false} OnceOnly(s: seq<Hash>, x: Hash)
    requires Distinct(s)
    ensures multiset(s)[x] <= 1
  {
    if s != [] {
      assert s == [s[0]] + s[1..];
      OnceOnly(s[1..], x);
      if s[0] == x {
        assert x !in s[1..];
      }
    }
  }

  lemma {:induction false} KeysCount(m: Entries, keys: seq<Hash>)
    requires Distinct(keys) && forall h :: h in keys <==> h in m
    ensures |keys| == |m|
  {
    assert m.Keys == Elements(keys);
    DistinctSize(keys);
    assert |m| == |m.Keys|;
  }

  ghost function Elements(keys: seq<Hash>): set<Hash> {
    set h | h in keys
  }

  lemma {:induction false} DistinctSize(keys: seq<Hash>)
    requires Distinct(keys)
    ensures |Elements(keys)| == |keys|
  {
    if keys != [] {
      DistinctSize(keys[1..]);
      assert keys == [keys[0]] + keys[1..];
      assert keys[0] !in keys[1..];
      assert Elements(keys) == Elements(keys[1..]) + {keys[0]};
    }
  }

  // The contents of every session.
  type Data = map<Uuid, seq<string>>

  // A fresh search, by the hash and text of its parameters.
  type Search = (Hash, string, Data) -> Results

  function Write(d: Data, session: Uuid, content: seq<string>): Data {
    d[session := content]
  }

  // A result of this scope was computed from the session.
  ghost predicate IsFrom(scope: CacheScope, session: Uuid) {
    scope == Global || scope == Session(session) || (scope.Sessions? && session in scope.ids)
  }

  ghost predicate AgreeOn(scope: CacheScope, d: Data, e: Data) {
    forall s :: IsFrom(scope, s) ==> (s in d <==> s in e) && (s in d ==> d[s] == e[s])
  }

  // A search that looks at no session outside the scope.
  ghost predicate Local(search: Search, hash: Hash, text: string, scope: CacheScope) {
    forall d, e :: AgreeOn(scope, d, e) ==> search(hash, text, d) == search(hash, text, e)
  }

  ghost predicate IsCurrent(search: Search, hash: Hash, e: CachedQuery, d: Data) {
    Local(search, hash, e.text, e.scope) && e.results == search(hash, e.text, d)
  }

  // Every entry equals a fresh search on the current data.
  ghost predicate Coherent(m: Entries, search: Search, d: Data) {
    forall h :: h in m ==> IsCurrent(search, h, m[h], d)
  }

  // A write changes no result whose scope does not cover its session.
  lemma UncoveredIsCurrent(search: Search, hash: Hash, e: CachedQuery, d: Data, session: Uuid, content: seq<string>)
    requires IsCurrent(search, hash, e, d) && !e.scope.Covers(session)
    ensures IsCurrent(search, hash, e, Write(d, session, content))
  {
    assert AgreeOn(e.scope, d, Write(d, session, content));
  }

  // What is left after invalidating a written session is current.
  lemma InvalidatedIsCoherent(m: Entries, kept: Entries, search: Search, d: Data, session: Uuid, content: seq<string>)
    requires Coherent(m, search, d)
    requires kept == map h | h in m && !m[h].scope.Covers(session) :: m[h]
    ensures Coherent(kept, search, Write(d, session, content))
  {
    hide IsCurrent, Write;
    forall h | h in kept
      ensures IsCurrent(search, h, kept[h], Write(d, session, content))
    {
      UncoveredIsCurrent(search, h, kept[h], d, session, content);
    }
  }

  // Invalidation drops no more than it must: an entry that covers the
  // session can be stale after a write.
  lemma CoveredCanBeStale(scope: CacheScope, session: Uuid)
    requires scope.Covers(session)
    ensures exists search: Search, e, d, content ::
      Local(search, 0, "", scope) && e == CachedQuery("", search(0, "", d), scope, 0, 0, 0) &&
      IsCurrent(search, 0, e, d) && !IsCurrent(search, 0, e, Write(d, session, content))
  {
    var search: Search := (h, t, d) => if session in d && d[session] == ["new"] then [SearchResult("", "")] else [];
    var d: Data := map[];
    var content := ["new"];
    assert Local(search, 0, "", scope);
    var e := CachedQuery("", search(0, "", d), scope, 0, 0, 0);
    assert IsCurrent(search, 0, e, d) && !IsCurrent(search, 0, e, Write(d, session, content));
  }

  datatype Event =
    | Wrote(session: Uuid, content: seq<string>)
    | Asked(hash: Hash, text: string, scope: CacheScope, now: Time)
    | Cleared

  ghost function DataAfter(d: Data, events: seq<Event>): Data {
    if events == [] then d
    else
      var before := DataAfter(d, events[..|events| - 1]);
      match events[|events| - 1]
      case Wrote(session, content) => before[session := content]
      case _ => before
  }

  ghost predicate AllLocal(search: Search, events: seq<Event>) {
    forall k :: 0 <= k < |events| && events[k].Asked? ==> Local(search, events[k].hash, events[k].text, events[k].scope)
  }

  lemma StoredIsCoherent(m: Entries, kept: Entries, search: Search, d: Data, hash: Hash, e: CachedQuery)
    requires Coherent(m, search, d) && IsPart(kept - {hash}, m)
    requires hash in kept && kept[hash] == e && IsCurrent(search, hash, e, d)
    ensures Coherent(kept, search, d)
  {
    hide IsCurrent;
    forall h | h in kept
      ensures IsCurrent(search, h, kept[h], d)
    {
      assert h != hash ==> h in kept - {hash} && (kept - {hash})[h] == kept[h];
    }
  }

  // A search served from the cache, or computed and stored.
  method Answer(c: QueryCache, search: Search, ln: nat -> real, hash: Hash, text: string, scope: CacheScope,
                now: Time, d: Data)
    returns (results: Results)
    requires c.Valid() && Coherent(c.cache, search, d) && Local(search, hash, text, scope)
    modifies c
    ensures c.Valid() && Coherent(c.cache, search, d)
    ensures results == search(hash, text, d)
  {
    hide Local, IsExpired, SumBytes, DroppedRightly, EstimateBytes;
    var hit := c.Get(hash, text, now);
    assert Coherent(c.cache, search, d);
    if hit.Some? {
      return hit.value;
    }
    results := search(hash, text, d);
    ghost var m := c.cache;
    c.Insert(text, results, hash, scope, now, ln);
    StoredIsCoherent(m, c.cache, search, d, hash, c.cache[hash]);
  }

  // The data after one event.
  function Next(d: Data, e: Event): Data {
    if e.Wrote? then Write(d, e.session, e.content) else d
  }

  // One event: a write is followed by the invalidation of its session.
  method Serve(c: QueryCache, search: Search, ln: nat -> real, e: Event, d: Data) returns (answer: Results)
    requires c.Valid() && Coherent(c.cache, search, d)
    requires e.Asked? ==> Local(search, e.hash, e.text, e.scope)
    modifies c
    ensures c.Valid() && Coherent(c.cache, search, Next(d, e))
    ensures e.Asked? ==> answer == search(e.hash, e.text, d)
  {
    hide Local, IsCurrent, SumBytes, Write;
    answer := [];
    match e
    case Wrote(session, content) =>
      ghost var m := c.cache;
      c.InvalidateSession(session);
      InvalidatedIsCoherent(m, c.cache, search, d, session, content);
    case Asked(hash, text, scope, now) =>
      answer := Answer(c, search, ln, hash, text, scope, now, d);
    case Cleared =>
      c.Clear();
  }

  // Over any run of searches, writes each followed by an invalidation, and
  // clears, every answer is what a fresh search on the current data gives.
  method Run(c: QueryCache, search: Search, ln: nat -> real, events: seq<Event>,
             d: Data) returns (answers: seq<Results>)
    requires c.Valid() && Coherent(c.cache, search, d) && AllLocal(search, events)
    modifies c
    ensures c.Valid() && Coherent(c.cache, search, DataAfter(d, events))
    ensures |answers| == |events|
    ensures forall k :: 0 <= k < |events| && events[k].Asked? ==>
      answers[k] == search(events[k].hash, events[k].text, DataAfter(d, events[..k]))
  {
    hide Local, Coherent, SumBytes;
    answers := [];
    var now := d;
    assert events[..0] == [];
    for k := 0 to |events|
      invariant c.Valid() && Coherent(c.cache, search, now) && now == DataAfter(d, events[..k])
      invariant |answers| == k
      invariant forall j :: 0 <= j < k && events[j].Asked? ==>
        answers[j] == search(events[j].hash, events[j].text, DataAfter(d, events[..j]))
    {
      assert events[..k + 1][..k] == events[..k];
      var answer := Serve(c, search, ln, events[k], now);
      now := Next(now, events[k]);
      answers := answers + [answer];
    }
    assert events[..|events|] == events;
  }
}
