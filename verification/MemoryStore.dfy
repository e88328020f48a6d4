/**
 The memory store of agent_workspace/long_term_memory.py: the cached query and
 the operations that change the table.
 */
module MemoryStore {
  import opened Wrappers
  import opened Dictionaries
  import opened QueryCache
  import opened Text
  import opened MemoryTable
  import opened MemoryQueries

  // Every answer in the cache is the one the backend would give now, to every safe question with that key
  ghost predicate Coherent(e: Engine, b: Backend, d: Dict<seq<MemoryRecord>>) {
    forall q :: Safe(q) && ValidLimit(q) && CacheKey(q) in d.values ==> d.values[CacheKey(q)] == Uncached(e, b, q)
  }

  lemma CoherentTouched(e: Engine, b: Backend, d: Dict<seq<MemoryRecord>>, key: string)
    requires Coherent(e, b, d)
    ensures Coherent(e, b, d.Touched(key))
  {
  }

  lemma CoherentStored(e: Engine, b: Backend, d: Dict<seq<MemoryRecord>>, maxsize: nat, q: Query)
    requires Coherent(e, b, d) && Safe(q) && ValidLimit(q) && maxsize > 0
    ensures Coherent(e, b, d.Stored(maxsize, CacheKey(q), Uncached(e, b, q)))
  {
    var after := d.Stored(maxsize, CacheKey(q), Uncached(e, b, q));
    forall p | Safe(p) && ValidLimit(p) && CacheKey(p) in after.values
      ensures after.values[CacheKey(p)] == Uncached(e, b, p)
    {
      if CacheKey(p) == CacheKey(q) {
        KeyInjective(p, q);
        SameQuestionSameAnswer(e, b, p, q);
      }
    }
  }

  /** Searching and storing in two steps: an answer found before a write and stored after it leaves the cache
      coherent exactly when the write did not change that answer. */
  lemma LateStoreExactly(e: Engine, earlier: Backend, later: Backend, d: Dict<seq<MemoryRecord>>, maxsize: nat, q: Query)
    requires Coherent(e, later, d) && Safe(q) && ValidLimit(q) && maxsize > 0
    ensures Coherent(e, later, d.Stored(maxsize, CacheKey(q), Uncached(e, earlier, q)))
       <==> Uncached(e, earlier, q) == Uncached(e, later, q)
  {
    if Uncached(e, earlier, q) == Uncached(e, later, q) {
      CoherentStored(e, later, d, maxsize, q);
    } else {
      assert CacheKey(q) in d.Stored(maxsize, CacheKey(q), Uncached(e, earlier, q)).values;
    }
  }

  // Every distinctive question gets the backend's answer, whatever other questions the cache has met
  ghost predicate Sound(e: Engine, b: Backend, d: Dict<seq<MemoryRecord>>) {
    forall q :: Distinctive(q) && ValidLimit(q) && CacheKey(q) in d.values ==> d.values[CacheKey(q)] == Uncached(e, b, q)
  }

  lemma SoundTouched(e: Engine, b: Backend, d: Dict<seq<MemoryRecord>>, key: string)
    requires Sound(e, b, d)
    ensures Sound(e, b, d.Touched(key))
  {
  }

  lemma SoundStored(e: Engine, b: Backend, d: Dict<seq<MemoryRecord>>, maxsize: nat, q: Query)
    requires Sound(e, b, d) && ValidLimit(q) && maxsize > 0
    ensures Sound(e, b, d.Stored(maxsize, CacheKey(q), Uncached(e, b, q)))
  {
    var after := d.Stored(maxsize, CacheKey(q), Uncached(e, b, q));
    forall p | Distinctive(p) && ValidLimit(p) && CacheKey(p) in after.values
      ensures after.values[CacheKey(p)] == Uncached(e, b, p)
    {
      if CacheKey(p) == CacheKey(q) {
        DistinctiveKey(p, q);
        SameQuestionSameAnswer(e, b, p, q);
      }
    }
  }

  class LongTermMemoryStore {
    const engine: Engine
    const queryCache: FTS5QueryCache<seq<MemoryRecord>>
    var backend: Backend
    ghost var touched: seq<string>  // the keys queried since the cache was last cleared

    ghost predicate Valid()
      reads this, queryCache
    {
      && queryCache.Valid() && IsLru(queryCache.cache, queryCache.maxsize, touched)
      && Sound(engine, backend, queryCache.cache) && Keyed(backend)
    }

    // It takes safe questions only to keep this
    ghost predicate Fresh()
      reads this, queryCache
    {
      Coherent(engine, backend, queryCache.cache)
    }

    constructor (engine: Engine, backend: Backend)
      requires Keyed(backend)
      ensures Valid() && Fresh() && fresh(queryCache) && queryCache.maxsize == 128
      ensures this.engine == engine && this.backend == backend
    {
      this.engine := engine;
      this.backend := backend;
      queryCache := new FTS5QueryCache(128);
      touched := [];
    }

    // None for a limit below 1; otherwise the answer the current backend gives, cached or not
    method RunQuery(q: Query) returns (r: Option<seq<MemoryRecord>>)
      requires Valid()
      modifies queryCache`cache, this`touched
      ensures Valid() && (r.None? <==> !ValidLimit(q))
      ensures r.None? ==> queryCache.cache == old(queryCache.cache) && touched == old(touched)
      ensures r.Some? ==> touched == old(touched) + [CacheKey(q)]
      ensures r.Some? ==> match old(queryCache.cache).Lookup(CacheKey(q))
                          case Some(cached) =>
                            r.value == cached && queryCache.cache == old(queryCache.cache).Touched(CacheKey(q))
                          case None =>
                            IsAnswer(engine, backend, q, r.value)
                            && queryCache.cache == old(queryCache.cache).Stored(queryCache.maxsize, CacheKey(q), r.value)
      ensures r.Some? && Distinctive(q) ==> IsAnswer(engine, backend, q, r.value)
      ensures old(Fresh()) && Safe(q) ==> Fresh() && (r.Some? ==> IsAnswer(engine, backend, q, r.value))
    {
      var limits := NormalizeLimit(q.limit, q.domain, q.oversample);
      if limits.None? {
        return None;
      }
      var cacheKey := CacheKey(q);
      AnswerExactly(engine, backend, q, Uncached(engine, backend, q));
      ghost var before := queryCache.cache;
      var cached := queryCache.Get(cacheKey);
      if before.Lookup(cacheKey).Some? {
        HitKeepsLru(before, queryCache.maxsize, touched, cacheKey);
      }
      ghost var coherent := Coherent(engine, backend, before);
      if coherent {
        CoherentTouched(engine, backend, before, cacheKey);
      }
      SoundTouched(engine, backend, before, cacheKey);
      if cached.Some? {
        touched := touched + [cacheKey];
        return cached;
      }
      var finalResults := Uncached(engine, backend, q);
      MissKeepsLru(before, queryCache.maxsize, touched, cacheKey, finalResults);
      if coherent && Safe(q) {
        CoherentStored(engine, backend, before, queryCache.maxsize, q);
      }
      SoundStored(engine, backend, before, queryCache.maxsize, q);
      queryCache.Set(cacheKey, finalResults);
      touched := touched + [cacheKey];
      r := Some(finalResults);
    }

    method ClearCache()
      requires queryCache.Valid() && Keyed(backend)
      modifies queryCache`cache, this`touched
      ensures Valid() && Fresh() && queryCache.cache == Dict([], map[])
    {
      queryCache.Clear();
      touched := [];
    }

    method WriteRecord(sessionId: string, record: MemoryRecord)
      requires Valid() && record.sessionId == sessionId
      modifies this`backend, this`touched, queryCache`cache
      ensures Valid() && Fresh() && backend == Write(old(backend), sessionId, record.id, record)
      ensures forall s, k :: Read(backend, s, k)
                          == if s == sessionId && k == record.id then Some(record) else Read(old(backend), s, k)
    {
      forall s, k
        ensures Read(Write(backend, sessionId, record.id, record), s, k)
             == if s == sessionId && k == record.id then Some(record) else Read(backend, s, k)
      {
        ReadAfterWrite(backend, sessionId, record.id, record, s, k);
      }
      WriteKeepsKeyed(backend, record);
      backend := Write(backend, sessionId, record.id, record);
      ClearCache();
    }

    // A record whose content hash is already stored is not written again, and returned with the caller's fields
    method AddRecord(sessionId: string, record: MemoryRecord, merged: MemoryRecord -> MemoryRecord)
      returns (result: MemoryRecord)
      requires Valid() && record.sessionId == sessionId
      modifies this`backend, this`touched, queryCache`cache
      ensures Valid() && (old(Fresh()) ==> Fresh())
      ensures match Read(old(backend), sessionId, record.id)
              case Some(existing) => result == merged(existing) && backend == old(backend)
              case None =>
                && result == record.(payload := engine.embed(record))
                && backend == Write(old(backend), sessionId, result.id, result)
    {
      var existing := Read(backend, sessionId, record.id);
      if existing.Some? {
        return merged(existing.value);
      }
      result := Embedded(engine, record);
      WriteRecord(sessionId, result);
    }

    // Outcomes are written without looking for an earlier one
    method AddRouteOutcome(sessionId: string, record: MemoryRecord) returns (result: MemoryRecord)
      requires Valid() && record.sessionId == sessionId
      modifies this`backend, this`touched, queryCache`cache
      ensures Valid() && Fresh() && result == record.(payload := engine.embed(record))
      ensures backend == Write(old(backend), sessionId, result.id, result)
    {
      result := Embedded(engine, record);
      WriteRecord(sessionId, result);
    }

    method DeleteRecord(sessionId: string, key: string) returns (deleted: bool)
      requires Valid()
      modifies this`backend, this`touched, queryCache`cache
      ensures Valid() && (old(Fresh()) ==> Fresh())
      ensures backend == Delete(old(backend), sessionId, key)
      ensures deleted <==> Read(old(backend), sessionId, key).Some?
      ensures forall s, k :: Read(backend, s, k) == if s == sessionId && k == key then None else Read(old(backend), s, k)
      ensures !deleted ==> backend == old(backend) && queryCache.cache == old(queryCache.cache)
    {
      deleted := RowIndex(backend, sessionId, key) < |backend|;
      DeleteKeepsKeyed(backend, sessionId, key);
      forall s, k
        ensures Read(Delete(backend, sessionId, key), s, k)
             == if s == sessionId && k == key then None else Read(backend, s, k)
      {
        ReadAfterDelete(backend, sessionId, key, s, k);
      }
      backend := Delete(backend, sessionId, key);
      if deleted {
        ClearCache();
      }
    }

    method PruneExpired(now: string) returns (deletedCount: nat)
      requires Valid()
      modifies this`backend, this`touched, queryCache`cache
      ensures Valid() && (old(Fresh()) ==> Fresh())
      ensures forall r :: r in backend <==>
        r in old(backend) && (r.value.expiresAt.None? || r.value.expiresAt.value == "" || !Less(r.value.expiresAt.value, now))
      ensures deletedCount == |old(backend)| - |backend|
      ensures deletedCount == 0 ==> backend == old(backend) && queryCache.cache == old(queryCache.cache)
    {
      var records := backend;
      PruneKeepsKeyed(records, now);
      forall r ensures r in Pruned(records, records, now) <==> r in records && !Expired(r.value, now) {
        PrunedExactly(records, now, r);
      }
      deletedCount := 0;
      for i := 0 to |records|
        invariant queryCache.cache == old(queryCache.cache) && touched == old(touched)
        invariant Pruned(backend, records[i..], now) == Pruned(records, records, now)
        invariant deletedCount == |records| - |backend|
        invariant deletedCount == 0 ==> backend == records
      {
        var r := records[i].value;
        assert records[i..][0] == records[i] && records[i..][1..] == records[i + 1..];
        if Expired(r, now) {
          if RowIndex(backend, r.sessionId, r.id) < |backend| {
            deletedCount := deletedCount + 1;
          }
          backend := Delete(backend, r.sessionId, r.id);
        }
      }
      if deletedCount > 0 {
        ClearCache();
      }
    }

    method UpdateRecord(sessionId: string, key: string, summary: string, domain: string, category: string,
                        confidence: real, expiresAt: Option<string>, citations: seq<string>) returns (updated: bool)
      requires Valid()
      modifies this`backend, this`touched, queryCache`cache
      ensures Valid() && (old(Fresh()) ==> Fresh())
      ensures updated <==> Read(old(backend), sessionId, key).Some?
      ensures !updated ==> backend == old(backend)
      ensures updated ==>
        var revised := Read(old(backend), sessionId, key).value
          .(id := key, sessionId := sessionId, summary := summary, keywords := engine.keywords(summary), domain := domain,
            confidence := confidence, citations := citations, expiresAt := expiresAt, privacyLevel := "session",
            category := category);
        forall s, k :: Read(backend, s, k)
                    == if s == sessionId && k == key then Some(revised.(payload := engine.embed(revised)))
                       else Read(old(backend), s, k)
    {
      var existing := Read(backend, sessionId, key);
      if existing.None? {
        return false;
      }
      var record := Revised(engine, existing.value, key, sessionId, summary, domain, category,
                            confidence, expiresAt, citations);
      WriteRecord(sessionId, record);
      updated := true;
    }

    method BatchMove(targetItems: seq<(string, string)>, newCategory: string) returns (movedCount: nat)
      requires Valid()
      modifies this`backend, this`touched, queryCache`cache
      ensures Valid() && (old(Fresh()) ==> Fresh())
      ensures forall s, k :: Read(backend, s, k) == AfterMove(Read(old(backend), s, k), targetItems, newCategory, s, k)
      ensures movedCount == multiset(NamedRows(old(backend), targetItems))[true]
    {
      MovableCounts(backend, targetItems);
      movedCount := 0;
      forall s, k
        ensures Read(MovedAll(backend, targetItems, newCategory), s, k)
             == AfterMove(Read(backend, s, k), targetItems, newCategory, s, k)
      {
        MovedExactly(backend, targetItems, newCategory, s, k);
      }
      for i := 0 to |targetItems|
        invariant Valid() && (old(Fresh()) ==> Fresh())
        invariant movedCount + Movable(backend, targetItems[i..]) == Movable(old(backend), targetItems)
        invariant MovedAll(backend, targetItems[i..], newCategory) == MovedAll(old(backend), targetItems, newCategory)
      {
        assert targetItems[i..][0] == targetItems[i] && targetItems[i..][1..] == targetItems[i + 1..];
        var (sessionId, key) := targetItems[i];
        if sessionId != "" && key != "" {
          var existing := Read(backend, sessionId, key);
          if existing.Some? {
            RewriteKeepsMovable(backend, sessionId, key, Moved(existing.value, sessionId, key, newCategory),
                                targetItems[i + 1..]);
            WriteRecord(sessionId, Moved(existing.value, sessionId, key, newCategory));
            movedCount := movedCount + 1;
          }
        }
      }
      if movedCount > 0 {
        ClearCache();
      }
    }
  }
}
