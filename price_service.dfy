/**
 * The cache-aside price service. A read asks the cache for every requested
 * code in one batch; only when the cache reports a problem does it ask the
 * storage, in one batch, for the codes the cache did not return, write what the
 * storage found back into the cache, and merge the two answers with cache
 * values winning. A write goes to the storage first and, only if that worked,
 * through to the cache.
 *
 * The two collaborators are abstract state, as their Go interfaces leave them:
 * the storage is a map with upsert semantics whose batch read returns the
 * requested codes it holds; the cache is a map whose batch read reports an
 * error whenever a requested code is absent. A fault flag per call stands for
 * an infrastructure failure, and every collaborator call is appended to a log.
 */
module PriceService {
  import opened Wrappers
  import opened Errors
  import opened GoStrings
  import opened PriceMaps

  /** One call the service makes on a collaborator. */
  datatype Call =
    | CacheGet(codes: seq<string>)
    | CacheSet(prices: map<string, Price>)
    | StoreGet(codes: seq<string>)
    | StoreSet(code: string, price: Price)

  /** Some requested code is absent from `source`. */
  predicate Misses(source: map<string, Price>, codes: seq<string>)
  {
    exists c :: c in codes && c !in source
  }

  /** The requested codes that are not keys of `prices`, in request order, duplicates kept. */
  function MissingOf(codes: seq<string>, prices: map<string, Price>): seq<string>
    decreases |codes|
  {
    if |codes| == 0 then []
    else
      var last := codes[|codes| - 1];
      MissingOf(codes[..|codes| - 1], prices) + (if last in prices then [] else [last])
  }

  /** A code is missing exactly when it was requested and `prices` lacks it. */
  lemma {:induction false} MissingOfMembers(codes: seq<string>, prices: map<string, Price>)
    ensures forall c :: c in MissingOf(codes, prices) <==> c in codes && c !in prices
    decreases |codes|
  {
    if |codes| > 0 {
      var init := codes[..|codes| - 1];
      MissingOfMembers(init, prices);
      assert codes == init + [codes[|codes| - 1]];
    }
  }

  /** Nothing is missing exactly when every requested code is a key. */
  lemma MissingOfEmpty(codes: seq<string>, prices: map<string, Price>)
    ensures MissingOf(codes, prices) == [] <==> !Misses(prices, codes)
  {
    MissingOfMembers(codes, prices);
    if MissingOf(codes, prices) != [] {
      assert MissingOf(codes, prices)[0] in MissingOf(codes, prices);
    }
  }

  /** A missing code occurs as often as it was requested; a present one never. */
  lemma {:induction false} MissingOfCounts(codes: seq<string>, prices: map<string, Price>, c: string)
    ensures multiset(MissingOf(codes, prices))[c] == if c in prices then 0 else multiset(codes)[c]
    decreases |codes|
  {
    if |codes| > 0 {
      var init := codes[..|codes| - 1];
      MissingOfCounts(init, prices, c);
      assert codes == init + [codes[|codes| - 1]];
    }
  }

  /** Which codes are missing depends only on which requested codes are keys. */
  lemma {:induction false} MissingOfSameKeys(codes: seq<string>, p: map<string, Price>, q: map<string, Price>)
    requires forall c :: c in codes ==> (c in p <==> c in q)
    ensures MissingOf(codes, p) == MissingOf(codes, q)
    decreases |codes|
  {
    if |codes| > 0 {
      var init := codes[..|codes| - 1];
      assert forall c :: c in init ==> c in codes;
      MissingOfSameKeys(init, p, q);
    }
  }

  /** Filtering by one map and then another is filtering by both. */
  lemma {:induction false} MissingOfTwice(codes: seq<string>, p: map<string, Price>, q: map<string, Price>)
    ensures MissingOf(MissingOf(codes, p), q) == MissingOf(codes, p + q)
    decreases |codes|
  {
    if |codes| > 0 {
      var init := codes[..|codes| - 1];
      var last := codes[|codes| - 1];
      MissingOfTwice(init, p, q);
      var m := MissingOf(init, p);
      if last !in p {
        assert MissingOf(codes, p) == m + [last];
        assert (m + [last])[..|m + [last]| - 1] == m;
      } else {
        assert MissingOf(codes, p) == m;
      }
    }
  }

  /** When no requested code is a key, every requested code is missing, in order. */
  lemma {:induction false} MissingOfNone(codes: seq<string>, prices: map<string, Price>)
    requires forall c :: c in codes ==> c !in prices
    ensures MissingOf(codes, prices) == codes
    decreases |codes|
  {
    if |codes| > 0 {
      var init := codes[..|codes| - 1];
      assert forall c :: c in init ==> c in codes;
      MissingOfNone(init, prices);
      assert codes == init + [codes[|codes| - 1]];
    }
  }

  /** `getMissingItems`: the requested codes absent from `prices`. */
  method GetMissingItems(codes: seq<string>, prices: map<string, Price>) returns (missing: seq<string>)
    ensures missing == MissingOf(codes, prices)
  {
    missing := [];
    var i := 0;
    while i < |codes|
      invariant 0 <= i <= |codes|
      invariant missing == MissingOf(codes[..i], prices)
    {
      assert codes[..i + 1][..i] == codes[..i];
      if codes[i] !in prices {
        missing := missing + [codes[i]];
      }
      i := i + 1;
    }
    assert codes[..|codes|] == codes;
  }

  /**
   * `getItemsUnion`: the storage answer with every cache entry written over it,
   * so the keys are those of both and the cache value wins on a shared code.
   * Go updates the storage map in place; here the updated map is returned.
   */
  method GetItemsUnion(cachePrices: map<string, Price>, storagePrices: map<string, Price>)
    returns (merged: map<string, Price>)
    ensures merged.Keys == cachePrices.Keys + storagePrices.Keys
    ensures forall c :: c in cachePrices ==> merged[c] == cachePrices[c]
    ensures forall c :: c in storagePrices && c !in cachePrices ==> merged[c] == storagePrices[c]
    ensures merged == storagePrices + cachePrices
  {
    merged := storagePrices;
    var todo := cachePrices.Keys;
    while todo != {}
      invariant todo <= cachePrices.Keys
      invariant merged.Keys == storagePrices.Keys + (cachePrices.Keys - todo)
      invariant forall c :: c in cachePrices && c !in todo ==> merged[c] == cachePrices[c]
      invariant forall c :: c in storagePrices && c !in cachePrices ==> merged[c] == storagePrices[c]
      invariant forall c :: c in storagePrices && c in todo ==> merged[c] == storagePrices[c]
      decreases todo
    {
      var k :| k in todo;
      merged := merged[k := cachePrices[k]];
      todo := todo - {k};
    }
  }

  /** The error reported for codes that neither source resolved: none when there are none. */
  function NotFound(unresolved: seq<string>): (e: Option<CustomError>)
    ensures e.None? <==> unresolved == []
    ensures e.Some? ==> e.value == CustomError(NotFoundCode, "Items not found: " + Join(unresolved, ",") + ".")
  {
    if unresolved == [] then None
    else
      NotFoundItemsMessage(unresolved);
      Some(NotFoundItems.WithParams(unresolved))
  }

  /** What a read returns and leaves behind: the prices, the error, the new cache and the call log. */
  datatype ReadOutcome = ReadOutcome(
    prices: map<string, Price>,
    err: Option<CustomError>,
    cache: map<string, Price>,
    calls: seq<Call>)

  /** The hits of the cache's batch read; a transport fault yields none. */
  function Hits(cache: map<string, Price>, codes: seq<string>, cacheFault: bool): map<string, Price>
  {
    if cacheFault then map[] else Lookup(cache, codes)
  }

  /**
   * The read path on collaborator states `cache` and `store`, extending the
   * call log `calls`. A transport fault of the cache yields no hits and an
   * error; a storage fault fails the storage batch read.
   */
  function Read(cache: map<string, Price>, store: map<string, Price>, calls: seq<Call>,
                codes: seq<string>, cacheFault: bool, storeFault: bool): (o: ReadOutcome)
    ensures |calls| < |o.calls| <= |calls| + 3
    ensures o.calls[..|calls| + 1] == calls + [CacheGet(codes)]
    ensures o.err.Some? ==> o.err.value.code == InternalErrorCode || o.err.value.code == NotFoundCode
    ensures o.err.Some? && o.err.value.code == InternalErrorCode ==> o.prices == map[] && o.cache == cache
  {
    var hits := Hits(cache, codes, cacheFault);
    var afterGet := calls + [CacheGet(codes)];
    if !cacheFault && !Misses(cache, codes) then
      ReadOutcome(hits, None, cache, afterGet)
    else
      var missing := MissingOf(codes, hits);
      if |missing| == 0 then
        Merge(codes, hits, map[], cache, afterGet)
      else if storeFault then
        ReadOutcome(map[], Some(InternalError), cache, afterGet + [StoreGet(missing)])
      else
        var fetched := Lookup(store, missing);
        Merge(codes, hits, fetched, cache + fetched, afterGet + [StoreGet(missing)] + [CacheSet(fetched)])
  }

  /** The merged answer, cache values winning, and the not-found error for what is still missing. */
  function Merge(codes: seq<string>, hits: map<string, Price>, fetched: map<string, Price>,
                 cache: map<string, Price>, calls: seq<Call>): (o: ReadOutcome)
    ensures o.prices.Keys == hits.Keys + fetched.Keys
    ensures forall c :: c in hits ==> o.prices[c] == hits[c]
    ensures forall c :: c in fetched && c !in hits ==> o.prices[c] == fetched[c]
    ensures o.err.Some? ==> o.err.value.code == NotFoundCode
  {
    var merged := fetched + hits;
    ReadOutcome(merged, NotFound(MissingOf(codes, merged)), cache, calls)
  }

  /** The code lists of the storage batch reads in a call log, in order. */
  function StoreReads(calls: seq<Call>): seq<seq<string>>
    decreases |calls|
  {
    if |calls| == 0 then []
    else (if calls[0].StoreGet? then [calls[0].codes] else []) + StoreReads(calls[1..])
  }

  /** The number of storage calls, reads and writes, in a call log. */
  function StorageCalls(calls: seq<Call>): nat
    decreases |calls|
  {
    if |calls| == 0 then 0
    else (if calls[0].StoreGet? || calls[0].StoreSet? then 1 else 0) + StorageCalls(calls[1..])
  }

  /** The cache writes in a call log, in order. */
  function CacheWrites(calls: seq<Call>): seq<map<string, Price>>
    decreases |calls|
  {
    if |calls| == 0 then []
    else (if calls[0].CacheSet? then [calls[0].prices] else []) + CacheWrites(calls[1..])
  }

  lemma {:induction false} LogConcat(a: seq<Call>, b: seq<Call>)
    ensures StoreReads(a + b) == StoreReads(a) + StoreReads(b)
    ensures StorageCalls(a + b) == StorageCalls(a) + StorageCalls(b)
    ensures CacheWrites(a + b) == CacheWrites(a) + CacheWrites(b)
    decreases |a|
  {
    if |a| > 0 {
      assert (a + b)[1..] == a[1..] + b;
      LogConcat(a[1..], b);
    } else {
      assert a + b == b;
    }
  }

  lemma LogOne(c: Call)
    ensures StoreReads([c]) == (if c.StoreGet? then [c.codes] else [])
    ensures StorageCalls([c]) == (if c.StoreGet? || c.StoreSet? then 1 else 0)
    ensures CacheWrites([c]) == (if c.CacheSet? then [c.prices] else [])
  {
    assert [c][1..] == [];
  }

  /** The logs of the three call sequences a read can make, started from an empty log. */
  lemma ReadLogs(codes: seq<string>, missing: seq<string>, fetched: map<string, Price>)
    ensures var got := [] + [CacheGet(codes)];
      var read := got + [StoreGet(missing)];
      var filled := read + [CacheSet(fetched)];
      && StoreReads(got) == [] && StorageCalls(got) == 0 && CacheWrites(got) == []
      && StoreReads(read) == [missing] && StorageCalls(read) == 1 && CacheWrites(read) == []
      && StoreReads(filled) == [missing] && StorageCalls(filled) == 1 && CacheWrites(filled) == [fetched]
  {
    var got := [] + [CacheGet(codes)];
    var read := got + [StoreGet(missing)];
    assert got == [CacheGet(codes)];
    LogOne(CacheGet(codes));
    LogOne(StoreGet(missing));
    LogOne(CacheSet(fetched));
    LogConcat(got, [StoreGet(missing)]);
    LogConcat(read, [CacheSet(fetched)]);
  }

  /** A read extends whatever log it starts from by the same calls. */
  lemma ReadExtendsLog(cache: map<string, Price>, store: map<string, Price>, log: seq<Call>,
                       codes: seq<string>, cacheFault: bool, storeFault: bool)
    ensures var start := Read(cache, store, [], codes, cacheFault, storeFault);
      Read(cache, store, log, codes, cacheFault, storeFault) == start.(calls := log + start.calls)
  {
    var hits := Hits(cache, codes, cacheFault);
    var missing := MissingOf(codes, hits);
    var fetched := Lookup(store, missing);
    assert log + [CacheGet(codes)] == log + ([] + [CacheGet(codes)]);
    assert log + [CacheGet(codes)] + [StoreGet(missing)] == log + ([] + [CacheGet(codes)] + [StoreGet(missing)]);
    assert log + [CacheGet(codes)] + [StoreGet(missing)] + [CacheSet(fetched)]
        == log + ([] + [CacheGet(codes)] + [StoreGet(missing)] + [CacheSet(fetched)]);
  }

  /** A read never answers for a code that was not requested. */
  lemma ReadOnlyRequested(cache: map<string, Price>, store: map<string, Price>, log: seq<Call>,
                          codes: seq<string>, cacheFault: bool, storeFault: bool)
    ensures forall c :: c in Read(cache, store, log, codes, cacheFault, storeFault).prices ==> c in codes
  {
    var hits := Hits(cache, codes, cacheFault);
    MissingOfMembers(codes, hits);
  }

  /**
   * The fast path: when the cache holds every requested code it answers alone.
   * The storage is not called, the cache is not written and there is no error.
   */
  lemma ReadFastPath(cache: map<string, Price>, store: map<string, Price>,
                     codes: seq<string>, storeFault: bool)
    requires forall c :: c in codes ==> c in cache
    ensures var o := Read(cache, store, [], codes, false, storeFault);
      && o.calls == [CacheGet(codes)]
      && StorageCalls(o.calls) == 0
      && o.err == None
      && o.cache == cache
      && (forall c :: c in o.prices <==> c in codes)
      && (forall c :: c in o.prices ==> o.prices[c] == cache[c])
  {
    assert !Misses(cache, codes);
    ReadLogs(codes, [], map[]);
  }

  /**
   * Once the cache reports an error, the storage is read exactly once, for exactly
   * the requested codes the cache did not return (request order, duplicates kept),
   * unless there are none.
   */
  lemma ReadStoreOnce(cache: map<string, Price>, store: map<string, Price>,
                      codes: seq<string>, cacheFault: bool, storeFault: bool)
    requires cacheFault || Misses(cache, codes)
    ensures var missing := MissingOf(codes, Hits(cache, codes, cacheFault));
      && StoreReads(Read(cache, store, [], codes, cacheFault, storeFault).calls)
         == (if missing == [] then [] else [missing])
      && (forall c :: c in missing <==> c in codes && (cacheFault || c !in cache))
      && StorageCalls(Read(cache, store, [], codes, cacheFault, storeFault).calls)
         == (if missing == [] then 0 else 1)
      && (!cacheFault ==> missing != [])
  {
    var hits := Hits(cache, codes, cacheFault);
    var missing := MissingOf(codes, hits);
    MissingOfMembers(codes, hits);
    MissingOfEmpty(codes, hits);
    ReadLogs(codes, missing, Lookup(store, missing));
  }

  /**
   * When the cache holds none of the requested codes, the storage is asked once,
   * for all of them, in request order.
   */
  lemma ReadAllMiss(cache: map<string, Price>, store: map<string, Price>,
                    codes: seq<string>, storeFault: bool)
    requires codes != [] && forall c :: c in codes ==> c !in cache
    ensures var o := Read(cache, store, [], codes, false, storeFault);
      StoreReads(o.calls) == [codes] && StorageCalls(o.calls) == 1
  {
    assert codes[0] in codes;
    var hits := Hits(cache, codes, false);
    MissingOfNone(codes, hits);
    ReadStoreOnce(cache, store, codes, false, storeFault);
  }

  /**
   * A failing storage read fails the whole request with the internal error, whatever
   * the cache had already returned, and nothing is written to the cache.
   */
  lemma ReadStoreFailure(cache: map<string, Price>, store: map<string, Price>,
                         codes: seq<string>, cacheFault: bool)
    requires cacheFault || Misses(cache, codes)
    requires MissingOf(codes, Hits(cache, codes, cacheFault)) != []
    ensures var o := Read(cache, store, [], codes, cacheFault, true);
      && o.err == Some(InternalError)
      && o.err.value.Error() == "Internal server error."
      && o.prices == map[]
      && o.cache == cache
      && CacheWrites(o.calls) == []
  {
    var missing := MissingOf(codes, Hits(cache, codes, cacheFault));
    ReadLogs(codes, missing, Lookup(store, missing));
  }

  /**
   * A successful storage read is written back: the cache receives exactly the
   * storage's answer, once, and keeps everything else it held.
   */
  lemma ReadFillsCache(cache: map<string, Price>, store: map<string, Price>,
                       codes: seq<string>, cacheFault: bool)
    requires cacheFault || Misses(cache, codes)
    requires MissingOf(codes, Hits(cache, codes, cacheFault)) != []
    ensures var fetched := Lookup(store, MissingOf(codes, Hits(cache, codes, cacheFault)));
      var o := Read(cache, store, [], codes, cacheFault, false);
      && CacheWrites(o.calls) == [fetched]
      && o.cache == cache + fetched
      && (forall c :: c in fetched <==> c in store && c in codes && (cacheFault || c !in cache))
  {
    var hits := Hits(cache, codes, cacheFault);
    var missing := MissingOf(codes, hits);
    var fetched := Lookup(store, missing);
    MissingOfMembers(codes, hits);
    ReadLogs(codes, missing, fetched);
  }

  /**
   * When the storage answered (or was not needed), the answer holds every requested
   * code that either source knows; on a code both know, the cache's value wins.
   */
  lemma ReadMerges(cache: map<string, Price>, store: map<string, Price>,
                   codes: seq<string>, cacheFault: bool, storeFault: bool)
    requires cacheFault || Misses(cache, codes)
    requires MissingOf(codes, Hits(cache, codes, cacheFault)) != [] ==> !storeFault
    ensures var hits := Hits(cache, codes, cacheFault);
      var o := Read(cache, store, [], codes, cacheFault, storeFault);
      && (forall c :: c in o.prices <==> c in codes && (c in hits || c in store))
      && (forall c :: c in o.prices && c in hits ==> o.prices[c] == hits[c])
      && (forall c :: c in o.prices && c !in hits ==> o.prices[c] == store[c])
  {
    var hits := Hits(cache, codes, cacheFault);
    MissingOfMembers(codes, hits);
  }

  /**
   * After the merge, the not-found error names exactly the requested codes that
   * neither the cache read nor the storage resolved, in request order; there is
   * an error exactly when there is such a code.
   */
  lemma ReadReportsUnresolved(cache: map<string, Price>, store: map<string, Price>,
                              codes: seq<string>, cacheFault: bool, storeFault: bool)
    requires cacheFault || Misses(cache, codes)
    requires MissingOf(codes, Hits(cache, codes, cacheFault)) != [] ==> !storeFault
    ensures var hits := Hits(cache, codes, cacheFault);
      var unresolved := MissingOf(MissingOf(codes, hits), store);
      var o := Read(cache, store, [], codes, cacheFault, storeFault);
      && (forall c :: c in unresolved <==> c in codes && c !in hits && c !in store)
      && (o.err == None <==> unresolved == [])
      && (unresolved != [] ==>
            o.err == Some(CustomError(NotFoundCode, "Items not found: " + Join(unresolved, ",") + ".")))
  {
    var hits := Hits(cache, codes, cacheFault);
    var missing := MissingOf(codes, hits);
    var fetched := if |missing| > 0 then Lookup(store, missing) else map[];
    var merged := fetched + hits;
    MissingOfMembers(codes, hits);
    assert forall c :: c in codes ==> (c in merged <==> c in hits + store);
    MissingOfSameKeys(codes, merged, hits + store);
    MissingOfTwice(codes, hits, store);
    MissingOfMembers(missing, store);
    var unresolved := MissingOf(missing, store);
    if unresolved != [] {
      NotFoundItemsMessage(unresolved);
    }
  }

  /** On the requested codes, merging a storage fill under the hits agrees with the filled cache. */
  lemma MergedAgreesWithFill(cache: map<string, Price>, fetched: map<string, Price>, codes: seq<string>)
    requires forall c :: c in fetched ==> c in codes && c !in cache
    ensures forall c :: c in fetched + Lookup(cache, codes) ==>
      c in cache + fetched && (fetched + Lookup(cache, codes))[c] == (cache + fetched)[c]
  {
  }

  lemma SameAnswer(codes: seq<string>, a: map<string, Price>, b: map<string, Price>)
    requires forall c :: c in a <==> c in codes
    requires forall c :: c in b <==> c in codes
    requires forall c :: c in a ==> a[c] == b[c]
    ensures a == b
  {
  }

  /**
   * A successful fallback leaves the cache able to serve the same request alone,
   * whether the first cache read missed or failed outright: when every requested
   * code is known to a source the first read could use, the next read of those
   * codes makes no storage call and returns the same prices.
   */
  lemma FillServesNextRead(cache: map<string, Price>, store: map<string, Price>,
                           codes: seq<string>, cacheFault: bool, storeFault: bool)
    requires forall c :: c in codes ==> (!cacheFault && c in cache) || c in store
    ensures var first := Read(cache, store, [], codes, cacheFault, false);
      var next := Read(first.cache, store, [], codes, false, storeFault);
      && first.err == None
      && next.calls == [CacheGet(codes)]
      && next.err == None
      && next.prices == first.prices
  {
    var first := Read(cache, store, [], codes, cacheFault, false);
    var hits := Hits(cache, codes, cacheFault);
    var missing := MissingOf(codes, hits);
    MissingOfMembers(codes, hits);
    MissingOfEmpty(codes, hits);
    if !cacheFault && !Misses(cache, codes) {
      ReadFastPath(cache, store, codes, storeFault);
    } else if missing == [] {
      // only a failed cache read of no codes at all
      ReadFastPath(cache, store, codes, storeFault);
      var next := Read(cache, store, [], codes, false, storeFault);
      SameAnswer(codes, next.prices, first.prices);
    } else {
      var fetched := Lookup(store, missing);
      ReadFillsCache(cache, store, codes, cacheFault);
      ReadMerges(cache, store, codes, cacheFault, false);
      ReadReportsUnresolved(cache, store, codes, cacheFault, false);
      MissingOfEmpty(missing, store);
      var filled := cache + fetched;
      assert first.cache == filled;
      assert forall c :: c in codes ==> c in filled;
      ReadFastPath(filled, store, codes, storeFault);
      var next := Read(filled, store, [], codes, false, storeFault);
      forall c | c in codes ensures next.prices[c] == first.prices[c] {
        if c !in hits {
          assert c in fetched;
        }
      }
      SameAnswer(codes, next.prices, first.prices);
    }
  }

  /** The service with its two collaborators' state and the log of calls made on them. */
  class Service {
    var store: map<string, Price>
    var cache: map<string, Price>
    var calls: seq<Call>

    /** `NewService`: a service over the given storage and cache. */
    constructor (store: map<string, Price>, cache: map<string, Price>)
      ensures this.store == store && this.cache == cache && calls == []
    {
      this.store := store;
      this.cache := cache;
      calls := [];
    }

    /** The cache's batch read: the hits, and whether it reported an error. */
    method CacheGetPricesFor(codes: seq<string>, fault: bool) returns (hits: map<string, Price>, failed: bool)
      modifies this`calls
      ensures hits == (if fault then map[] else Lookup(cache, codes))
      ensures failed == (fault || Misses(cache, codes))
      ensures calls == old(calls) + [CacheGet(codes)]
    {
      calls := calls + [CacheGet(codes)];
      hits := if fault then map[] else Lookup(cache, codes);
      failed := fault || Misses(cache, codes);
    }

    /** The cache's batch write: every entry replaces what the cache held for its code. */
    method CacheSetPricesFor(prices: map<string, Price>)
      modifies this`calls, this`cache
      ensures cache == old(cache) + prices
      ensures calls == old(calls) + [CacheSet(prices)]
    {
      calls := calls + [CacheSet(prices)];
      cache := cache + prices;
    }

    /** The storage's batch read: the requested codes it holds, or a failure with nothing. */
    method StoreGetPricesFor(codes: seq<string>, fault: bool) returns (found: map<string, Price>, failed: bool)
      modifies this`calls
      ensures found == (if fault then map[] else Lookup(store, codes))
      ensures failed == fault
      ensures calls == old(calls) + [StoreGet(codes)]
    {
      calls := calls + [StoreGet(codes)];
      found := if fault then map[] else Lookup(store, codes);
      failed := fault;
    }

    /** The storage's upsert: insert the price, or replace the one already held. */
    method StoreSetPriceFor(code: string, price: Price, fault: bool) returns (failed: bool)
      modifies this`calls, this`store
      ensures store == (if fault then old(store) else old(store)[code := price])
      ensures failed == fault
      ensures calls == old(calls) + [StoreSet(code, price)]
    {
      calls := calls + [StoreSet(code, price)];
      if !fault {
        store := store[code := price];
      }
      failed := fault;
    }

    /** `service.GetPricesFor`: the read path, as `Read` describes it. */
    method GetPricesFor(codes: seq<string>, cacheFault: bool, storeFault: bool)
      returns (prices: map<string, Price>, err: Option<CustomError>)
      modifies this`calls, this`cache
      ensures var o := Read(old(cache), store, old(calls), codes, cacheFault, storeFault);
        prices == o.prices && err == o.err && cache == o.cache && calls == o.calls
    {
      var storagePrices: map<string, Price> := map[];
      var cachePrices, cacheFailed := CacheGetPricesFor(codes, cacheFault);
      if !cacheFailed {
        return cachePrices, None;
      }
      var missing := GetMissingItems(codes, cachePrices);
      if |missing| > 0 {
        var storeFailed;
        storagePrices, storeFailed := StoreGetPricesFor(missing, storeFault);
        if storeFailed {
          return storagePrices, Some(InternalError);
        }
        CacheSetPricesFor(storagePrices);
      } else {
        assert cache == cache + storagePrices;
      }
      storagePrices := GetItemsUnion(cachePrices, storagePrices);
      var unresolved := GetMissingItems(codes, storagePrices);
      err := NotFound(unresolved);
      prices := storagePrices;
    }

    /** `service.SetPriceFor`: write-through, storage first, cache only if the storage took it. */
    method SetPriceFor(code: string, price: Price, storeFault: bool) returns (err: Option<CustomError>)
      modifies this
      ensures storeFault ==> err == Some(InternalError) && store == old(store) && cache == old(cache)
                             && calls == old(calls) + [StoreSet(code, price)]
      ensures !storeFault ==> err == None && store == old(store)[code := price]
                              && cache == old(cache)[code := price]
                              && calls == old(calls) + [StoreSet(code, price), CacheSet(map[code := price])]
    {
      var failed := StoreSetPriceFor(code, price, storeFault);
      if failed {
        return Some(InternalError);
      }
      CacheSetPricesFor(map[code := price]);
      assert cache == old(cache)[code := price];
      return None;
    }
  }

  /**
   * Write, then read: after a successful `SetPriceFor`, a read of that code is
   * served by the cache alone and returns the price just written.
   */
  lemma WriteThenRead(cache: map<string, Price>, store: map<string, Price>, code: string, price: Price, storeFault: bool)
    ensures var r := Read(cache[code := price], store[code := price], [], [code], false, storeFault);
      r.prices == map[code := price] && r.err == None && r.calls == [CacheGet([code])]
  {
    var filled := cache[code := price];
    ReadFastPath(filled, store[code := price], [code], storeFault);
    var r := Read(filled, store[code := price], [], [code], false, storeFault);
    SameAnswer([code], r.prices, map[code := price]);
  }

  /**
   * The worked example: the cache holds `p1` at 5, the storage `p2` at 7, and `p1`
   * and `p2` are requested. The storage is asked for `p2` alone, the cache receives
   * `p2` at 7, and both prices come back with no error.
   */
  lemma MixedHitsExample(cache: map<string, Price>, store: map<string, Price>, codes: seq<string>)
    requires cache == map["p1" := 5.0] && store == map["p2" := 7.0] && codes == ["p1", "p2"]
    ensures var r := Read(cache, store, [], codes, false, false);
      && r.calls == [CacheGet(codes), StoreGet(["p2"]), CacheSet(map["p2" := 7.0])]
      && r.prices == map["p1" := 5.0, "p2" := 7.0]
      && r.cache == map["p1" := 5.0, "p2" := 7.0]
      && r.err == None
  {
    assert "p2" in codes && "p2" !in cache;
    assert Misses(cache, codes);
    var hits := Lookup(cache, codes);
    assert hits == map["p1" := 5.0];
    assert codes[..1] == ["p1"] && codes[..1][..0] == [];
    assert MissingOf(["p1"], hits) == [];
    assert MissingOf(codes, hits) == MissingOf(["p1"], hits) + ["p2"];
    assert MissingOf(codes, hits) == ["p2"];
    var fetched := Lookup(store, ["p2"]);
    assert fetched == map["p2" := 7.0];
    var merged := fetched + hits;
    assert MissingOf(codes, merged) == [] by {
      MissingOfEmpty(codes, merged);
    }
    var r := Read(cache, store, [], codes, false, false);
    assert r == Merge(codes, hits, fetched, cache + fetched,
                      [] + [CacheGet(codes)] + [StoreGet(["p2"])] + [CacheSet(fetched)]);
  }

  /** The storage calls of a log that ends with one more read. */
  lemma StorageCallsAfter(log: seq<Call>, cache: map<string, Price>, store: map<string, Price>,
                          codes: seq<string>, cacheFault: bool, storeFault: bool)
    ensures StorageCalls(Read(cache, store, log, codes, cacheFault, storeFault).calls)
         == StorageCalls(log) + StorageCalls(Read(cache, store, [], codes, cacheFault, storeFault).calls)
  {
    ReadExtendsLog(cache, store, log, codes, cacheFault, storeFault);
    LogConcat(log, Read(cache, store, [], codes, cacheFault, storeFault).calls);
  }

  /**
   * Caching results: with the storage holding `p1` at 5 and an empty cache, three
   * reads of `p1` all return 5 and make a single storage call between them.
   */
  method CachesResults() returns (prices: seq<Price>, storageCalls: nat)
    ensures prices == [5.0, 5.0, 5.0]
    ensures storageCalls == 1
  {
    var store := map["p1" := 5.0];
    var codes := ["p1"];
    var s := new Service(store, map[]);
    assert "p1" in codes;
    ReadStoreOnce(map[], store, codes, false, false);
    ReadMerges(map[], store, codes, false, false);
    ReadFillsCache(map[], store, codes, false);
    var p1, _ := s.GetPricesFor(codes, false, false);
    var filled := s.cache;
    assert "p1" in filled;
    ReadFastPath(filled, store, codes, false);
    StorageCallsAfter(s.calls, filled, store, codes, false, false);
    var p2, _ := s.GetPricesFor(codes, false, false);
    StorageCallsAfter(s.calls, filled, store, codes, false, false);
    var p3, _ := s.GetPricesFor(codes, false, false);
    prices := [p1["p1"], p2["p1"], p3["p1"]];
    storageCalls := StorageCalls(s.calls);
  }

  /**
   * Several prices at once: after a read of `p1`, a read of `p1` and `p2` fetches only
   * `p2` from the storage, and a third read is served by the cache; two storage calls.
   */
  method SeveralPricesAtOnce() returns (prices: seq<Price>, storageCalls: nat)
    ensures prices == [5.0, 5.0, 7.0, 5.0, 7.0]
    ensures storageCalls == 2
  {
    var store := map["p1" := 5.0, "p2" := 7.0];
    var one := ["p1"];
    var both := ["p1", "p2"];
    var s := new Service(store, map[]);
    SeveralPricesReads(store, one, both);
    var first, _ := s.GetPricesFor(one, false, false);
    var second, _ := s.GetPricesFor(both, false, false);
    var third, _ := s.GetPricesFor(both, false, false);
    prices := [first["p1"], second["p1"], second["p2"], third["p1"], third["p2"]];
    storageCalls := StorageCalls(s.calls);
  }

  lemma SeveralPricesReads(store: map<string, Price>, one: seq<string>, both: seq<string>)
    requires store == map["p1" := 5.0, "p2" := 7.0] && one == ["p1"] && both == ["p1", "p2"]
    ensures var r1 := Read(map[], store, [], one, false, false);
      var r2 := Read(r1.cache, store, r1.calls, both, false, false);
      var r3 := Read(r2.cache, store, r2.calls, both, false, false);
      && "p1" in r1.prices && r1.prices["p1"] == 5.0
      && "p1" in r2.prices && r2.prices["p1"] == 5.0 && "p2" in r2.prices && r2.prices["p2"] == 7.0
      && "p1" in r3.prices && r3.prices["p1"] == 5.0 && "p2" in r3.prices && r3.prices["p2"] == 7.0
      && StorageCalls(r3.calls) == 2
  {
    var r1 := Read(map[], store, [], one, false, false);
    FirstReadFills(store, one);
    var r2 := Read(r1.cache, store, r1.calls, both, false, false);
    assert "p1" in r2.prices && r2.prices["p1"] == 5.0 && "p2" in r2.prices && r2.prices["p2"] == 7.0
        && StorageCalls(r2.calls) == 2 && "p1" in r2.cache && "p2" in r2.cache by {
      SecondReadFetchesRest(r1.cache, store, both);
      ReadExtendsLog(r1.cache, store, r1.calls, both, false, false);
      StorageCallsAfter(r1.calls, r1.cache, store, both, false, false);
    }
    ReadFastPath(r2.cache, store, both, false);
    ReadExtendsLog(r2.cache, store, r2.calls, both, false, false);
    StorageCallsAfter(r2.calls, r2.cache, store, both, false, false);
  }

  lemma FirstReadFills(store: map<string, Price>, one: seq<string>)
    requires store == map["p1" := 5.0, "p2" := 7.0] && one == ["p1"]
    ensures var r := Read(map[], store, [], one, false, false);
      "p1" in r.prices && r.prices["p1"] == 5.0 && StorageCalls(r.calls) == 1
      && "p1" in r.cache && "p2" !in r.cache
  {
    assert "p1" in one;
    ReadStoreOnce(map[], store, one, false, false);
    ReadMerges(map[], store, one, false, false);
    ReadFillsCache(map[], store, one, false);
  }

  lemma SecondReadFetchesRest(cache: map<string, Price>, store: map<string, Price>, both: seq<string>)
    requires store == map["p1" := 5.0, "p2" := 7.0] && both == ["p1", "p2"]
    requires "p1" in cache && cache["p1"] == 5.0 && "p2" !in cache
    ensures var r := Read(cache, store, [], both, false, false);
      "p1" in r.prices && r.prices["p1"] == 5.0 && "p2" in r.prices && r.prices["p2"] == 7.0
      && StorageCalls(r.calls) == 1 && "p1" in r.cache && "p2" in r.cache
  {
    assert "p2" in both;
    ReadStoreOnce(cache, store, both, false, false);
    ReadMerges(cache, store, both, false, false);
    ReadFillsCache(cache, store, both, false);
  }

  /** Not found: with both sources empty, a read of `p1` and `p2` names both codes. */
  method NotFoundNamesCodes() returns (message: string, found: nat)
    ensures message == "Items not found: p1,p2."
    ensures found == 0
  {
    var codes := ["p1", "p2"];
    var s := new Service(map[], map[]);
    NotFoundRead(codes);
    var prices, err := s.GetPricesFor(codes, false, false);
    message := if err.Some? then err.value.Error() else "";
    found := |prices|;
  }

  lemma NotFoundRead(codes: seq<string>)
    requires codes == ["p1", "p2"]
    ensures var r := Read(map[], map[], [], codes, false, false);
      r.err == Some(CustomError(NotFoundCode, "Items not found: p1,p2.")) && r.prices == map[]
  {
    var r := Read(map[], map[], [], codes, false, false);
    assert "p1" in codes;
    var hits := Hits(map[], codes, false);
    MissingOfNone(codes, hits);
    MissingOfNone(codes, map[]);
    ReadReportsUnresolved(map[], map[], codes, false, false);
    ReadMerges(map[], map[], codes, false, false);
    assert r.prices == map[];
    assert codes[1..] == ["p2"];
    var joined := Join(codes, ",");
    assert joined == "p1" + "," + "p2";
    SpelledOut(joined);
  }

  lemma SpelledOut(joined: string)
    requires joined == "p1" + "," + "p2"
    ensures "Items not found: " + joined + "." == "Items not found: p1,p2."
  {
    var m := "Items not found: " + joined + ".";
    assert |m| == 23;
    assert forall i :: 0 <= i < 23 ==> m[i] == "Items not found: p1,p2."[i];
  }


  /** A storage error on the fallback read fails the request with the internal error. */
  method StorageErrorFails() returns (message: string)
    ensures message == "Internal server error."
  {
    var codes := ["p1", "p2"];
    var s := new Service(map["p1" := 5.0, "p2" := 7.0], map[]);
    assert "p1" in codes;
    MissingOfNone(codes, map[]);
    var _, err := s.GetPricesFor(codes, false, true);
    message := if err.Some? then err.value.Error() else "";
  }

  /** A write the storage accepts succeeds; one it rejects gives the internal error. */
  method InsertPrice() returns (accepted: Option<CustomError>, rejected: string)
    ensures accepted == None
    ensures rejected == "Internal server error."
  {
    var s := new Service(map["p2" := 7.0], map[]);
    accepted := s.SetPriceFor("p1", 10.0, false);
    var t := new Service(map["p1" := 10.0], map[]);
    var err := t.SetPriceFor("p1", 10.0, true);
    rejected := if err.Some? then err.value.Error() else "";
  }
}
