/** The in-memory cache with a time to live, and the search path that fills it.

    Get, Set, Delete and the sweep each run under the lock, so any interleaving of goroutines is a
    sequence of whole operations. The clock is a parameter and does not run backwards. */
module TtlCache {
  import opened MapIteration
  import opened Options

  datatype Item<V> = Item(value: V, expiresAt: int)

  type Items<V> = map<string, Item<V>>

  function Lookup<V>(items: Items<V>, key: string, now: int): Option<V> {
    if key !in items || now > items[key].expiresAt then None else Some(items[key].value)
  }

  function Swept<V>(items: Items<V>, now: int): Items<V> {
    map key | key in items && now <= items[key].expiresAt :: items[key]
  }

  class Cache<V> {
    var items: Items<V>

    constructor ()
      ensures items == map[]
    {
      items := map[];
    }

    method Get(key: string, now: int) returns (r: Option<V>)
      ensures r == Lookup(items, key, now)
    {
      if key !in items || now > items[key].expiresAt {
        return None;
      }
      return Some(items[key].value);
    }

    method Set(key: string, value: V, ttl: int, now: int)
      modifies this
      ensures items == old(items)[key := Item(value, now + ttl)]
    {
      items := items[key := Item(value, now + ttl)];
    }

    method Delete(key: string)
      modifies this
      ensures items == old(items) - {key}
    {
      items := items - {key};
    }

    method RemoveExpired(now: int)
      modifies this
      ensures items == Swept(old(items), now)
    {
      var keys := InSomeOrder(items.Keys);
      ghost var before := items;
      for i := 0 to |keys|
        invariant forall key :: key in items <==> key in before && !(key in keys[..i] && now > before[key].expiresAt)
        invariant forall key :: key in items ==> items[key] == before[key]
      {
        var key := keys[i];
        assert key in Elements(keys) && keys[..i + 1] == keys[..i] + [key];
        if key in items && now > items[key].expiresAt {
          items := items - {key};
        }
      }
      assert keys[..|keys|] == keys;
      forall key | key in before ensures key in keys {
        assert key in Elements(keys);
      }
    }
  }

  // ---------------------------------------------------------------- whole runs

  datatype Op<V> =
    | Put(key: string, value: V, ttl: int, at: int)
    | Drop(key: string, at: int)
    | Sweep(at: int)

  function ItemsAfter<V>(ops: seq<Op<V>>): Items<V> {
    if ops == [] then map[]
    else
      var before := ItemsAfter(ops[..|ops| - 1]);
      match ops[|ops| - 1]
      case Put(key, value, ttl, at) => before[key := Item(value, at + ttl)]
      case Drop(key, at) => before - {key}
      case Sweep(at) => Swept(before, at)
  }

  ghost predicate ReachedBy<V>(ops: seq<Op<V>>, at: int) {
    ops != [] ==> ops[|ops| - 1].at <= at
  }

  ghost predicate Monotone<V>(ops: seq<Op<V>>) {
    ops == [] || (Monotone(ops[..|ops| - 1]) && ReachedBy(ops[..|ops| - 1], ops[|ops| - 1].at))
  }

  /** The last Put of this key that no Drop of it follows. Sweeps are not looked at. */
  ghost function LatestPut<V>(ops: seq<Op<V>>, key: string): Option<Op<V>> {
    if ops == [] then None
    else
      var last := ops[|ops| - 1];
      if last.Put? && last.key == key then Some(last)
      else if last.Drop? && last.key == key then None
      else LatestPut(ops[..|ops| - 1], key)
  }

  /** An item is the latest Put of its key, and one that was swept away had expired by then. */
  lemma {:induction false} ItemsAreLatestPuts<V>(ops: seq<Op<V>>, key: string, now: int)
    requires Monotone(ops) && ReachedBy(ops, now)
    ensures var put := LatestPut(ops, key);
            && (put.Some? ==> put.value.Put?)
            && (key in ItemsAfter(ops) ==>
                  put.Some? && ItemsAfter(ops)[key] == Item(put.value.value, put.value.at + put.value.ttl))
            && (key !in ItemsAfter(ops) && put.Some? ==> now > put.value.at + put.value.ttl)
  {
    if ops != [] {
      var init, last := ops[..|ops| - 1], ops[|ops| - 1];
      ItemsAreLatestPuts(init, key, last.at);
    }
  }

  /** Provenance: a hit is exactly the value of the latest Put under that key, not older than its time
      to live; and such a value always hits, whatever was swept in between. */
  lemma {:induction false} HitIsLatestPut<V>(ops: seq<Op<V>>, key: string, now: int)
    requires Monotone(ops) && ReachedBy(ops, now)
    ensures var put := LatestPut(ops, key);
            && (put.Some? ==> put.value.Put?)
            && Lookup(ItemsAfter(ops), key, now) ==
               if put.Some? && now <= put.value.at + put.value.ttl then Some(put.value.value) else None
  {
    ItemsAreLatestPuts(ops, key, now);
  }

  function WithoutSweeps<V>(ops: seq<Op<V>>): seq<Op<V>> {
    if ops == [] then []
    else
      var init, last := WithoutSweeps(ops[..|ops| - 1]), ops[|ops| - 1];
      if last.Sweep? then init else init + [last]
  }

  lemma {:induction false} WithoutSweepsIsMonotone<V>(ops: seq<Op<V>>, now: int)
    requires Monotone(ops) && ReachedBy(ops, now)
    ensures Monotone(WithoutSweeps(ops)) && ReachedBy(WithoutSweeps(ops), now)
  {
    if ops != [] {
      var init, last := ops[..|ops| - 1], ops[|ops| - 1];
      WithoutSweepsIsMonotone(init, last.at);
      var kept := WithoutSweeps(init);
      assert (kept + [last])[..|kept|] == kept;
    }
  }

  lemma {:induction false} WithoutSweepsKeepsPuts<V>(ops: seq<Op<V>>, key: string)
    ensures LatestPut(WithoutSweeps(ops), key) == LatestPut(ops, key)
  {
    if ops != [] {
      var init, last := ops[..|ops| - 1], ops[|ops| - 1];
      WithoutSweepsKeepsPuts(init, key);
      var kept := WithoutSweeps(init);
      assert (kept + [last])[..|kept|] == kept;
    }
  }

  /** But it does its work: after a sweep exactly those keys are held whose latest Put is there and has
      not expired, so nothing expired is left and nothing else is gone. */
  lemma {:induction false} SweepLeavesExactlyTheLive<V>(ops: seq<Op<V>>, key: string, at: int)
    requires Monotone(ops) && ReachedBy(ops, at)
    ensures var put := LatestPut(ops, key);
            && (put.Some? ==> put.value.Put?)
            && (key in ItemsAfter(ops + [Sweep(at)]) <==> put.Some? && at <= put.value.at + put.value.ttl)
            && (key in ItemsAfter(ops + [Sweep(at)]) ==>
                  ItemsAfter(ops + [Sweep(at)])[key] == Item(put.value.value, put.value.at + put.value.ttl))
  {
    assert (ops + [Sweep(at)])[..|ops|] == ops;
    ItemsAreLatestPuts(ops, key, at);
  }

  /** Sweeping changes no Get, now or later. */
  lemma {:induction false} SweepsAreUnobservable<V>(ops: seq<Op<V>>, key: string, now: int)
    requires Monotone(ops) && ReachedBy(ops, now)
    ensures Lookup(ItemsAfter(ops), key, now) == Lookup(ItemsAfter(WithoutSweeps(ops)), key, now)
  {
    WithoutSweepsIsMonotone(ops, now);
    WithoutSweepsKeepsPuts(ops, key);
    HitIsLatestPut(ops, key, now);
    HitIsLatestPut(WithoutSweeps(ops), key, now);
  }
}

/** searchSingleQuery over the cache, and what its callers see over whole runs. */
module CachedSearch {
  import opened CacheKey
  import opened Options
  import opened TtlCache
  import SearchMerge

  type List = array<SearchMerge.SearchResult>

  datatype Request = Request(query: string, domains: seq<string>, maxResults: int)

  /** Any function may stand for the shortened SHA-256. */
  type Hash = string -> string

  /** maxResults is not part of the key. */
  function Key(hash: Hash, r: Request): string {
    hash(KeyData(r.query, r.domains))
  }

  /** One sub-search. The reply is what the search client would answer, None for an error; storedAt is
      the instant at which the reply is put into the cache. Lists are passed on, not copied. */
  method SearchSingleQuery(cache: Cache<List>, hash: Hash, r: Request, ttl: int, now: int, reply: Option<List>,
      storedAt: int)
    returns (results: Option<List>)
    modifies cache
    ensures var hit := Lookup(old(cache.items), Key(hash, r), now);
            && results == (if hit.Some? then hit else reply)
            && cache.items == if hit.None? && reply.Some?
                              then old(cache.items)[Key(hash, r) := Item(reply.value, storedAt + ttl)]
                              else old(cache.items)
  {
    var key := Key(hash, r);
    var cached := cache.Get(key, now);
    if cached.Some? {
      return cached;
    }
    if reply.None? {
      return None;
    }
    cache.Set(key, reply.value, ttl, storedAt);
    return reply;
  }

  // ---------------------------------------------------------------- interleaved searches

  /** What goroutines do to the cache: look a request up, store a reply after a miss, fail after a miss;
      and the sweep. Other steps may come between a goroutine's look-up and its store. */
  datatype Step<V> =
    | Read(request: Request, at: int)
    | Stored(request: Request, results: V, at: int)
    | SearchFailed(request: Request, at: int)
    | Swept(at: int)

  function OpsOf<V>(steps: seq<Step<V>>, hash: Hash, ttl: int): seq<Op<V>> {
    if steps == [] then []
    else
      var init := OpsOf(steps[..|steps| - 1], hash, ttl);
      match steps[|steps| - 1]
      case Read(_, _) => init
      case Stored(request, results, at) => init + [Put(Key(hash, request), results, ttl, at)]
      case SearchFailed(_, _) => init
      case Swept(at) => init + [Sweep(at)]
  }

  ghost predicate ClockRuns<V>(steps: seq<Step<V>>, now: int) {
    steps == [] || (steps[|steps| - 1].at <= now && ClockRuns(steps[..|steps| - 1], steps[|steps| - 1].at))
  }

  /** What a request finds in the cache after a run. */
  ghost function Found<V>(steps: seq<Step<V>>, hash: Hash, ttl: int, r: Request, now: int): Option<V> {
    Lookup(ItemsAfter(OpsOf(steps, hash, ttl)), Key(hash, r), now)
  }

  /** The latest reply stored for a request that shares this key. */
  ghost function LatestStored<V>(steps: seq<Step<V>>, hash: Hash, key: string): (stored: Option<Step<V>>)
    ensures stored.Some? ==> stored.value.Stored? && Key(hash, stored.value.request) == key
  {
    if steps == [] then None
    else
      var last := steps[|steps| - 1];
      if last.Stored? && Key(hash, last.request) == key then Some(last)
      else LatestStored(steps[..|steps| - 1], hash, key)
  }

  lemma {:induction false} OpsOfSteps<V>(steps: seq<Step<V>>, hash: Hash, ttl: int, key: string, now: int)
    requires ClockRuns(steps, now)
    ensures Monotone(OpsOf(steps, hash, ttl)) && ReachedBy(OpsOf(steps, hash, ttl), now)
    ensures var stored := LatestStored(steps, hash, key);
            LatestPut(OpsOf(steps, hash, ttl), key) ==
            if stored.Some? then Some(Put(key, stored.value.results, ttl, stored.value.at)) else None
  {
    hide Key;
    if steps != [] {
      var init, last := steps[..|steps| - 1], steps[|steps| - 1];
      OpsOfSteps(init, hash, ttl, key, last.at);
      var before := OpsOf(init, hash, ttl);
      if last.Stored? {
        OneMoreOp(before, Put(Key(hash, last.request), last.results, ttl, last.at), key);
      } else if last.Swept? {
        OneMoreOp(before, Sweep(last.at), key);
      }
    }
  }

  lemma OneMoreOp<V>(ops: seq<Op<V>>, op: Op<V>, key: string)
    requires Monotone(ops) && ReachedBy(ops, op.at)
    ensures Monotone(ops + [op]) && ReachedBy(ops + [op], op.at)
    ensures LatestPut(ops + [op], key) ==
            if op.Put? && op.key == key then Some(op)
            else if op.Drop? && op.key == key then None else LatestPut(ops, key)
  {
    assert (ops + [op])[..|ops|] == ops;
  }

  /** In every run a hit is exactly the list the latest successful search under the same key stored, at
      most ttl old; with none that recent it is a miss. Failed searches and sweeps make no difference. */
  lemma {:induction false} HitIsLatestSuccess<V>(steps: seq<Step<V>>, hash: Hash, ttl: int, r: Request, now: int)
    requires ClockRuns(steps, now)
    ensures var stored := LatestStored(steps, hash, Key(hash, r));
            Found(steps, hash, ttl, r, now) ==
            if stored.Some? && now - stored.value.at <= ttl then Some(stored.value.results) else None
  {
    hide *;
    OpsOfSteps(steps, hash, ttl, Key(hash, r), now);
    HitIsLatestPut(OpsOf(steps, hash, ttl), Key(hash, r), now);
    FoundMeaning(steps, hash, ttl, r, now);
  }

  lemma FoundMeaning<V>(steps: seq<Step<V>>, hash: Hash, ttl: int, r: Request, now: int)
    ensures Found(steps, hash, ttl, r, now) == Lookup(ItemsAfter(OpsOf(steps, hash, ttl)), Key(hash, r), now)
  {
  }

  // ---------------------------------------------------------------- when a hit is as good as a search

  /** Every reply stored is what the client answers to its request. */
  ghost predicate AnsweredBy<V>(steps: seq<Step<V>>, client: Request -> V) {
    forall k :: 0 <= k < |steps| && steps[k].Stored? ==> steps[k].results == client(steps[k].request)
  }

  lemma {:induction false} LatestStoredIsAnswered<V>(steps: seq<Step<V>>, client: Request -> V, hash: Hash, key: string)
    requires AnsweredBy(steps, client)
    ensures var stored := LatestStored(steps, hash, key);
            stored.Some? ==> stored.value.results == client(stored.value.request)
  {
    if steps != [] {
      LatestStoredIsAnswered(steps[..|steps| - 1], client, hash, key);
    }
  }

  /** A hit is what the client replied to the latest request stored under the key. */
  lemma {:induction false} HitAnswersLatestRequest<V>(
      steps: seq<Step<V>>, client: Request -> V, hash: Hash, ttl: int, r: Request, now: int)
    requires ClockRuns(steps, now) && AnsweredBy(steps, client)
    requires Found(steps, hash, ttl, r, now).Some?
    ensures var stored := LatestStored(steps, hash, Key(hash, r));
            && stored.Some?
            && Found(steps, hash, ttl, r, now).value == client(stored.value.request)
  {
    hide Found, LatestStored;
    HitIsLatestSuccess(steps, hash, ttl, r, now);
    LatestStoredIsAnswered(steps, client, hash, Key(hash, r));
  }

  /** Some search for this very request brought this reply. */
  ghost predicate Brought<V>(steps: seq<Step<V>>, r: Request, results: V) {
    exists k :: 0 <= k < |steps| && steps[k].Stored? && steps[k].request == r && steps[k].results == results
  }

  /** Whatever client answers as the run has it, a fresh search for this request would reply this. */
  ghost predicate IsSureToBe<V(!new)>(steps: seq<Step<V>>, r: Request, results: V) {
    forall client: Request -> V :: AnsweredBy(steps, client) ==> client(r) == results
  }

  /** The client that answers one request otherwise. */
  ghost function Rival<V>(client: Request -> V, r: Request, other: V): Request -> V {
    (x: Request) => if x == r then other else client(x)
  }

  lemma RivalAnswers<V>(steps: seq<Step<V>>, r: Request, results: V, client: Request -> V, other: V)
    requires AnsweredBy(steps, client) && client(r) == results && !Brought(steps, r, results)
    ensures AnsweredBy(steps, Rival(client, r, other))
  {
    forall k | 0 <= k < |steps| && steps[k].Stored? ensures steps[k].request != r {
      assert steps[k].results == client(steps[k].request);
    }
  }

  /** A run settles what a request is answered by having searched for it, and by nothing else; client is
      any one that answers as the run has it, and other is another reply it might have given. */
  lemma {:induction false} SureIffBrought<V(!new)>(
      steps: seq<Step<V>>, r: Request, results: V, client: Request -> V, other: V)
    requires AnsweredBy(steps, client) && other != results
    ensures IsSureToBe(steps, r, results) <==> Brought(steps, r, results)
  {
    if !Brought(steps, r, results) && client(r) == results {
      RivalAnswers(steps, r, results, client, other);
      assert Rival(client, r, other)(r) == other;
    }
  }

  /** A hit is sure to be what a fresh search would reply exactly when the latest list stored under the
      key was also brought by a search for this very request: same key is not enough. */
  lemma {:induction false} HitIsFreshIff<V(!new)>(
      steps: seq<Step<V>>, hash: Hash, ttl: int, r: Request, now: int, client: Request -> V, other: V)
    requires ClockRuns(steps, now) && AnsweredBy(steps, client)
    requires Found(steps, hash, ttl, r, now).Some? && other != Found(steps, hash, ttl, r, now).value
    ensures var stored := LatestStored(steps, hash, Key(hash, r));
            && stored.Some?
            && (IsSureToBe(steps, r, Found(steps, hash, ttl, r, now).value) <==>
                Brought(steps, r, stored.value.results))
  {
    hide Found, LatestStored, IsSureToBe, Brought;
    HitIsLatestSuccess(steps, hash, ttl, r, now);
    SureIffBrought(steps, r, Found(steps, hash, ttl, r, now).value, client, other);
  }

  predicate RunsTogetherAs(r: Request, s: Request) {
    Glues(r.query, r.domains, s.query, s.domains) || Glues(s.query, s.domains, r.query, r.domains)
  }

  /** With a hash that tells all data apart, two requests share an entry exactly when their normalized
      queries and sorted domains run together to the same text. */
  lemma RequestsShareEntryIff(hash: Hash, r: Request, s: Request)
    requires forall a, b :: hash(a) == hash(b) ==> a == b
    ensures Key(hash, r) == Key(hash, s) <==> RunsTogetherAs(r, s)
  {
    hide KeyData, Glues;
    SameKeyIff(r.query, r.domains, s.query, s.domains);
  }

  lemma {:induction false} LatestStoredIsStored<V>(steps: seq<Step<V>>, hash: Hash, key: string)
    requires LatestStored(steps, hash, key).Some?
    ensures exists k :: 0 <= k < |steps| && steps[k] == LatestStored(steps, hash, key).value
  {
    var last := steps[|steps| - 1];
    if last.Stored? && Key(hash, last.request) == key {
      assert steps[|steps| - 1] == LatestStored(steps, hash, key).value;
    } else {
      LatestStoredIsStored(steps[..|steps| - 1], hash, key);
      var k :| 0 <= k < |steps| - 1 && steps[..|steps| - 1][k] == LatestStored(steps, hash, key).value;
      assert steps[k] == LatestStored(steps, hash, key).value;
    }
  }

  /** With such a hash, if no search but for this request was stored whose query and domains run together
      as this one's do, every hit of the request is as good as a fresh search. */
  lemma {:induction false} AloneUnderItsKeyIsFresh<V(!new)>(
      steps: seq<Step<V>>, hash: Hash, ttl: int, r: Request, now: int)
    requires ClockRuns(steps, now) && forall a, b :: hash(a) == hash(b) ==> a == b
    requires forall k :: 0 <= k < |steps| && steps[k].Stored? && RunsTogetherAs(steps[k].request, r) ==>
               steps[k].request == r
    requires Found(steps, hash, ttl, r, now).Some?
    ensures IsSureToBe(steps, r, Found(steps, hash, ttl, r, now).value)
  {
    var key := Key(hash, r);
    HitIsLatestSuccess(steps, hash, ttl, r, now);
    hide Found, LatestStored, Key;
    LatestStoredIsStored(steps, hash, key);
    var k :| 0 <= k < |steps| && steps[k] == LatestStored(steps, hash, key).value;
    RequestsShareEntryIff(hash, steps[k].request, r);
  }

  /** Requests that differ in how many results they want find the same. */
  lemma MaxResultsIsIgnored<V>(steps: seq<Step<V>>, hash: Hash, ttl: int, r: Request, maxResults: int, now: int)
    ensures Found(steps, hash, ttl, r.(maxResults := maxResults), now) == Found(steps, hash, ttl, r, now)
  {
  }

  /** So whatever the hash, a client that heeds maxResults is answered for by a stale list: the second
      request is served what was found for the first. */
  lemma {:induction false} HitNeedNotBeFresh<V>(client: Request -> V, hash: Hash, ttl: int, r: Request,
      maxResults: int, at: int)
    requires ttl >= 0 && client(r) != client(r.(maxResults := maxResults))
    ensures var steps, other := [Stored(r, client(r), at)], r.(maxResults := maxResults);
            && AnsweredBy(steps, client)
            && Found(steps, hash, ttl, other, at) == Some(client(r))
            && Found(steps, hash, ttl, other, at) != Some(client(other))
  {
    var steps := [Stored(r, client(r), at)];
    assert steps[..0] == [] && ClockRuns(steps, at);
    assert LatestStored(steps, hash, Key(hash, r)) == Some(steps[0]);
    MaxResultsIsIgnored(steps, hash, ttl, r, maxResults, at);
    HitIsLatestSuccess(steps, hash, ttl, r, at);
  }
}
