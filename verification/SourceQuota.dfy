/** A user's list of sources: adding up to a limit, removing, and importing the seed list.

    Operations come one after another. Whether a URL is acceptable, and the name taken from it, are
    settled by net/url and are parameters. */
module SourceQuota {
  import opened MapIteration

  const MAX_SOURCES_PER_USER: nat := 100

  datatype TrustLevel = High | Medium | Low

  datatype Source = Source(userID: int, url: string, name: string, trustLevel: TrustLevel, isUserAdded: bool)

  datatype Seed = Seed(url: string, name: string)

  datatype Error = InvalidURL | DuplicateSource | SourceNotFound | SourceLimitReached

  datatype Result = Ok | Err(error: Error)

  /** The sources by identifier, and the next identifier to give out. */
  datatype Repo = Repo(sources: map<nat, Source>, nextID: nat)

  const EMPTY := Repo(map[], 1)

  // ---------------------------------------------------------------- operations on values

  ghost function Owned(r: Repo, userID: int): set<nat> {
    set id | id in r.sources && r.sources[id].userID == userID
  }

  ghost predicate Has(r: Repo, userID: int, url: string) {
    exists id :: IsSource(r, id, userID, url)
  }

  ghost predicate IsSource(r: Repo, id: nat, userID: int, url: string) {
    id in r.sources && r.sources[id].userID == userID && r.sources[id].url == url
  }

  ghost function CreateSource(r: Repo, source: Source): (Repo, Result) {
    if Has(r, source.userID, source.url) then (r, Err(DuplicateSource))
    else (Repo(r.sources[r.nextID := source], r.nextID + 1), Ok)
  }

  ghost function Add(r: Repo, userID: int, url: string, valid: bool, name: string): (Repo, Result) {
    if !valid then (r, Err(InvalidURL))
    else if |Owned(r, userID)| >= MAX_SOURCES_PER_USER then (r, Err(SourceLimitReached))
    else CreateSource(r, Source(userID, url, name, Medium, true))
  }

  function Remove(r: Repo, userID: int, id: nat): (Repo, Result) {
    if id !in r.sources || r.sources[id].userID != userID then (r, Err(SourceNotFound))
    else (r.(sources := r.sources - {id}), Ok)
  }

  function SetTrustLevel(r: Repo, userID: int, id: nat, level: TrustLevel): (Repo, Result) {
    if id !in r.sources || r.sources[id].userID != userID then (r, Err(SourceNotFound))
    else (r.(sources := r.sources[id := r.sources[id].(trustLevel := level)]), Ok)
  }

  /** The repository after the import, and how many were imported. */
  ghost function ImportSeed(r: Repo, userID: int, seeds: seq<Seed>): (Repo, nat) {
    if seeds == [] then (r, 0)
    else
      var (sofar, n) := ImportSeed(r, userID, seeds[..|seeds| - 1]);
      var (next, outcome) := CreateSource(sofar, SeedSource(userID, seeds[|seeds| - 1]));
      (next, if outcome.Ok? then n + 1 else n)
  }

  function SeedSource(userID: int, seed: Seed): Source {
    Source(userID, seed.url, seed.name, High, false)
  }

  ghost function OwnedAmong(r: Repo, userID: int, ids: seq<nat>): set<nat> {
    set id | id in ids && id in Owned(r, userID)
  }

  lemma OwnedAmongSnoc(r: Repo, userID: int, ids: seq<nat>, id: nat)
    requires id in r.sources && id !in ids
    ensures |OwnedAmong(r, userID, ids + [id])| ==
            |OwnedAmong(r, userID, ids)| + if r.sources[id].userID == userID then 1 else 0
  {
    if r.sources[id].userID == userID {
      assert OwnedAmong(r, userID, ids + [id]) == OwnedAmong(r, userID, ids) + {id};
    } else {
      assert OwnedAmong(r, userID, ids + [id]) == OwnedAmong(r, userID, ids);
    }
  }

  lemma OwnedAmongAll(r: Repo, userID: int, ids: seq<nat>)
    requires Elements(ids) == r.sources.Keys
    ensures OwnedAmong(r, userID, ids[..|ids|]) == Owned(r, userID)
  {
    assert ids[..|ids|] == ids;
    forall id ensures id in ids <==> id in r.sources {
      assert id in Elements(ids) <==> id in r.sources.Keys;
    }
  }

  // ---------------------------------------------------------------- the repository and the service

  class SourceRepository {
    var sources: map<nat, Source>
    var nextID: nat

    ghost function Value(): Repo
      reads this
    {
      Repo(sources, nextID)
    }

    constructor ()
      ensures Value() == EMPTY
    {
      sources, nextID := map[], 1;
    }

    method ExistsByURL(userID: int, url: string) returns (exists': bool)
      ensures exists' <==> Has(Value(), userID, url)
    {
      var ids := InSomeOrder(sources.Keys);
      for i := 0 to |ids|
        invariant forall k :: 0 <= k < i ==> !(sources[ids[k]].userID == userID && sources[ids[k]].url == url)
        invariant forall k :: 0 <= k < |ids| ==> ids[k] in sources
      {
        if sources[ids[i]].userID == userID && sources[ids[i]].url == url {
          assert IsSource(Value(), ids[i], userID, url);
          return true;
        }
      }
      forall id | id in sources ensures !(sources[id].userID == userID && sources[id].url == url) {
        assert id in Elements(ids);
      }
      return false;
    }

    method CountByUser(userID: int) returns (count: nat)
      ensures count == |Owned(Value(), userID)|
    {
      var ids := InSomeOrder(sources.Keys);
      count := 0;
      for i := 0 to |ids|
        invariant count == |OwnedAmong(Value(), userID, ids[..i])|
      {
        assert ids[i] in Elements(ids);
        OwnedAmongSnoc(Value(), userID, ids[..i], ids[i]);
        assert ids[i] !in ids[..i] && ids[..i + 1] == ids[..i] + [ids[i]];
        if sources[ids[i]].userID == userID {
          count := count + 1;
        }
      }
      OwnedAmongAll(Value(), userID, ids);
    }

    method Create(source: Source) returns (r: Result)
      modifies this
      ensures (Value(), r) == CreateSource(old(Value()), source)
    {
      var duplicate := ExistsByURL(source.userID, source.url);
      if duplicate {
        return Err(DuplicateSource);
      }
      sources, nextID := sources[nextID := source], nextID + 1;
      return Ok;
    }

    method Delete(userID: int, id: nat) returns (r: Result)
      modifies this
      ensures (Value(), r) == Remove(old(Value()), userID, id)
    {
      if id !in sources || sources[id].userID != userID {
        return Err(SourceNotFound);
      }
      sources := sources - {id};
      return Ok;
    }

    method UpdateTrustLevel(userID: int, id: nat, level: TrustLevel) returns (r: Result)
      modifies this
      ensures (Value(), r) == SetTrustLevel(old(Value()), userID, id, level)
    {
      if id !in sources || sources[id].userID != userID {
        return Err(SourceNotFound);
      }
      sources := sources[id := sources[id].(trustLevel := level)];
      return Ok;
    }
  }

  method AddSource(repo: SourceRepository, userID: int, url: string, valid: bool, name: string) returns (r: Result)
    modifies repo
    ensures (repo.Value(), r) == Add(old(repo.Value()), userID, url, valid, name)
  {
    if !valid {
      return Err(InvalidURL);
    }
    var count := repo.CountByUser(userID);
    if count >= MAX_SOURCES_PER_USER {
      return Err(SourceLimitReached);
    }
    r := repo.Create(Source(userID, url, name, Medium, true));
  }

  method ImportSeedSources(repo: SourceRepository, userID: int, seeds: seq<Seed>) returns (imported: nat)
    modifies repo
    ensures (repo.Value(), imported) == ImportSeed(old(repo.Value()), userID, seeds)
  {
    imported := 0;
    for i := 0 to |seeds|
      invariant (repo.Value(), imported) == ImportSeed(old(repo.Value()), userID, seeds[..i])
    {
      assert seeds[..i + 1][..i] == seeds[..i];
      var exists' := repo.ExistsByURL(userID, seeds[i].url);
      if !exists' {
        var r := repo.Create(SeedSource(userID, seeds[i]));
        if r.Ok? {
          imported := imported + 1;
        }
      }
    }
    assert seeds[..|seeds|] == seeds;
  }

  // ---------------------------------------------------------------- what every operation keeps

  ghost predicate UrlsUnique(r: Repo) {
    forall i, j, userID, url :: IsSource(r, i, userID, url) && IsSource(r, j, userID, url) ==> i == j
  }

  ghost predicate IdsBelowNext(r: Repo) {
    forall id :: id in r.sources ==> id < r.nextID
  }

  /** The user's sources whose URL is on no seed list. */
  ghost function Unseeded(r: Repo, userID: int, seeds: seq<Seed>): set<nat> {
    set id | id in Owned(r, userID) && !IsSeed(seeds, r.sources[id].url)
  }

  predicate IsSeed(seeds: seq<Seed>, url: string) {
    exists k :: 0 <= k < |seeds| && seeds[k].url == url
  }

  ghost function SeedUrls(seeds: seq<Seed>): set<string> {
    set k | 0 <= k < |seeds| :: seeds[k].url
  }

  ghost predicate Inv(r: Repo, seeds: seq<Seed>) {
    && UrlsUnique(r)
    && IdsBelowNext(r)
    && forall userID :: |Unseeded(r, userID, seeds)| <= MAX_SOURCES_PER_USER
  }

  lemma SubsetSize<T>(a: set<T>, b: set<T>)
    requires a <= b
    ensures |a| <= |b|
  {
    assert b == a + (b - a);
  }

  lemma CreateOwned(r: Repo, source: Source, userID: int)
    requires IdsBelowNext(r)
    ensures Owned(CreateSource(r, source).0, userID) ==
            if CreateSource(r, source).1.Ok? && userID == source.userID then Owned(r, userID) + {r.nextID}
            else Owned(r, userID)
  {
  }

  lemma CreateKeepsBasics(r: Repo, source: Source)
    requires UrlsUnique(r) && IdsBelowNext(r)
    ensures UrlsUnique(CreateSource(r, source).0) && IdsBelowNext(CreateSource(r, source).0)
  {
    var t := CreateSource(r, source).0;
    forall i, j, u, url | IsSource(t, i, u, url) && IsSource(t, j, u, url) ensures i == j {
      assert i != r.nextID ==> IsSource(r, i, u, url);
      assert j != r.nextID ==> IsSource(r, j, u, url);
    }
  }

  lemma CreateUnseeded(r: Repo, source: Source, userID: int, seeds: seq<Seed>)
    requires IdsBelowNext(r)
    ensures var t := CreateSource(r, source).0;
            if userID == source.userID && !IsSeed(seeds, source.url)
            then Unseeded(t, userID, seeds) <= Unseeded(r, userID, seeds) + {r.nextID}
            else Unseeded(t, userID, seeds) == Unseeded(r, userID, seeds)
  {
  }

  lemma AddKeepsInv(r: Repo, userID: int, url: string, valid: bool, name: string, seeds: seq<Seed>)
    requires Inv(r, seeds)
    ensures Inv(Add(r, userID, url, valid, name).0, seeds)
  {
    var source := Source(userID, url, name, Medium, true);
    var t := Add(r, userID, url, valid, name).0;
    if t != r {
      CreateKeepsBasics(r, source);
      forall u ensures |Unseeded(t, u, seeds)| <= MAX_SOURCES_PER_USER {
        CreateUnseeded(r, source, u, seeds);
        SubsetSize(Unseeded(r, u, seeds), Owned(r, u));
        SubsetSize(Unseeded(t, u, seeds), Unseeded(r, u, seeds) + {r.nextID});
      }
    }
  }

  lemma RemoveKeepsInv(r: Repo, userID: int, id: nat, seeds: seq<Seed>)
    requires Inv(r, seeds)
    ensures Inv(Remove(r, userID, id).0, seeds)
  {
    var t := Remove(r, userID, id).0;
    forall i, u, url ensures IsSource(t, i, u, url) ==> IsSource(r, i, u, url) {}
    forall u ensures |Unseeded(t, u, seeds)| <= MAX_SOURCES_PER_USER {
      SubsetSize(Unseeded(t, u, seeds), Unseeded(r, u, seeds));
    }
  }

  lemma SetTrustLevelKeepsInv(r: Repo, userID: int, id: nat, level: TrustLevel, seeds: seq<Seed>)
    requires Inv(r, seeds)
    ensures Inv(SetTrustLevel(r, userID, id, level).0, seeds)
    ensures forall u :: Owned(SetTrustLevel(r, userID, id, level).0, u) == Owned(r, u)
  {
    var t := SetTrustLevel(r, userID, id, level).0;
    forall i, u, url ensures IsSource(t, i, u, url) <==> IsSource(r, i, u, url) {}
    forall u ensures Owned(t, u) == Owned(r, u) && Unseeded(t, u, seeds) == Unseeded(r, u, seeds) {}
  }

  lemma {:induction false} ImportSeedKeepsInv(r: Repo, userID: int, part: seq<Seed>, seeds: seq<Seed>)
    requires Inv(r, seeds) && forall k :: 0 <= k < |part| ==> IsSeed(seeds, part[k].url)
    ensures Inv(ImportSeed(r, userID, part).0, seeds)
  {
    if part != [] {
      var sofar := ImportSeed(r, userID, part[..|part| - 1]).0;
      var source := SeedSource(userID, part[|part| - 1]);
      ImportSeedKeepsInv(r, userID, part[..|part| - 1], seeds);
      CreateKeepsBasics(sofar, source);
      forall u ensures Unseeded(CreateSource(sofar, source).0, u, seeds) == Unseeded(sofar, u, seeds) {
        CreateUnseeded(sofar, source, u, seeds);
      }
    }
  }

  // ---------------------------------------------------------------- what each operation does

  /** Every source but this one is where it was and as it was. */
  ghost predicate OthersSame(r: Repo, t: Repo, id: nat) {
    forall other :: other != id ==>
      (other in t.sources <==> other in r.sources) && (other in r.sources ==> t.sources[other] == r.sources[other])
  }

  ghost predicate Owns(r: Repo, userID: int, id: nat) {
    id in r.sources && r.sources[id].userID == userID
  }

  /** Removing succeeds exactly on the user's own sources; then that one is gone, its URL with it, and
      everything else is left; otherwise nothing happens. */
  lemma RemoveIsExact(r: Repo, userID: int, id: nat)
    ensures var (t, outcome) := Remove(r, userID, id);
            && (outcome.Ok? <==> Owns(r, userID, id))
            && (outcome.Ok? ==>
                  && id !in t.sources && OthersSame(r, t, id) && t.nextID == r.nextID
                  && Owned(t, userID) == Owned(r, userID) - {id}
                  && (UrlsUnique(r) ==> !Has(t, userID, r.sources[id].url)))
            && (!outcome.Ok? ==> t == r && outcome == Err(SourceNotFound))
  {
    var (t, outcome) := Remove(r, userID, id);
    if outcome.Ok? && UrlsUnique(r) {
      var url := r.sources[id].url;
      assert IsSource(r, id, userID, url);
      forall other ensures !IsSource(t, other, userID, url) {
        assert IsSource(t, other, userID, url) ==> IsSource(r, other, userID, url);
      }
    }
  }

  /** Setting the trust level succeeds exactly on the user's own sources; then that one has the new level
      and nothing else is different; otherwise nothing happens. */
  lemma SetTrustLevelIsExact(r: Repo, userID: int, id: nat, level: TrustLevel)
    ensures var (t, outcome) := SetTrustLevel(r, userID, id, level);
            && (outcome.Ok? <==> Owns(r, userID, id))
            && (outcome.Ok? ==>
                  && id in t.sources && t.sources[id].trustLevel == level
                  && t.sources[id].userID == userID && t.sources[id].url == r.sources[id].url
                  && t.sources[id].name == r.sources[id].name
                  && t.sources[id].isUserAdded == r.sources[id].isUserAdded
                  && OthersSame(r, t, id) && t.nextID == r.nextID)
            && (!outcome.Ok? ==> t == r && outcome == Err(SourceNotFound))
  {
  }

  /** Adding fails for an unacceptable URL, then for a user at the limit, then for one who has the URL, and
      changes nothing; otherwise the user has one more source, of medium trust and the user's own. */
  lemma AddIsExact(r: Repo, userID: int, url: string, valid: bool, name: string)
    requires IdsBelowNext(r)
    ensures var (t, outcome) := Add(r, userID, url, valid, name);
            && (outcome == Err(InvalidURL) <==> !valid)
            && (outcome == Err(SourceLimitReached) <==> valid && |Owned(r, userID)| >= 100)
            && (outcome == Err(DuplicateSource) <==> valid && |Owned(r, userID)| < 100 && Has(r, userID, url))
            && (outcome.Ok? <==> valid && |Owned(r, userID)| < 100 && !Has(r, userID, url))
            && (!outcome.Ok? ==> t == r)
            && (outcome.Ok? ==>
                  && r.nextID !in r.sources && OthersSame(r, t, r.nextID) && t.nextID > r.nextID
                  && r.nextID in t.sources && t.sources[r.nextID] == Source(userID, url, name, Medium, true)
                  && |Owned(t, userID)| == |Owned(r, userID)| + 1 && Has(t, userID, url))
  {
    var (t, outcome) := Add(r, userID, url, valid, name);
    if outcome.Ok? {
      CreateOwned(r, t.sources[r.nextID], userID);
      assert IsSource(t, r.nextID, userID, url);
    }
  }

  /** A source that an import stored: of high trust and not the user's own, under the URL and the name of
      the seed that is first on the list with that URL. */
  ghost predicate IsImported(source: Source, userID: int, seeds: seq<Seed>, k: nat) {
    && k < |seeds| && source == Source(userID, seeds[k].url, seeds[k].name, High, false)
    && forall j :: 0 <= j < k ==> seeds[j].url != seeds[k].url
  }

  /** An import leaves every source as it was, and what it adds are seeds. */
  lemma {:induction false} ImportSeedAddsSeeds(r: Repo, userID: int, seeds: seq<Seed>)
    requires UrlsUnique(r) && IdsBelowNext(r)
    ensures var t := ImportSeed(r, userID, seeds).0;
            && (forall id :: id in r.sources ==> id in t.sources && t.sources[id] == r.sources[id])
            && (forall id :: id in t.sources && id !in r.sources ==>
                  exists k :: IsImported(t.sources[id], userID, seeds, k))
  {
    if seeds != [] {
      var init, seed := seeds[..|seeds| - 1], seeds[|seeds| - 1];
      ImportSeedAddsSeeds(r, userID, init);
      ImportSeedIsExact(r, userID, init, seed.url);
      var sofar, t := ImportSeed(r, userID, init).0, ImportSeed(r, userID, seeds).0;
      assert t == CreateSource(sofar, SeedSource(userID, seed)).0;
      hide ImportSeed, UrlsUnique;
      forall id | id in t.sources && id !in r.sources ensures exists k :: IsImported(t.sources[id], userID, seeds, k) {
        if id in sofar.sources {
          var k :| IsImported(sofar.sources[id], userID, init, k);
          assert IsImported(t.sources[id], userID, seeds, k);
        } else {
          forall j | 0 <= j < |init| ensures init[j].url != seed.url {
            assert init[j].url in SeedUrls(init);
          }
          assert IsImported(t.sources[id], userID, seeds, |init|);
        }
      }
    }
  }

  // ---------------------------------------------------------------- whole runs

  datatype Op =
    | DoAdd(userID: int, url: string, valid: bool, name: string)
    | DoRemove(userID: int, id: nat)
    | DoSetTrust(userID: int, id: nat, level: TrustLevel)
    | DoImport(userID: int)

  ghost function Apply(r: Repo, op: Op, seeds: seq<Seed>): Repo {
    match op
    case DoAdd(userID, url, valid, name) => Add(r, userID, url, valid, name).0
    case DoRemove(userID, id) => Remove(r, userID, id).0
    case DoSetTrust(userID, id, level) => SetTrustLevel(r, userID, id, level).0
    case DoImport(userID) => ImportSeed(r, userID, seeds).0
  }

  ghost function After(ops: seq<Op>, seeds: seq<Seed>): Repo {
    if ops == [] then EMPTY else Apply(After(ops[..|ops| - 1], seeds), ops[|ops| - 1], seeds)
  }

  lemma ApplyKeepsInv(r: Repo, op: Op, seeds: seq<Seed>)
    requires Inv(r, seeds)
    ensures Inv(Apply(r, op, seeds), seeds)
  {
    match op
    case DoAdd(userID, url, valid, name) => AddKeepsInv(r, userID, url, valid, name, seeds);
    case DoRemove(userID, id) => RemoveKeepsInv(r, userID, id, seeds);
    case DoSetTrust(userID, id, level) => SetTrustLevelKeepsInv(r, userID, id, level, seeds);
    case DoImport(userID) => ImportSeedKeepsInv(r, userID, seeds, seeds);
  }

  lemma {:induction false} RunsKeepInv(ops: seq<Op>, seeds: seq<Seed>)
    ensures Inv(After(ops, seeds), seeds)
  {
    if ops == [] {
      forall userID ensures Unseeded(EMPTY, userID, seeds) == {} {}
    } else {
      RunsKeepInv(ops[..|ops| - 1], seeds);
      ApplyKeepsInv(After(ops[..|ops| - 1], seeds), ops[|ops| - 1], seeds);
    }
  }

  /** Sources with distinct URLs are no more than the URLs they can have. */
  lemma {:induction false} AtMostOnePerUrl(r: Repo, ids: set<nat>, userID: int, urls: set<string>)
    requires UrlsUnique(r) && ids <= Owned(r, userID)
    requires forall id :: id in ids ==> r.sources[id].url in urls
    ensures |ids| <= |urls|
    decreases |ids|
  {
    if ids != {} {
      var id :| id in ids;
      var url := r.sources[id].url;
      forall other | other in ids - {id} ensures r.sources[other].url != url {
        assert IsSource(r, id, userID, url);
        assert r.sources[other].url == url ==> IsSource(r, other, userID, url);
      }
      AtMostOnePerUrl(r, ids - {id}, userID, urls - {url});
    }
  }

  /** In every run each user's URLs are unique, and a user has at most the limit plus the number of
      distinct seed URLs. */
  lemma QuotaBound(ops: seq<Op>, seeds: seq<Seed>, userID: int)
    ensures UrlsUnique(After(ops, seeds))
    ensures |Owned(After(ops, seeds), userID)| <= MAX_SOURCES_PER_USER + |SeedUrls(seeds)|
  {
    RunsKeepInv(ops, seeds);
    var r := After(ops, seeds);
    var unseeded := Unseeded(r, userID, seeds);
    var seeded := Owned(r, userID) - unseeded;
    AtMostOnePerUrl(r, seeded, userID, SeedUrls(seeds));
    assert Owned(r, userID) == unseeded + seeded;
  }

  /** Every operation moves nextID forward or leaves it, and stores only under old identifiers still in
      use or new ones. */
  ghost predicate IdsAdvance(r: Repo, t: Repo) {
    t.nextID >= r.nextID && forall id :: id in t.sources ==> id in r.sources || id >= r.nextID
  }

  lemma {:induction false} ImportSeedAdvances(r: Repo, userID: int, seeds: seq<Seed>)
    ensures IdsAdvance(r, ImportSeed(r, userID, seeds).0)
  {
    if seeds != [] {
      ImportSeedAdvances(r, userID, seeds[..|seeds| - 1]);
    }
  }

  lemma ApplyAdvances(r: Repo, op: Op, seeds: seq<Seed>)
    ensures IdsAdvance(r, Apply(r, op, seeds))
  {
    if op.DoImport? {
      ImportSeedAdvances(r, op.userID, seeds);
    }
  }

  /** An identifier that was given out and is no longer in use is never used again. */
  lemma {:induction false} IdsAreNeverReused(ops: seq<Op>, more: seq<Op>, seeds: seq<Seed>, id: nat)
    requires id < After(ops, seeds).nextID && id !in After(ops, seeds).sources
    ensures id !in After(ops + more, seeds).sources && id < After(ops + more, seeds).nextID
  {
    if more == [] {
      assert ops + more == ops;
    } else {
      var init := more[..|more| - 1];
      IdsAreNeverReused(ops, init, seeds, id);
      assert (ops + more)[..|ops + more| - 1] == ops + init;
      ApplyAdvances(After(ops + init, seeds), more[|more| - 1], seeds);
    }
  }

  // ---------------------------------------------------------------- importing

  /** The seed URLs that the user does not have. */
  ghost function Missing(r: Repo, userID: int, seeds: seq<Seed>): set<string> {
    set url | url in SeedUrls(seeds) && !Has(r, userID, url)
  }

  lemma CreateHas(r: Repo, source: Source, userID: int, url: string)
    requires IdsBelowNext(r)
    ensures Has(CreateSource(r, source).0, userID, url) <==>
            Has(r, userID, url) || (userID == source.userID && url == source.url)
  {
    var t := CreateSource(r, source).0;
    if t != r {
      forall id ensures IsSource(t, id, userID, url) ==> id == r.nextID || IsSource(r, id, userID, url) {}
      assert IsSource(t, r.nextID, source.userID, source.url);
      if Has(r, userID, url) {
        var id :| IsSource(r, id, userID, url);
        assert IsSource(t, id, userID, url);
      }
    }
  }

  /** After an import the user has every seed URL besides what there was, and the count of sources grew
      by exactly what was returned: the number of distinct seed URLs that were missing. */
  lemma {:induction false} ImportSeedIsExact(r: Repo, userID: int, seeds: seq<Seed>, url: string)
    requires UrlsUnique(r) && IdsBelowNext(r)
    ensures var (t, imported) := ImportSeed(r, userID, seeds);
            && UrlsUnique(t) && IdsBelowNext(t)
            && (Has(t, userID, url) <==> Has(r, userID, url) || url in SeedUrls(seeds))
            && imported == |Missing(r, userID, seeds)|
            && |Owned(t, userID)| == |Owned(r, userID)| + imported
  {
    if seeds == [] {
      assert Missing(r, userID, seeds) == {};
    } else {
      var init, seed := seeds[..|seeds| - 1], seeds[|seeds| - 1];
      hide Has, Owned, Missing, UrlsUnique, IdsBelowNext;
      ImportSeedIsExact(r, userID, init, url);
      ImportSeedIsExact(r, userID, init, seed.url);
      var sofar := ImportSeed(r, userID, init).0;
      CreateKeepsBasics(sofar, SeedSource(userID, seed));
      CreateOwned(sofar, SeedSource(userID, seed), userID);
      CreateHas(sofar, SeedSource(userID, seed), userID, url);
      MissingSnoc(r, userID, init, seed);
      assert init + [seed] == seeds;
    }
  }

  lemma MissingSnoc(r: Repo, userID: int, seeds: seq<Seed>, seed: Seed)
    ensures SeedUrls(seeds + [seed]) == SeedUrls(seeds) + {seed.url}
    ensures |Missing(r, userID, seeds + [seed])| ==
            |Missing(r, userID, seeds)| + if Has(r, userID, seed.url) || seed.url in SeedUrls(seeds) then 0 else 1
  {
    var all := seeds + [seed];
    forall url ensures url in SeedUrls(all) <==> url in SeedUrls(seeds) || url == seed.url {
      if url in SeedUrls(seeds) {
        var k :| 0 <= k < |seeds| && seeds[k].url == url;
        assert all[k].url == url;
      }
      assert all[|seeds|].url == seed.url;
    }
    if Has(r, userID, seed.url) || seed.url in SeedUrls(seeds) {
      assert Missing(r, userID, all) == Missing(r, userID, seeds);
    } else {
      assert Missing(r, userID, all) == Missing(r, userID, seeds) + {seed.url};
    }
  }

  /** The limit does not bind an import: it holds afterwards exactly when there was room for every
      missing seed. */
  lemma ImportStaysWithinLimitIff(r: Repo, userID: int, seeds: seq<Seed>)
    requires UrlsUnique(r) && IdsBelowNext(r)
    ensures |Owned(ImportSeed(r, userID, seeds).0, userID)| <= MAX_SOURCES_PER_USER <==>
            |Owned(r, userID)| + |Missing(r, userID, seeds)| <= MAX_SOURCES_PER_USER
  {
    ImportSeedIsExact(r, userID, seeds, "");
  }

  lemma {:induction false} NothingToImport(r: Repo, userID: int, seeds: seq<Seed>)
    requires forall k :: 0 <= k < |seeds| ==> Has(r, userID, seeds[k].url)
    ensures ImportSeed(r, userID, seeds) == (r, 0)
  {
    if seeds != [] {
      NothingToImport(r, userID, seeds[..|seeds| - 1]);
    }
  }

  /** A second import straight after the first imports nothing and changes nothing. */
  lemma SecondImportDoesNothing(r: Repo, userID: int, seeds: seq<Seed>)
    requires UrlsUnique(r) && IdsBelowNext(r)
    ensures var once := ImportSeed(r, userID, seeds).0;
            ImportSeed(once, userID, seeds) == (once, 0)
  {
    var once := ImportSeed(r, userID, seeds).0;
    forall k | 0 <= k < |seeds| ensures Has(once, userID, seeds[k].url) {
      ImportSeedIsExact(r, userID, seeds, seeds[k].url);
    }
    NothingToImport(once, userID, seeds);
  }

  // ---------------------------------------------------------------- the bound is reached

  function LongestUrl(seeds: seq<Seed>): nat {
    if seeds == [] then 0
    else
      var rest, size := LongestUrl(seeds[1..]), |seeds[0].url|;
      if size > rest then size else rest
  }

  lemma {:induction false} LongerIsNoSeed(seeds: seq<Seed>, url: string)
    requires |url| > LongestUrl(seeds)
    ensures url !in SeedUrls(seeds) && !IsSeed(seeds, url)
  {
    if seeds != [] {
      LongerIsNoSeed(seeds[1..], url);
      forall k | 0 <= k < |seeds| ensures seeds[k].url != url {
        if k > 0 {
          assert seeds[1..][k - 1] == seeds[k];
          assert seeds[1..][k - 1].url in SeedUrls(seeds[1..]);
        }
      }
    }
  }

  /** URLs longer than any seed's, one for each number. */
  function FreshUrl(seeds: seq<Seed>, n: nat): string {
    seq(LongestUrl(seeds) + 1 + n, _ => 'u')
  }

  /** n sources added one after another, none of them a seed. */
  function Adding(userID: int, seeds: seq<Seed>, n: nat): seq<Op> {
    if n == 0 then [] else Adding(userID, seeds, n - 1) + [DoAdd(userID, FreshUrl(seeds, n - 1), true, "")]
  }

  lemma AfterSnoc(ops: seq<Op>, op: Op, seeds: seq<Seed>)
    ensures After(ops + [op], seeds) == Apply(After(ops, seeds), op, seeds)
  {
    assert (ops + [op])[..|ops|] == ops;
  }

  ghost predicate Holds(r: Repo, userID: int, n: nat, longest: nat) {
    |Owned(r, userID)| == n && forall url :: Has(r, userID, url) ==> longest < |url| <= longest + n
  }

  lemma {:induction false} AddingFills(userID: int, seeds: seq<Seed>, n: nat)
    requires n <= MAX_SOURCES_PER_USER
    ensures Holds(After(Adding(userID, seeds, n), seeds), userID, n, LongestUrl(seeds))
  {
    if n == 0 {
      assert Owned(EMPTY, userID) == {};
    } else {
      AddingFills(userID, seeds, n - 1);
      AddingOneMore(Adding(userID, seeds, n - 1), userID, seeds, n - 1);
    }
  }

  lemma AddingOneMore(ops: seq<Op>, userID: int, seeds: seq<Seed>, n: nat)
    requires n < MAX_SOURCES_PER_USER && Holds(After(ops, seeds), userID, n, LongestUrl(seeds))
    ensures Holds(After(ops + [DoAdd(userID, FreshUrl(seeds, n), true, "")], seeds), userID, n + 1, LongestUrl(seeds))
  {
    AfterSnoc(ops, DoAdd(userID, FreshUrl(seeds, n), true, ""), seeds);
    RunsKeepInv(ops, seeds);
    hide After, Owned, Has, LongestUrl, UrlsUnique, IdsBelowNext, Add;
    var r, added := After(ops, seeds), FreshUrl(seeds, n);
    var t := Add(r, userID, added, true, "").0;
    assert |added| == LongestUrl(seeds) + 1 + n;
    AddNewUrl(r, userID, added, added);
    forall url | Has(t, userID, url) ensures LongestUrl(seeds) < |url| <= LongestUrl(seeds) + n + 1 {
      AddNewUrl(r, userID, added, url);
    }
  }

  lemma AddNewUrl(r: Repo, userID: int, added: string, url: string)
    requires UrlsUnique(r) && IdsBelowNext(r) && |Owned(r, userID)| < MAX_SOURCES_PER_USER && !Has(r, userID, added)
    ensures var t := Add(r, userID, added, true, "").0;
            && |Owned(t, userID)| == |Owned(r, userID)| + 1
            && (Has(t, userID, url) <==> Has(r, userID, url) || url == added)
  {
    var source := Source(userID, added, "", Medium, true);
    CreateOwned(r, source, userID);
    CreateHas(r, source, userID, url);
  }

  /** The bound cannot be lowered: for every seed list and user some run reaches it. */
  lemma QuotaBoundIsReached(seeds: seq<Seed>, userID: int) returns (ops: seq<Op>)
    ensures |Owned(After(ops, seeds), userID)| == MAX_SOURCES_PER_USER + |SeedUrls(seeds)|
  {
    var adds := Adding(userID, seeds, MAX_SOURCES_PER_USER);
    var r := After(adds, seeds);
    ops := adds + [DoImport(userID)];
    AfterSnoc(adds, DoImport(userID), seeds);
    RunsKeepInv(adds, seeds);
    AddingFills(userID, seeds, MAX_SOURCES_PER_USER);
    forall url | url in SeedUrls(seeds) ensures !Has(r, userID, url) {
      if |url| > LongestUrl(seeds) {
        LongerIsNoSeed(seeds, url);
      }
    }
    assert Missing(r, userID, seeds) == SeedUrls(seeds);
    ImportSeedIsExact(r, userID, seeds, "");
  }
}
