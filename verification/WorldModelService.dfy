/** The in-memory world-model repository. Entities are shared objects: the repository hands out the
    very objects it stores, and whoever holds one changes what is stored. */
module WorldModelRepository {
  import opened MapIteration
  import opened Options
  import opened Ordering
  import opened Text
  import opened WorldModel

  /** The view with an empty map in place of a nil one. */
  function WithAttributes(view: EntityView): EntityView {
    view.(attributes := Some(OrEmpty(view.attributes)))
  }

  class Entity {
    const id: nat
    var userID: int
    var name: string
    var entityType: string
    var attributes: Option<map<string, string>>
    var firstSeenAt: int
    var lastSeenAt: int

    constructor (id: nat, view: EntityView)
      ensures this.id == id && View() == view
    {
      this.id := id;
      userID, name, entityType := view.userID, view.name, view.entityType;
      attributes, firstSeenAt, lastSeenAt := view.attributes, view.firstSeenAt, view.lastSeenAt;
    }

    ghost function View(): EntityView
      reads this
    {
      EntityView(userID, name, entityType, attributes, firstSeenAt, lastSeenAt)
    }
  }

  class Repository {
    var facts: map<nat, Fact>
    var entities: map<nat, Entity>
    var sessions: map<nat, Session>
    var sessionFacts: map<nat, seq<nat>>
    var sessionEntities: map<nat, seq<nat>>
    ghost var store: Store
    ghost var Repr: set<Entity>

    /** store is what the fields hold, save perhaps for the contents of the entity but. */
    ghost predicate ValidBut(but: Option<nat>)
      reads this, Repr
    {
      && store.facts == facts && store.sessions == sessions
      && store.sessionFacts == sessionFacts && store.sessionEntities == sessionEntities
      && store.entities.Keys == entities.Keys
      && (forall id :: id in entities ==> entities[id] in Repr)
      && (forall id :: id in entities && but != Some(id) ==> entities[id].View() == store.entities[id])
      && (forall id :: id in entities ==> entities[id].id == id)
    }

    ghost predicate Valid()
      reads this, Repr
    {
      ValidBut(None)
    }

    constructor ()
      ensures Valid() && fresh(Repr) && store == EMPTY
    {
      facts, entities, sessions, sessionFacts, sessionEntities := map[], map[], map[], map[], map[];
      store, Repr := EMPTY, {};
    }

    method CreateFact(id: nat, fact: Fact) returns (ok: bool)
      requires Valid()
      modifies this
      ensures Valid() && Repr == old(Repr)
      ensures ok <==> id !in old(store.facts)
      ensures store == if ok then old(store).(facts := old(store.facts)[id := fact]) else old(store)
    {
      if id in facts {
        return false;
      }
      facts := facts[id := fact];
      store := store.(facts := facts);
      return true;
    }

    method FindFactByContent(userID: int, content: string) returns (found: Option<nat>)
      requires Valid()
      ensures found.Some? ==> IsFact(store.facts, found.value, userID, content)
      ensures found.None? ==> FactWith(store.facts, userID, content).None?
    {
      var ids := InSomeOrder(facts.Keys);
      for i := 0 to |ids|
        invariant forall k :: 0 <= k < i ==> !IsFact(facts, ids[k], userID, content)
      {
        assert ids[i] in Elements(ids);
        if facts[ids[i]].userID == userID && facts[ids[i]].content == content {
          return Some(ids[i]);
        }
      }
      forall id ensures !IsFact(facts, id, userID, content) {
        if id in facts {
          assert id in Elements(ids);
        }
      }
      return None;
    }

    /** Every entity of this user and name is refused; an identifier already in use is not. */
    method CreateEntity(entity: Entity) returns (ok: bool)
      requires Valid()
      modifies this, entity
      ensures Valid() && Repr == old(Repr) + {entity}
      ensures ok <==> EntityWith(old(store.entities), entity.userID, entity.name).None?
      ensures entity.View() == if ok then WithAttributes(old(entity.View())) else old(entity.View())
      ensures store == if ok then old(store).(entities := old(store.entities)[entity.id := entity.View()])
                       else old(store)
    {
      var found := FindEntity(entity.userID, entity.name);
      Repr := Repr + {entity};
      if found.Some? {
        return false;
      }
      if entity.attributes.None? {
        entity.attributes := Some(map[]);
      }
      entities := entities[entity.id := entity];
      store := store.(entities := store.entities[entity.id := entity.View()]);
      return true;
    }

    /** GetEntityByName: the object itself is entities[found.value]. */
    method FindEntity(userID: int, name: string) returns (found: Option<nat>)
      requires Valid()
      ensures found.Some? ==> IsEntity(store.entities, found.value, userID, name)
      ensures found.None? ==> EntityWith(store.entities, userID, name).None?
    {
      var ids := InSomeOrder(entities.Keys);
      for i := 0 to |ids|
        invariant forall k :: 0 <= k < i ==> !IsEntity(store.entities, ids[k], userID, name)
      {
        assert ids[i] in Elements(ids) && entities[ids[i]].View() == store.entities[ids[i]];
        if entities[ids[i]].userID == userID && entities[ids[i]].name == name {
          return Some(ids[i]);
        }
      }
      forall id ensures !IsEntity(store.entities, id, userID, name) {
        if id in entities {
          assert id in Elements(ids);
        }
      }
      return None;
    }

    /** Any object may be put in the place of the stored one; as a rule it is the stored one itself,
        which its holder has been changing. */
    method UpdateEntity(entity: Entity) returns (ok: bool)
      requires ValidBut(Some(entity.id))
      modifies this
      ensures Valid() && Repr == old(Repr) + {entity}
      ensures ok <==> entity.id in old(store.entities)
      ensures entities == if ok then old(entities)[entity.id := entity] else old(entities)
      ensures store == if ok then old(store).(entities := old(store.entities)[entity.id := entity.View()])
                       else old(store)
    {
      Repr := Repr + {entity};
      if entity.id !in entities {
        return false;
      }
      entities := entities[entity.id := entity];
      store := store.(entities := store.entities[entity.id := entity.View()]);
      return true;
    }

    method CreateSession(id: nat, session: Session) returns (ok: bool)
      requires Valid()
      modifies this
      ensures Valid() && Repr == old(Repr)
      ensures ok <==> id !in old(store.sessions)
      ensures store == if ok then old(store).(sessions := old(store.sessions)[id := session]) else old(store)
    {
      if id in sessions {
        return false;
      }
      sessions := sessions[id := session];
      store := store.(sessions := sessions);
      return true;
    }

    method AddFactToSession(sessionID: nat, factID: nat)
      requires Valid()
      modifies this
      ensures Valid() && Repr == old(Repr)
      ensures store == old(store).(sessionFacts := AddLink(old(store.sessionFacts), sessionID, factID))
    {
      sessionFacts := WithLink(sessionFacts, sessionID, factID);
      store := store.(sessionFacts := sessionFacts);
    }

    method AddEntityToSession(sessionID: nat, entityID: nat)
      requires Valid()
      modifies this
      ensures Valid() && Repr == old(Repr)
      ensures store == old(store).(sessionEntities := AddLink(old(store.sessionEntities), sessionID, entityID))
    {
      sessionEntities := WithLink(sessionEntities, sessionID, entityID);
      store := store.(sessionEntities := sessionEntities);
    }

    method SearchFacts(userID: int, query: string) returns (found: seq<nat>)
      requires Valid()
      ensures Distinct(found)
      ensures forall id :: id in found <==> Matches(store.facts, id, userID, query)
    {
      var ids := InSomeOrder(facts.Keys);
      var queryLower := ToLower(query);
      found := [];
      hide ToLower;
      for i := 0 to |ids|
        invariant forall id :: id in found <==> id in ids[..i] && Matches(facts, id, userID, query)
        invariant Distinct(found)
      {
        assert ids[i] in Elements(ids) && ids[i] !in ids[..i] && ids[..i + 1] == ids[..i] + [ids[i]];
        if facts[ids[i]].userID == userID && Contains(ToLower(facts[ids[i]].content), queryLower) {
          found := found + [ids[i]];
        }
      }
      assert ids[..|ids|] == ids;
      forall id ensures id in facts ==> id in ids {
        assert id in facts ==> id in Elements(ids);
      }
    }

    /** GetFactsByUser. A limit of zero or less means no limit. */
    method GetFactsByUser(userID: int, limit: int) returns (result: seq<Fact>)
      requires Valid()
      ensures NewestFirst(store.facts, userID, limit, result)
    {
      var ids := InSomeOrder(facts.Keys);
      var own := [];
      for i := 0 to |ids|
        invariant forall id :: id in own <==> id in ids[..i] && facts[id].userID == userID
        invariant forall id :: id in ids[..i] ==> id in facts
        invariant Distinct(own)
      {
        assert ids[i] in Elements(ids) && ids[i] !in ids[..i] && ids[..i + 1] == ids[..i] + [ids[i]];
        if facts[ids[i]].userID == userID {
          own := own + [ids[i]];
        }
      }
      assert ids[..|ids|] == ids;
      forall id ensures id in own <==> id in facts && facts[id].userID == userID {
        assert id in Elements(ids) <==> id in facts;
      }
      var stored := facts;
      var sorted := new Fact[|own|](i requires 0 <= i < |own| && own[i] in stored => stored[own[i]]);
      assert sorted[..] == Keys(own, FactAt(stored));
      ExchangeSort(sorted, ExtractedAt);
      assert IsUserOrder(stored, userID, own);
      assert IsSortOf(Keys(own, FactAt(stored)), sorted[..], ExtractedAt);
      result := if limit > 0 && sorted.Length > limit then sorted[..limit] else sorted[..];
      assert IsNewest(stored, userID, limit, own, sorted[..], result);
    }
  }

  /** The user's fact mentions the query, whatever the letter case. */
  ghost predicate Matches(facts: Facts, id: nat, userID: int, query: string) {
    id in facts && facts[id].userID == userID && Contains(ToLower(facts[id].content), ToLower(query))
  }

  /** The query stands in the content, letter by letter but for case, from this place on. */
  ghost predicate StandsIn(content: string, query: string, i: int) {
    0 <= i <= |content| - |query| && SameButForCase(content[i..i + |query|], query)
  }

  /** Exactly the user's facts in whose content the query stands, in any mixture of letter case. */
  lemma MatchesIff(facts: Facts, id: nat, userID: int, query: string)
    ensures Matches(facts, id, userID, query) <==>
            id in facts && facts[id].userID == userID && exists i :: StandsIn(facts[id].content, query, i)
  {
    if id in facts {
      var content := facts[id].content;
      hide ToLower, SameButForCase;
      forall i | 0 <= i <= |content| - |query|
        ensures OccursAt(ToLower(content), ToLower(query), i) <==> StandsIn(content, query, i)
      {
        assert ToLower(content)[i..i + |query|] == ToLower(content[i..i + |query|]);
        TextsLoweredAlikeIff(content[i..i + |query|], query);
      }
    }
  }

  /** So no change of letter case, in the query or in the content, changes what is found. */
  lemma MatchesIgnoresCase(facts: Facts, id: nat, userID: int, query: string, other: string, content: string)
    requires SameButForCase(query, other)
    requires id in facts && SameButForCase(facts[id].content, content)
    ensures Matches(facts, id, userID, query) <==> Matches(facts, id, userID, other)
    ensures Matches(facts, id, userID, query) <==>
            Matches(facts[id := facts[id].(content := content)], id, userID, query)
  {
    TextsLoweredAlikeIff(query, other);
    TextsLoweredAlikeIff(facts[id].content, content);
  }

  /** The linear scan for a duplicate, then append. */
  method WithLink(links: map<nat, seq<nat>>, sessionID: nat, id: nat) returns (r: map<nat, seq<nat>>)
    ensures r == AddLink(links, sessionID, id)
  {
    var link := if sessionID in links then links[sessionID] else [];
    for i := 0 to |link|
      invariant id !in link[..i]
    {
      if link[i] == id {
        return links;
      }
    }
    assert link[..|link|] == link;
    return links[sessionID := link + [id]];
  }

  function ExtractedAt(f: Fact): real {
    f.extractedAt as real
  }

  ghost function FactAt(facts: Facts): nat -> Fact {
    (id: nat) => if id in facts then facts[id] else Fact(0, "", "", 0.0, 0)
  }

  ghost predicate IsUserOrder(facts: Facts, userID: int, ids: seq<nat>) {
    Distinct(ids) && forall id :: id in ids <==> id in facts && facts[id].userID == userID
  }

  /** All of the user's facts, newest first, or the limit newest. */
  ghost predicate NewestFirst(facts: Facts, userID: int, limit: int, result: seq<Fact>) {
    exists ids, sorted :: IsNewest(facts, userID, limit, ids, sorted, result)
  }

  ghost predicate IsNewest(facts: Facts, userID: int, limit: int, ids: seq<nat>, sorted: seq<Fact>, result: seq<Fact>) {
    && IsUserOrder(facts, userID, ids)
    && IsSortOf(Keys(ids, FactAt(facts)), sorted, ExtractedAt)
    && result == if limit > 0 then Cut(sorted, limit) else sorted
  }

  ghost function FactsOf(facts: Facts, userID: int): set<nat> {
    set id | id in facts && facts[id].userID == userID
  }

  lemma {:induction false} DistinctSize(ids: seq<nat>, all: set<nat>)
    requires Distinct(ids) && forall id :: id in ids <==> id in all
    ensures |ids| == |all|
  {
    if ids == [] {
      assert all == {};
    } else {
      var init, last := ids[..|ids| - 1], ids[|ids| - 1];
      assert ids == init + [last];
      DistinctSize(init, all - {last});
    }
  }

  /** All of the user's facts come back, or as many as the limit allows; each is one of the user's, and
      they come newest first. */
  lemma {:induction false} NewestFirstShape(facts: Facts, userID: int, limit: int, result: seq<Fact>)
    requires NewestFirst(facts, userID, limit, result)
    ensures |result| == if 0 < limit < |FactsOf(facts, userID)| then limit else |FactsOf(facts, userID)|
    ensures forall i, j :: 0 <= i < j < |result| ==> result[i].extractedAt >= result[j].extractedAt
    ensures forall f :: f in result ==> exists id :: id in FactsOf(facts, userID) && facts[id] == f
  {
    var ids: seq<nat>, sorted: seq<Fact> :| IsNewest(facts, userID, limit, ids, sorted, result);
    SortedFactsShape(facts, userID, ids, sorted);
    hide IsSortOf, IsUserOrder, FactsOf;
    assert forall i :: 0 <= i < |result| ==> result[i] == sorted[i];
    forall f | f in result ensures f in sorted {
      var i :| 0 <= i < |result| && result[i] == f;
      assert sorted[i] == f;
    }
  }

  lemma {:induction false} SortedFactsShape(facts: Facts, userID: int, ids: seq<nat>, sorted: seq<Fact>)
    requires IsUserOrder(facts, userID, ids) && IsSortOf(Keys(ids, FactAt(facts)), sorted, ExtractedAt)
    ensures |sorted| == |FactsOf(facts, userID)|
    ensures forall i, j :: 0 <= i < j < |sorted| ==> sorted[i].extractedAt >= sorted[j].extractedAt
    ensures forall f :: f in sorted ==> exists id :: id in FactsOf(facts, userID) && facts[id] == f
  {
    var all := Keys(ids, FactAt(facts));
    DistinctSize(ids, FactsOf(facts, userID));
    assert |sorted| == |multiset(sorted)| == |multiset(all)| == |ids|;
    forall i, j | 0 <= i < j < |sorted| ensures sorted[i].extractedAt >= sorted[j].extractedAt {
      assert Keys(sorted, ExtractedAt)[i] >= Keys(sorted, ExtractedAt)[j];
    }
    forall f | f in sorted ensures exists id :: id in FactsOf(facts, userID) && facts[id] == f {
      assert f in multiset(sorted) && f in multiset(all);
      var k :| 0 <= k < |all| && all[k] == f;
      assert ids[k] in ids;
    }
  }

  /** A fact of the user's that is not in the result is no newer than any that is. */
  lemma {:induction false} NewestFirstLeavesOutOlder(facts: Facts, userID: int, limit: int, result: seq<Fact>,
      id: nat, kept: Fact)
    requires NewestFirst(facts, userID, limit, result)
    requires id in facts && facts[id].userID == userID && facts[id] !in result && kept in result
    ensures kept.extractedAt >= facts[id].extractedAt
  {
    var ids: seq<nat>, sorted: seq<Fact> :| IsNewest(facts, userID, limit, ids, sorted, result);
    var all := Keys(ids, FactAt(facts));
    var k :| 0 <= k < |ids| && ids[k] == id;
    assert all[k] == facts[id];
    assert facts[id] in multiset(all) && facts[id] in multiset(sorted);
    if limit > 0 {
      assert facts[id] !in multiset(Cut(sorted, limit));
      CutKeepsLargest(all, sorted, limit, ExtractedAt, kept, facts[id]);
    }
  }
}

/** Storing what a model extracted from a research answer. */
module WorldModelService {
  import opened MapIteration
  import opened Options
  import opened Text
  import opened WorldModelRepository
  import WorldModel

  method SaveFact(repo: Repository, userID: int, sessionID: nat, f: WorldModel.ExtractedFact, id: nat)
    requires repo.Valid() && WorldModel.FactsUnique(repo.store.facts) && id !in repo.store.facts
    modifies repo
    ensures repo.Valid() && repo.Repr == old(repo.Repr)
    ensures repo.store == WorldModel.SaveFact(old(repo.store), userID, sessionID, f, id)
  {
    if Blank(f.content) {
      return;
    }
    var existing := repo.FindFactByContent(userID, f.content);
    if existing.Some? {
      repo.AddFactToSession(sessionID, existing.value);
      return;
    }
    var ok := repo.CreateFact(id, WorldModel.Fact(userID, f.content, f.sourceURL, f.confidence, f.at));
    if !ok {
      return;
    }
    repo.AddFactToSession(sessionID, id);
  }

  /** The range loop over the new attributes, writing each into the stored map. */
  method MergeAttributes(existing: Entity, attributes: Option<map<string, string>>)
    requires existing.attributes.Some?
    modifies existing`attributes
    ensures existing.attributes == Some(old(existing.attributes.value) + WorldModel.OrEmpty(attributes))
  {
    var extra := if attributes.Some? then attributes.value else map[];
    var keys := InSomeOrder(extra.Keys);
    ghost var before := existing.attributes.value;
    for i := 0 to |keys|
      invariant existing.attributes.Some?
      invariant forall k :: k in existing.attributes.value <==> k in before || k in keys[..i]
      invariant forall k :: k in keys[..i] ==> k in extra && existing.attributes.value[k] == extra[k]
      invariant forall k :: k in before && k !in keys[..i] ==> existing.attributes.value[k] == before[k]
    {
      assert keys[i] in Elements(keys) && keys[..i + 1] == keys[..i] + [keys[i]];
      existing.attributes := Some(existing.attributes.value[keys[i] := extra[keys[i]]]);
    }
    assert keys[..|keys|] == keys;
    forall k ensures k in keys <==> k in extra {
      assert k in Elements(keys) <==> k in extra;
    }
    assert existing.attributes.value == before + extra;
  }

  method SaveEntity(repo: Repository, userID: int, sessionID: nat, e: WorldModel.ExtractedEntity, id: nat)
    requires repo.Valid() && id !in repo.store.entities
    requires WorldModel.EntitiesUnique(repo.store.entities) && WorldModel.AttributesPresent(repo.store.entities)
    modifies repo, repo.Repr
    ensures repo.Valid() && fresh(repo.Repr - old(repo.Repr))
    ensures repo.store == WorldModel.SaveEntity(old(repo.store), userID, sessionID, e, id)
  {
    if Blank(e.name) || !WorldModel.ValidType(e.entityType) {
      return;
    }
    var found := repo.FindEntity(userID, e.name);
    if found.Some? {
      WorldModel.TheEntity(repo.store.entities, found.value, userID, e.name);
      UpdateExisting(repo, found.value, e);
      repo.AddEntityToSession(sessionID, found.value);
      return;
    }
    CreateNew(repo, userID, e, id);
    repo.AddEntityToSession(sessionID, id);
  }

  /** Creation cannot be refused: no entity of this name was found. */
  method CreateNew(repo: Repository, userID: int, e: WorldModel.ExtractedEntity, id: nat)
    requires repo.Valid() && WorldModel.EntityWith(repo.store.entities, userID, e.name).None?
    modifies repo
    ensures repo.Valid() && fresh(repo.Repr - old(repo.Repr))
    ensures repo.store ==
            old(repo.store).(entities := old(repo.store.entities)[id := WorldModel.Mentioned(None, userID, e)])
  {
    var entity := new Entity(id, WorldModel.Mentioned(None, userID, e));
    var ok := repo.CreateEntity(entity);
    assert ok;
  }

  /** Changes the stored object in place, then hands it back to the repository. */
  method UpdateExisting(repo: Repository, id: nat, e: WorldModel.ExtractedEntity)
    requires repo.Valid() && id in repo.store.entities && repo.store.entities[id].attributes.Some?
    modifies repo, repo.Repr
    ensures repo.Valid() && repo.Repr == old(repo.Repr)
    ensures var before := old(repo.store.entities)[id];
            var view := WorldModel.Mentioned(Some(before), before.userID, e);
            repo.store == old(repo.store).(entities := old(repo.store.entities)[id := view])
  {
    var existing := repo.entities[id];
    assert existing.View() == repo.store.entities[id];
    MergeAttributes(existing, e.attributes);
    existing.lastSeenAt := e.at;
    assert repo.ValidBut(Some(id));
    var ok := repo.UpdateEntity(existing);
  }

  /** The reply is None when the model failed or its reply could not be parsed; the session is kept even
      then. Item k of the answer draws the identifier base + 1 + k. */
  method ExtractAndStore(repo: Repository, e: WorldModel.Event, base: nat) returns (ok: bool)
    requires repo.Valid() && WorldModel.Inv(repo.store) && WorldModel.Below(repo.store, base)
    modifies repo, repo.Repr
    ensures repo.Valid() && fresh(repo.Repr - old(repo.Repr))
    ensures ok <==> e.reply.Some?
    ensures repo.store == WorldModel.ExtractAndStore(old(repo.store), e, base)
    ensures WorldModel.Inv(repo.store) && WorldModel.Below(repo.store, base + WorldModel.Width(e))
  {
    WorldModel.OpenSessionKeepsInv(repo.store, e, base);
    WorldModel.ExtractAndStoreKeepsInv(repo.store, e, base);
    var created := repo.CreateSession(base, WorldModel.Session(e.userID, e.question, e.at));
    if !created || e.reply.None? {
      return false;
    }
    SaveAllFacts(repo, e.userID, base, e.reply.value.facts, base + 1);
    SaveAllEntities(repo, e.userID, base, e.reply.value.entities, base + 1 + |e.reply.value.facts|);
    return true;
  }

  method SaveAllFacts(repo: Repository, userID: int, sessionID: nat, fs: seq<WorldModel.ExtractedFact>, base: nat)
    requires repo.Valid() && WorldModel.Inv(repo.store) && WorldModel.Below(repo.store, base)
    requires WorldModel.OwnSession(repo.store, sessionID, userID)
    modifies repo
    ensures repo.Valid() && repo.Repr == old(repo.Repr)
    ensures repo.store == WorldModel.SaveFacts(old(repo.store), userID, sessionID, fs, base)
    ensures WorldModel.Inv(repo.store) && WorldModel.Below(repo.store, base + |fs|)
    ensures WorldModel.OwnSession(repo.store, sessionID, userID)
  {
    ghost var before := repo.store;
    for i := 0 to |fs|
      invariant repo.Valid() && repo.Repr == old(repo.Repr)
      invariant repo.store == WorldModel.SaveFacts(before, userID, sessionID, fs[..i], base)
    {
      WorldModel.SaveFactsKeepsInv(before, userID, sessionID, fs[..i], base);
      assert fs[..i + 1][..i] == fs[..i];
      SaveFact(repo, userID, sessionID, fs[i], base + i);
    }
    assert fs[..|fs|] == fs;
    WorldModel.SaveFactsKeepsInv(before, userID, sessionID, fs, base);
  }

  method SaveAllEntities(repo: Repository, userID: int, sessionID: nat, es: seq<WorldModel.ExtractedEntity>, base: nat)
    requires repo.Valid() && WorldModel.Inv(repo.store) && WorldModel.Below(repo.store, base)
    requires WorldModel.OwnSession(repo.store, sessionID, userID)
    modifies repo, repo.Repr
    ensures repo.Valid() && fresh(repo.Repr - old(repo.Repr))
    ensures repo.store == WorldModel.SaveEntities(old(repo.store), userID, sessionID, es, base)
  {
    ghost var before := repo.store;
    for i := 0 to |es|
      invariant repo.Valid() && fresh(repo.Repr - old(repo.Repr))
      invariant repo.store == WorldModel.SaveEntities(before, userID, sessionID, es[..i], base)
    {
      WorldModel.SaveEntitiesKeepsInv(before, userID, sessionID, es[..i], base);
      assert es[..i + 1][..i] == es[..i];
      SaveEntity(repo, userID, sessionID, es[i], base + i);
    }
    assert es[..|es|] == es;
  }
}
