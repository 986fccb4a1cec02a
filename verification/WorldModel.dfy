/** What the bot remembers of a user's research: facts, entities and the sessions that mention them.

    Operations come one after another; the clock and the identifiers that uuid.New would draw are
    parameters, and no identifier is drawn twice. */
module WorldModel {
  import opened MapIteration
  import opened Options
  import opened Text

  datatype Fact = Fact(userID: int, content: string, sourceURL: string, confidence: real, extractedAt: int)

  /** attributes is None for a nil map. */
  datatype EntityView = EntityView(
    userID: int, name: string, entityType: string, attributes: Option<map<string, string>>,
    firstSeenAt: int, lastSeenAt: int)

  datatype Session = Session(userID: int, question: string, createdAt: int)

  datatype ExtractedFact = ExtractedFact(content: string, sourceURL: string, confidence: real, at: int)

  datatype ExtractedEntity = ExtractedEntity(name: string, entityType: string,
      attributes: Option<map<string, string>>, at: int)

  datatype Extraction = Extraction(facts: seq<ExtractedFact>, entities: seq<ExtractedEntity>)

  /** Everything the repository holds, as values. */
  datatype Store = Store(
    facts: Facts,
    entities: Entities,
    sessions: map<nat, Session>,
    sessionFacts: map<nat, seq<nat>>,
    sessionEntities: map<nat, seq<nat>>)

  const EMPTY := Store(map[], map[], map[], map[], map[])

  predicate ValidType(entityType: string) {
    entityType in {"company", "person", "concept", "product", "market"}
  }

  // ---------------------------------------------------------------- operations on values

  function LinksOf(links: map<nat, seq<nat>>, sessionID: nat): seq<nat> {
    if sessionID in links then links[sessionID] else []
  }

  function AddLink(links: map<nat, seq<nat>>, sessionID: nat, id: nat): map<nat, seq<nat>> {
    if id in LinksOf(links, sessionID) then links
    else links[sessionID := LinksOf(links, sessionID) + [id]]
  }

  type Facts = map<nat, Fact>
  type Entities = map<nat, EntityView>

  ghost predicate IsFact(facts: Facts, id: nat, userID: int, content: string) {
    id in facts && facts[id].userID == userID && facts[id].content == content
  }

  ghost function FactWith(facts: Facts, userID: int, content: string): (r: Option<nat>)
    ensures r.Some? ==> IsFact(facts, r.value, userID, content)
    ensures r.None? ==> !exists id :: IsFact(facts, id, userID, content)
  {
    if exists id :: IsFact(facts, id, userID, content)
    then var id :| IsFact(facts, id, userID, content); Some(id) else None
  }

  ghost predicate IsEntity(entities: Entities, id: nat, userID: int, name: string) {
    id in entities && entities[id].userID == userID && entities[id].name == name
  }

  ghost function EntityWith(entities: Entities, userID: int, name: string): (r: Option<nat>)
    ensures r.Some? ==> IsEntity(entities, r.value, userID, name)
    ensures r.None? ==> !exists id :: IsEntity(entities, id, userID, name)
  {
    if exists id :: IsEntity(entities, id, userID, name)
    then var id :| IsEntity(entities, id, userID, name); Some(id) else None
  }

  function OrEmpty(attributes: Option<map<string, string>>): map<string, string> {
    if attributes.Some? then attributes.value else map[]
  }

  /** id is the identifier to use if a new fact is stored. */
  ghost function SaveFact(s: Store, userID: int, sessionID: nat, f: ExtractedFact, id: nat): Store {
    if Blank(f.content) then s
    else
      var found := FactWith(s.facts, userID, f.content);
      if found.Some? then s.(sessionFacts := AddLink(s.sessionFacts, sessionID, found.value))
      else
        s.(facts := s.facts[id := Fact(userID, f.content, f.sourceURL, f.confidence, f.at)],
           sessionFacts := AddLink(s.sessionFacts, sessionID, id))
  }

  /** What a mention makes of the entity stored before it, if any. */
  function Mentioned(before: Option<EntityView>, userID: int, e: ExtractedEntity): EntityView {
    if before.Some?
    then before.value.(attributes := Some(OrEmpty(before.value.attributes) + OrEmpty(e.attributes)), lastSeenAt := e.at)
    else EntityView(userID, e.name, e.entityType, Some(OrEmpty(e.attributes)), e.at, e.at)
  }

  predicate Storable(e: ExtractedEntity) {
    !Blank(e.name) && ValidType(e.entityType)
  }

  ghost function EntityOf(entities: Entities, userID: int, name: string): Option<EntityView> {
    var found := EntityWith(entities, userID, name);
    if found.Some? then Some(entities[found.value]) else None
  }

  ghost function FactOf(facts: Facts, userID: int, content: string): Option<Fact> {
    var found := FactWith(facts, userID, content);
    if found.Some? then Some(facts[found.value]) else None
  }

  /** The entity a mention is about: the stored one of that name, or a new one. */
  ghost function Target(entities: Entities, userID: int, name: string, id: nat): nat {
    var found := EntityWith(entities, userID, name);
    if found.Some? then found.value else id
  }

  ghost function SaveEntity(s: Store, userID: int, sessionID: nat, e: ExtractedEntity, id: nat): Store {
    if !Storable(e) then s
    else
      var target := Target(s.entities, userID, e.name, id);
      s.(entities := s.entities[target := Mentioned(EntityOf(s.entities, userID, e.name), userID, e)],
         sessionEntities := AddLink(s.sessionEntities, sessionID, target))
  }

  /** The k-th item draws the identifier base + k. */
  ghost function SaveFacts(s: Store, userID: int, sessionID: nat, fs: seq<ExtractedFact>, base: nat): Store {
    if fs == [] then s
    else
      var init := fs[..|fs| - 1];
      SaveFact(SaveFacts(s, userID, sessionID, init, base), userID, sessionID, fs[|fs| - 1], base + |init|)
  }

  ghost function SaveEntities(s: Store, userID: int, sessionID: nat, es: seq<ExtractedEntity>, base: nat): Store {
    if es == [] then s
    else
      var init := es[..|es| - 1];
      SaveEntity(SaveEntities(s, userID, sessionID, init, base), userID, sessionID, es[|es| - 1], base + |init|)
  }

  /** One research answer. reply is None when the model failed or its reply could not be parsed. */
  datatype Event = Event(userID: int, question: string, at: int, reply: Option<Extraction>)

  /** How many identifiers an event may draw: one for the session and one for each item. */
  function Width(e: Event): nat {
    1 + if e.reply.Some? then |e.reply.value.facts| + |e.reply.value.entities| else 0
  }

  function OpenSession(s: Store, e: Event, id: nat): Store {
    s.(sessions := s.sessions[id := Session(e.userID, e.question, e.at)])
  }

  ghost function ExtractAndStore(s: Store, e: Event, base: nat): Store {
    var started := OpenSession(s, e, base);
    if e.reply.None? then started
    else
      var x := e.reply.value;
      SaveEntities(SaveFacts(started, e.userID, base, x.facts, base + 1), e.userID, base, x.entities,
          base + 1 + |x.facts|)
  }

  function Drawn(events: seq<Event>): nat {
    if events == [] then 0 else Drawn(events[..|events| - 1]) + Width(events[|events| - 1])
  }

  /** The store after a run from the empty repository. */
  ghost function After(events: seq<Event>): Store {
    if events == [] then EMPTY
    else ExtractAndStore(After(events[..|events| - 1]), events[|events| - 1], Drawn(events[..|events| - 1]))
  }

  // ---------------------------------------------------------------- what every run keeps

  ghost predicate FactsUnique(facts: Facts) {
    forall i, j, userID, content :: IsFact(facts, i, userID, content) && IsFact(facts, j, userID, content) ==> i == j
  }

  ghost predicate EntitiesUnique(entities: Entities) {
    forall i, j, userID, name :: IsEntity(entities, i, userID, name) && IsEntity(entities, j, userID, name) ==> i == j
  }

  /** No stored attribute map is nil, so merging never writes to a nil map. */
  ghost predicate AttributesPresent(entities: Entities) {
    forall id :: id in entities ==> entities[id].attributes.Some?
  }

  ghost predicate FactLinksSound(links: map<nat, seq<nat>>, facts: Facts, sessions: map<nat, Session>) {
    forall sid :: sid in links ==> sid in sessions && FactLinkSound(links[sid], facts, sessions[sid].userID)
  }

  ghost predicate FactLinkSound(link: seq<nat>, facts: Facts, userID: int) {
    Distinct(link) && forall id :: id in link ==> id in facts && facts[id].userID == userID
  }

  ghost predicate EntityLinksSound(links: map<nat, seq<nat>>, entities: Entities, sessions: map<nat, Session>) {
    forall sid :: sid in links ==> sid in sessions && EntityLinkSound(links[sid], entities, sessions[sid].userID)
  }

  ghost predicate EntityLinkSound(link: seq<nat>, entities: Entities, userID: int) {
    Distinct(link) && forall id :: id in link ==> id in entities && entities[id].userID == userID
  }

  ghost predicate Below(s: Store, bound: nat) {
    && (forall id :: id in s.facts ==> id < bound)
    && (forall id :: id in s.entities ==> id < bound)
    && (forall id :: id in s.sessions ==> id < bound)
  }

  ghost predicate Inv(s: Store) {
    && FactsUnique(s.facts)
    && EntitiesUnique(s.entities)
    && AttributesPresent(s.entities)
    && FactLinksSound(s.sessionFacts, s.facts, s.sessions)
    && EntityLinksSound(s.sessionEntities, s.entities, s.sessions)
  }

  ghost predicate OwnSession(s: Store, sessionID: nat, userID: int) {
    sessionID in s.sessions && s.sessions[sessionID].userID == userID
  }

  lemma NewFactKeepsUnique(facts: Facts, id: nat, fact: Fact)
    requires FactsUnique(facts) && id !in facts && FactWith(facts, fact.userID, fact.content).None?
    ensures FactsUnique(facts[id := fact])
  {
    var t := facts[id := fact];
    forall i, j, u, c | IsFact(t, i, u, c) && IsFact(t, j, u, c) ensures i == j {
      assert i != id ==> IsFact(facts, i, u, c);
      assert j != id ==> IsFact(facts, j, u, c);
    }
  }

  lemma NewFactKeepsLinks(links: map<nat, seq<nat>>, facts: Facts, sessions: map<nat, Session>, id: nat, fact: Fact)
    requires FactLinksSound(links, facts, sessions) && id !in facts
    ensures FactLinksSound(links, facts[id := fact], sessions)
  {
    forall sid | sid in links ensures FactLinkSound(links[sid], facts[id := fact], sessions[sid].userID) {
      assert FactLinkSound(links[sid], facts, sessions[sid].userID);
    }
  }

  lemma AddFactLink(links: map<nat, seq<nat>>, facts: Facts, sessions: map<nat, Session>, sessionID: nat, id: nat)
    requires FactLinksSound(links, facts, sessions)
    requires sessionID in sessions && id in facts && facts[id].userID == sessions[sessionID].userID
    ensures FactLinksSound(AddLink(links, sessionID, id), facts, sessions)
  {
    assert sessionID in links ==> FactLinkSound(links[sessionID], facts, sessions[sessionID].userID);
  }

  lemma SaveFactKeepsInv(s: Store, userID: int, sessionID: nat, f: ExtractedFact, id: nat)
    requires Inv(s) && OwnSession(s, sessionID, userID) && Below(s, id)
    ensures var t := SaveFact(s, userID, sessionID, f, id);
            Inv(t) && Below(t, id + 1)
            && t.entities == s.entities && t.sessions == s.sessions && t.sessionEntities == s.sessionEntities
  {
    if !Blank(f.content) {
      var found := FactWith(s.facts, userID, f.content);
      if found.Some? {
        AddFactLink(s.sessionFacts, s.facts, s.sessions, sessionID, found.value);
      } else {
        var fact := Fact(userID, f.content, f.sourceURL, f.confidence, f.at);
        NewFactKeepsUnique(s.facts, id, fact);
        NewFactKeepsLinks(s.sessionFacts, s.facts, s.sessions, id, fact);
        AddFactLink(s.sessionFacts, s.facts[id := fact], s.sessions, sessionID, id);
      }
    }
  }

  lemma MentionKeepsUnique(entities: Entities, userID: int, e: ExtractedEntity, id: nat)
    requires EntitiesUnique(entities) && AttributesPresent(entities) && id !in entities
    ensures var view := Mentioned(EntityOf(entities, userID, e.name), userID, e);
            var t := entities[Target(entities, userID, e.name, id) := view];
            EntitiesUnique(t) && AttributesPresent(t)
  {
    var target := Target(entities, userID, e.name, id);
    var t := entities[target := Mentioned(EntityOf(entities, userID, e.name), userID, e)];
    forall i, j, u, n | IsEntity(t, i, u, n) && IsEntity(t, j, u, n) ensures i == j {
      assert i != id ==> IsEntity(entities, i, u, n);
      assert j != id ==> IsEntity(entities, j, u, n);
    }
  }

  lemma MentionKeepsLinks(links: map<nat, seq<nat>>, entities: Entities, sessions: map<nat, Session>, id: nat,
      e: EntityView)
    requires EntityLinksSound(links, entities, sessions) && (id in entities ==> e.userID == entities[id].userID)
    ensures EntityLinksSound(links, entities[id := e], sessions)
  {
    forall sid | sid in links ensures EntityLinkSound(links[sid], entities[id := e], sessions[sid].userID) {
      assert EntityLinkSound(links[sid], entities, sessions[sid].userID);
    }
  }

  lemma AddEntityLink(links: map<nat, seq<nat>>, entities: Entities, sessions: map<nat, Session>, sessionID: nat,
      id: nat)
    requires EntityLinksSound(links, entities, sessions)
    requires sessionID in sessions && id in entities && entities[id].userID == sessions[sessionID].userID
    ensures EntityLinksSound(AddLink(links, sessionID, id), entities, sessions)
  {
    assert sessionID in links ==> EntityLinkSound(links[sessionID], entities, sessions[sessionID].userID);
  }

  lemma SaveEntityKeepsInv(s: Store, userID: int, sessionID: nat, e: ExtractedEntity, id: nat)
    requires Inv(s) && OwnSession(s, sessionID, userID) && Below(s, id)
    ensures var t := SaveEntity(s, userID, sessionID, e, id);
            Inv(t) && Below(t, id + 1)
            && t.facts == s.facts && t.sessions == s.sessions && t.sessionFacts == s.sessionFacts
  {
    if Storable(e) {
      var target := Target(s.entities, userID, e.name, id);
      var view := Mentioned(EntityOf(s.entities, userID, e.name), userID, e);
      MentionKeepsUnique(s.entities, userID, e, id);
      MentionKeepsLinks(s.sessionEntities, s.entities, s.sessions, target, view);
      AddEntityLink(s.sessionEntities, s.entities[target := view], s.sessions, sessionID, target);
    }
  }

  lemma {:induction false} SaveFactsKeepsInv(s: Store, userID: int, sessionID: nat, fs: seq<ExtractedFact>, base: nat)
    requires Inv(s) && OwnSession(s, sessionID, userID) && Below(s, base)
    ensures var t := SaveFacts(s, userID, sessionID, fs, base);
            Inv(t) && Below(t, base + |fs|)
            && t.entities == s.entities && t.sessions == s.sessions && t.sessionEntities == s.sessionEntities
  {
    if fs != [] {
      var init := fs[..|fs| - 1];
      SaveFactsKeepsInv(s, userID, sessionID, init, base);
      SaveFactKeepsInv(SaveFacts(s, userID, sessionID, init, base), userID, sessionID, fs[|fs| - 1], base + |init|);
    }
  }

  lemma {:induction false} SaveEntitiesKeepsInv(s: Store, userID: int, sessionID: nat, es: seq<ExtractedEntity>,
      base: nat)
    requires Inv(s) && OwnSession(s, sessionID, userID) && Below(s, base)
    ensures var t := SaveEntities(s, userID, sessionID, es, base);
            Inv(t) && Below(t, base + |es|)
            && t.facts == s.facts && t.sessions == s.sessions && t.sessionFacts == s.sessionFacts
  {
    if es != [] {
      var init := es[..|es| - 1];
      SaveEntitiesKeepsInv(s, userID, sessionID, init, base);
      SaveEntityKeepsInv(SaveEntities(s, userID, sessionID, init, base), userID, sessionID, es[|es| - 1],
          base + |init|);
    }
  }

  lemma OpenSessionKeepsInv(s: Store, e: Event, base: nat)
    requires Inv(s) && Below(s, base)
    ensures var t := OpenSession(s, e, base);
            Inv(t) && Below(t, base + 1) && OwnSession(t, base, e.userID)
  {
  }

  lemma ExtractAndStoreKeepsInv(s: Store, e: Event, base: nat)
    requires Inv(s) && Below(s, base)
    ensures Inv(ExtractAndStore(s, e, base)) && Below(ExtractAndStore(s, e, base), base + Width(e))
  {
    OpenSessionKeepsInv(s, e, base);
    if e.reply.Some? {
      var x := e.reply.value;
      var started := OpenSession(s, e, base);
      SaveFactsKeepsInv(started, e.userID, base, x.facts, base + 1);
      SaveEntitiesKeepsInv(SaveFacts(started, e.userID, base, x.facts, base + 1), e.userID, base, x.entities,
          base + 1 + |x.facts|);
    }
  }

  /** Every run keeps facts unique by content and entities by name, for each user; every session links
      to stored items of its own user, none twice; and no stored attribute map is nil. */
  lemma {:induction false} RunsKeepInv(events: seq<Event>)
    ensures Inv(After(events)) && Below(After(events), Drawn(events))
  {
    if events != [] {
      var init := events[..|events| - 1];
      RunsKeepInv(init);
      ExtractAndStoreKeepsInv(After(init), events[|events| - 1], Drawn(init));
    }
  }

  // ---------------------------------------------------------------- what a stored entity remembers

  datatype Mention = Mention(entityType: string, attributes: map<string, string>, at: int)

  ghost function MentionsIn(es: seq<ExtractedEntity>, name: string): seq<Mention> {
    if es == [] then []
    else
      MentionsIn(es[..|es| - 1], name) + MentionIn(es[|es| - 1], name)
  }

  ghost function MentionsBy(e: Event, userID: int, name: string): seq<Mention> {
    if e.userID == userID && e.reply.Some? then MentionsIn(e.reply.value.entities, name) else []
  }

  /** Every valid extraction of this user's entity of this name, in order. */
  ghost function Mentions(events: seq<Event>, userID: int, name: string): seq<Mention> {
    if events == [] then []
    else Mentions(events[..|events| - 1], userID, name) + MentionsBy(events[|events| - 1], userID, name)
  }

  ghost function LaterWins(ms: seq<Mention>): map<string, string> {
    if ms == [] then map[] else LaterWins(ms[..|ms| - 1]) + ms[|ms| - 1].attributes
  }

  /** Type and first sight from the first mention, last sight from the last, attributes from all. */
  ghost function Summary(ms: seq<Mention>, userID: int, name: string): Option<EntityView> {
    if ms == [] then None
    else Some(EntityView(userID, name, ms[0].entityType, Some(LaterWins(ms)), ms[0].at, ms[|ms| - 1].at))
  }

  lemma SummarySnoc(ms: seq<Mention>, userID: int, e: ExtractedEntity)
    ensures Summary(ms + [Mention(e.entityType, OrEmpty(e.attributes), e.at)], userID, e.name) ==
            Some(Mentioned(Summary(ms, userID, e.name), userID, e))
  {
    var m := Mention(e.entityType, OrEmpty(e.attributes), e.at);
    assert (ms + [m])[..|ms|] == ms && (ms + [m])[|ms|] == m;
    assert LaterWins(ms + [m]) == LaterWins(ms) + m.attributes;
    if ms == [] {
      assert LaterWins(ms) + m.attributes == m.attributes;
    } else {
      assert (ms + [m])[0] == ms[0];
    }
  }

  lemma TheEntity(entities: Entities, id: nat, userID: int, name: string)
    requires EntitiesUnique(entities) && IsEntity(entities, id, userID, name)
    ensures EntityWith(entities, userID, name) == Some(id)
  {
  }

  /** A mention changes what is stored under its own user and name and nothing else. */
  lemma MentionEffect(entities: Entities, userID: int, e: ExtractedEntity, id: nat, u: int, n: string)
    requires EntitiesUnique(entities) && AttributesPresent(entities) && id !in entities
    ensures var view := Mentioned(EntityOf(entities, userID, e.name), userID, e);
            EntityOf(entities[Target(entities, userID, e.name, id) := view], u, n) ==
            if u == userID && n == e.name then Some(view) else EntityOf(entities, u, n)
  {
    var target := Target(entities, userID, e.name, id);
    var t := entities[target := Mentioned(EntityOf(entities, userID, e.name), userID, e)];
    MentionKeepsUnique(entities, userID, e, id);
    if u == userID && n == e.name {
      TheEntity(t, target, u, n);
    } else {
      forall i ensures IsEntity(t, i, u, n) <==> IsEntity(entities, i, u, n) {}
      var found := EntityWith(entities, u, n);
      if found.Some? {
        TheEntity(t, found.value, u, n);
      }
    }
  }

  ghost function MentionIn(e: ExtractedEntity, name: string): seq<Mention> {
    if Storable(e) && e.name == name then [Mention(e.entityType, OrEmpty(e.attributes), e.at)] else []
  }

  /** The entity stored for this user and name sums up these mentions. */
  ghost predicate Remembers(entities: Entities, ms: seq<Mention>, u: int, n: string) {
    EntityOf(entities, u, n) == Summary(ms, u, n)
  }

  ghost function OwnMentions(es: seq<ExtractedEntity>, userID: int, u: int, n: string): seq<Mention> {
    if u == userID then MentionsIn(es, n) else []
  }

  lemma SaveEntityEffect(s: Store, userID: int, sessionID: nat, e: ExtractedEntity, id: nat, ms: seq<Mention>,
      u: int, n: string)
    requires EntitiesUnique(s.entities) && AttributesPresent(s.entities) && id !in s.entities
    requires Remembers(s.entities, ms, u, n)
    ensures Remembers(SaveEntity(s, userID, sessionID, e, id).entities,
                      ms + if u == userID then MentionIn(e, n) else [], u, n)
  {
    assert ms + [] == ms;
    if Storable(e) {
      MentionEffect(s.entities, userID, e, id, u, n);
      if u == userID && n == e.name {
        SummarySnoc(ms, u, e);
      }
    }
  }

  ghost predicate EntitiesReady(entities: Entities, base: nat) {
    EntitiesUnique(entities) && AttributesPresent(entities) && forall id :: id in entities ==> id < base
  }

  lemma {:induction false} SaveEntitiesStayReady(s: Store, userID: int, sessionID: nat, es: seq<ExtractedEntity>,
      base: nat)
    requires EntitiesReady(s.entities, base)
    ensures EntitiesReady(SaveEntities(s, userID, sessionID, es, base).entities, base + |es|)
    decreases |es|
  {
    if |es| > 0 {
      var init, e := es[..|es| - 1], es[|es| - 1];
      SaveEntitiesStayReady(s, userID, sessionID, init, base);
      var t := SaveEntities(s, userID, sessionID, init, base);
      MentionKeepsUnique(t.entities, userID, e, base + |init|);
    }
  }

  lemma {:induction false} SaveEntitiesEffect(s: Store, userID: int, sessionID: nat, es: seq<ExtractedEntity>,
      base: nat, ms: seq<Mention>, u: int, n: string)
    requires EntitiesReady(s.entities, base)
    requires Remembers(s.entities, ms, u, n)
    ensures Remembers(SaveEntities(s, userID, sessionID, es, base).entities, ms + OwnMentions(es, userID, u, n), u, n)
    decreases |es|
  {
    if |es| == 0 {
      assert ms + [] == ms;
    } else {
      var init, e := es[..|es| - 1], es[|es| - 1];
      assert SaveEntities(s, userID, sessionID, es, base) ==
             SaveEntity(SaveEntities(s, userID, sessionID, init, base), userID, sessionID, e, base + |init|);
      SaveEntitiesStayReady(s, userID, sessionID, init, base);
      var t := SaveEntities(s, userID, sessionID, init, base);
      assert EntitiesUnique(t.entities) && AttributesPresent(t.entities) && base + |init| !in t.entities;
      hide *;
      SaveEntitiesEffect(s, userID, sessionID, init, base, ms, u, n);
      SaveEntityEffect(t, userID, sessionID, e, base + |init|,
                       ms + OwnMentions(init, userID, u, n), u, n);
      OwnMentionsSnoc(ms, init, e, userID, u, n);
      assert init + [e] == es;
    }
  }

  lemma OwnMentionsSnoc(ms: seq<Mention>, init: seq<ExtractedEntity>, e: ExtractedEntity, userID: int, u: int,
      n: string)
    ensures ms + OwnMentions(init, userID, u, n) + (if u == userID then MentionIn(e, n) else []) ==
            ms + OwnMentions(init + [e], userID, u, n)
  {
    assert (init + [e])[..|init|] == init;
  }

  lemma EventEffect(s: Store, e: Event, base: nat, ms: seq<Mention>, u: int, n: string)
    requires Inv(s) && Below(s, base)
    requires Remembers(s.entities, ms, u, n)
    ensures Remembers(ExtractAndStore(s, e, base).entities, ms + MentionsBy(e, u, n), u, n)
  {
    var started := OpenSession(s, e, base);
    OpenSessionKeepsInv(s, e, base);
    assert ms + [] == ms;
    if e.reply.Some? {
      var x := e.reply.value;
      SaveFactsKeepsInv(started, e.userID, base, x.facts, base + 1);
      SaveEntitiesEffect(SaveFacts(started, e.userID, base, x.facts, base + 1), e.userID, base, x.entities,
                         base + 1 + |x.facts|, ms, u, n);
    }
  }

  /** After any run an entity is stored exactly when it was ever validly mentioned; its attributes are
      the later-wins fold of all mentions, its type and first sight those of the first and its last
      sight that of the last. */
  lemma {:induction false} StoredEntityIsSummary(events: seq<Event>, userID: int, name: string)
    ensures EntityOf(After(events).entities, userID, name) == Summary(Mentions(events, userID, name), userID, name)
  {
    if events != [] {
      var init := events[..|events| - 1];
      StoredEntityIsSummary(init, userID, name);
      RunsKeepInv(init);
      EventEffect(After(init), events[|events| - 1], Drawn(init), Mentions(init, userID, name), userID, name);
    }
  }

  lemma MentionsSnoc(events: seq<Event>, e: Event, userID: int, name: string)
    ensures Mentions(events + [e], userID, name) == Mentions(events, userID, name) + MentionsBy(e, userID, name)
  {
    assert (events + [e])[..|events|] == events;
  }

  ghost predicate InOrder(ms: seq<Mention>) {
    forall i, j :: 0 <= i < j < |ms| ==> ms[i].at <= ms[j].at
  }

  /** Once stored, an entity stays; its type and first sight never change and its last sight never
      goes back. */
  lemma EntitiesOnlyGrow(events: seq<Event>, e: Event, userID: int, name: string)
    requires InOrder(Mentions(events + [e], userID, name))
    requires EntityOf(After(events).entities, userID, name).Some?
    ensures var before := EntityOf(After(events).entities, userID, name);
            var after := EntityOf(After(events + [e]).entities, userID, name);
            && after.Some?
            && after.value.entityType == before.value.entityType
            && after.value.firstSeenAt == before.value.firstSeenAt
            && after.value.lastSeenAt >= before.value.lastSeenAt
  {
    StoredEntityIsSummary(events, userID, name);
    StoredEntityIsSummary(events + [e], userID, name);
    MentionsSnoc(events, e, userID, name);
    var ms, all := Mentions(events, userID, name), Mentions(events + [e], userID, name);
    assert all[0] == ms[0] && all[|ms| - 1] == ms[|ms| - 1];
  }

  // ---------------------------------------------------------------- what a stored fact remembers

  ghost function FactMentionsIn(fs: seq<ExtractedFact>, content: string): seq<ExtractedFact> {
    if fs == [] then []
    else
      var init, f := FactMentionsIn(fs[..|fs| - 1], content), fs[|fs| - 1];
      if !Blank(f.content) && f.content == content then init + [f] else init
  }

  ghost function FactMentionsBy(e: Event, userID: int, content: string): seq<ExtractedFact> {
    if e.userID == userID && e.reply.Some? then FactMentionsIn(e.reply.value.facts, content) else []
  }

  ghost function FactMentions(events: seq<Event>, userID: int, content: string): seq<ExtractedFact> {
    if events == [] then []
    else FactMentions(events[..|events| - 1], userID, content) + FactMentionsBy(events[|events| - 1], userID, content)
  }

  /** Only the first mention counts. */
  ghost function FirstMention(fs: seq<ExtractedFact>, userID: int, content: string): Option<Fact> {
    if fs == [] then None else Some(Fact(userID, content, fs[0].sourceURL, fs[0].confidence, fs[0].at))
  }

  lemma SaveFactEffect(s: Store, userID: int, sessionID: nat, f: ExtractedFact, id: nat, u: int, c: string)
    requires FactsUnique(s.facts) && id !in s.facts
    ensures FactOf(SaveFact(s, userID, sessionID, f, id).facts, u, c) ==
            if FactOf(s.facts, u, c).None? && !Blank(f.content) && u == userID && c == f.content
            then FirstMention([f], u, c) else FactOf(s.facts, u, c)
  {
    var t := SaveFact(s, userID, sessionID, f, id).facts;
    if t != s.facts {
      NewFactKeepsUnique(s.facts, id, t[id]);
      forall i | i != id ensures IsFact(t, i, u, c) <==> IsFact(s.facts, i, u, c) {}
      var found := FactWith(s.facts, u, c);
      if found.Some? {
        assert IsFact(t, found.value, u, c);
      } else if u == userID && c == f.content {
        assert IsFact(t, id, u, c);
      }
    }
  }

  lemma {:induction false} SaveFactsEffect(s: Store, userID: int, sessionID: nat, fs: seq<ExtractedFact>, base: nat,
      ms: seq<ExtractedFact>, u: int, c: string)
    requires Inv(s) && OwnSession(s, sessionID, userID) && Below(s, base)
    requires FactOf(s.facts, u, c) == FirstMention(ms, u, c)
    ensures FactOf(SaveFacts(s, userID, sessionID, fs, base).facts, u, c) ==
            FirstMention(ms + if u == userID then FactMentionsIn(fs, c) else [], u, c)
  {
    if fs == [] {
      assert ms + [] == ms;
    } else {
      var init, f := fs[..|fs| - 1], fs[|fs| - 1];
      SaveFactsEffect(s, userID, sessionID, init, base, ms, u, c);
      SaveFactsKeepsInv(s, userID, sessionID, init, base);
      SaveFactEffect(SaveFacts(s, userID, sessionID, init, base), userID, sessionID, f, base + |init|, u, c);
    }
  }

  lemma EventFactEffect(s: Store, e: Event, base: nat, ms: seq<ExtractedFact>, u: int, c: string)
    requires Inv(s) && Below(s, base)
    requires FactOf(s.facts, u, c) == FirstMention(ms, u, c)
    ensures FactOf(ExtractAndStore(s, e, base).facts, u, c) == FirstMention(ms + FactMentionsBy(e, u, c), u, c)
  {
    var started := OpenSession(s, e, base);
    OpenSessionKeepsInv(s, e, base);
    assert ms + [] == ms;
    if e.reply.Some? {
      var x := e.reply.value;
      SaveFactsEffect(started, e.userID, base, x.facts, base + 1, ms, u, c);
      SaveFactsKeepsInv(started, e.userID, base, x.facts, base + 1);
      SaveEntitiesKeepsInv(SaveFacts(started, e.userID, base, x.facts, base + 1), e.userID, base, x.entities,
          base + 1 + |x.facts|);
    }
  }

  /** After any run a fact is stored exactly when some mention of it was not blank, and it is as the
      first such mention had it. */
  lemma {:induction false} StoredFactIsFirstMention(events: seq<Event>, userID: int, content: string)
    ensures FactOf(After(events).facts, userID, content) ==
            FirstMention(FactMentions(events, userID, content), userID, content)
  {
    if events != [] {
      var init := events[..|events| - 1];
      StoredFactIsFirstMention(init, userID, content);
      RunsKeepInv(init);
      EventFactEffect(After(init), events[|events| - 1], Drawn(init), FactMentions(init, userID, content),
          userID, content);
    }
  }

  // ---------------------------------------------------------------- repeating an extraction

  /** The same items, seen again at other times. */
  ghost predicate SameItems(e: Event, again: Event) {
    && e.userID == again.userID && e.reply.Some? && again.reply.Some?
    && |e.reply.value.facts| == |again.reply.value.facts|
    && |e.reply.value.entities| == |again.reply.value.entities|
    && (forall k :: 0 <= k < |e.reply.value.facts| ==>
          e.reply.value.facts[k].content == again.reply.value.facts[k].content)
    && SameMentions(e.reply.value.entities, again.reply.value.entities)
  }

  ghost predicate SameMentions(es: seq<ExtractedEntity>, again: seq<ExtractedEntity>) {
    && |es| == |again|
    && (forall k :: 0 <= k < |es| ==>
          && es[k].name == again[k].name && es[k].entityType == again[k].entityType
          && es[k].attributes == again[k].attributes)
  }

  lemma {:induction false} FactMentionsFind(fs: seq<ExtractedFact>, k: nat)
    requires k < |fs| && !Blank(fs[k].content)
    ensures FactMentionsIn(fs, fs[k].content) != []
  {
    if k < |fs| - 1 {
      FactMentionsFind(fs[..|fs| - 1], k);
    }
  }

  lemma {:induction false} MentionsFind(es: seq<ExtractedEntity>, k: nat)
    requires k < |es| && Storable(es[k])
    ensures MentionsIn(es, es[k].name) != []
  {
    if k < |es| - 1 {
      MentionsFind(es[..|es| - 1], k);
    }
  }

  lemma {:induction false} SavingKnownFacts(s: Store, userID: int, sessionID: nat, fs: seq<ExtractedFact>, base: nat)
    requires forall f :: f in fs && !Blank(f.content) ==> FactWith(s.facts, userID, f.content).Some?
    ensures SaveFacts(s, userID, sessionID, fs, base).facts == s.facts
  {
    if fs != [] {
      SavingKnownFacts(s, userID, sessionID, fs[..|fs| - 1], base);
    }
  }

  lemma {:induction false} SavingKnownEntities(s: Store, userID: int, sessionID: nat, es: seq<ExtractedEntity>,
      base: nat)
    requires Inv(s) && OwnSession(s, sessionID, userID) && Below(s, base)
    requires forall e :: e in es && Storable(e) ==> EntityOf(s.entities, userID, e.name).Some?
    ensures SaveEntities(s, userID, sessionID, es, base).entities.Keys == s.entities.Keys
    ensures forall n :: EntityOf(s.entities, userID, n).Some? ==>
              EntityOf(SaveEntities(s, userID, sessionID, es, base).entities, userID, n).Some?
  {
    if es != [] {
      var init, e := es[..|es| - 1], es[|es| - 1];
      SavingKnownEntities(s, userID, sessionID, init, base);
      SaveEntitiesKeepsInv(s, userID, sessionID, init, base);
      var t := SaveEntities(s, userID, sessionID, init, base);
      if Storable(e) {
        forall n | EntityOf(t.entities, userID, n).Some?
          ensures EntityOf(SaveEntity(t, userID, sessionID, e, base + |init|).entities, userID, n).Some?
        {
          MentionEffect(t.entities, userID, e, base + |init|, userID, n);
        }
      }
    }
  }

  lemma {:induction false} RepeatedFactsAreKnown(run: seq<Event>, e: Event, again: Event)
    requires run != [] && run[|run| - 1] == e && SameItems(e, again)
    ensures forall f :: f in again.reply.value.facts && !Blank(f.content) ==>
              FactWith(After(run).facts, e.userID, f.content).Some?
  {
    var fs := again.reply.value.facts;
    forall f | f in fs && !Blank(f.content) ensures FactWith(After(run).facts, e.userID, f.content).Some? {
      var k :| 0 <= k < |fs| && fs[k] == f;
      FactMentionsFind(e.reply.value.facts, k);
      StoredFactIsFirstMention(run, e.userID, f.content);
    }
  }

  lemma {:induction false} RepeatedEntitiesAreKnown(run: seq<Event>, e: Event, again: Event)
    requires run != [] && run[|run| - 1] == e && SameItems(e, again)
    ensures forall m :: m in again.reply.value.entities && Storable(m) ==>
              EntityOf(After(run).entities, e.userID, m.name).Some?
  {
    var es := again.reply.value.entities;
    forall m | m in es && Storable(m) ensures EntityOf(After(run).entities, e.userID, m.name).Some? {
      var k :| 0 <= k < |es| && es[k] == m;
      MentionsFind(e.reply.value.entities, k);
      StoredEntityIsSummary(run, e.userID, m.name);
    }
  }

  /** Saving the items of an extraction a second time adds no facts and no entities. */
  lemma RepeatAddsNothing(events: seq<Event>, e: Event, again: Event)
    requires SameItems(e, again)
    ensures var once, twice := After(events + [e]), After(events + [e] + [again]);
            twice.facts == once.facts && twice.entities.Keys == once.entities.Keys
  {
    var run, x, user := events + [e], again.reply.value, again.userID;
    var base := Drawn(run);
    assert (run + [again])[..|run|] == run;
    RunsKeepInv(run);
    RepeatedFactsAreKnown(run, e, again);
    RepeatedEntitiesAreKnown(run, e, again);
    var started := OpenSession(After(run), again, base);
    OpenSessionKeepsInv(After(run), again, base);
    SavingKnownFacts(started, user, base, x.facts, base + 1);
    SaveFactsKeepsInv(started, user, base, x.facts, base + 1);
    var t := SaveFacts(started, user, base, x.facts, base + 1);
    SavingKnownEntities(t, user, base, x.entities, base + 1 + |x.facts|);
    SaveEntitiesKeepsInv(t, user, base, x.entities, base + 1 + |x.facts|);
  }

  lemma MergeAssociates(a: map<string, string>, b: map<string, string>, c: map<string, string>)
    ensures (a + b) + c == a + (b + c)
  {
  }

  lemma {:induction false} LaterWinsConcat(a: seq<Mention>, b: seq<Mention>)
    ensures LaterWins(a + b) == LaterWins(a) + LaterWins(b)
  {
    if b == [] {
      assert a + b == a;
    } else {
      var init, last := b[..|b| - 1], b[|b| - 1];
      LaterWinsConcat(a, init);
      assert (a + b)[..|a + b| - 1] == a + init && (a + b)[|a + b| - 1] == last;
      MergeAssociates(LaterWins(a), LaterWins(init), last.attributes);
    }
  }

  ghost predicate SameAttributes(a: seq<Mention>, b: seq<Mention>) {
    |a| == |b| && forall i :: 0 <= i < |a| ==> a[i].attributes == b[i].attributes
  }

  lemma SameLengths(a: seq<Mention>, b: seq<Mention>)
    requires SameAttributes(a, b)
    ensures |a| == |b|
  {
  }

  lemma {:induction false} RepeatedMentionsMatch(es: seq<ExtractedEntity>, again: seq<ExtractedEntity>, name: string)
    requires SameMentions(es, again)
    ensures SameAttributes(MentionsIn(es, name), MentionsIn(again, name))
  {
    if es != [] {
      var n := |es| - 1;
      RepeatedMentionsMatch(es[..n], again[..n], name);
    }
  }

  lemma {:induction false} SameAttributesWin(a: seq<Mention>, b: seq<Mention>)
    requires SameAttributes(a, b)
    ensures LaterWins(a) == LaterWins(b)
  {
    if a != [] {
      SameAttributesWin(a[..|a| - 1], b[..|b| - 1]);
    }
  }

  /** ... and leaves every entity's attributes as they were. */
  lemma RepeatKeepsAttributes(events: seq<Event>, e: Event, again: Event, name: string)
    requires SameItems(e, again)
    ensures var once := EntityOf(After(events + [e]).entities, e.userID, name);
            var twice := EntityOf(After(events + [e] + [again]).entities, e.userID, name);
            && (once.Some? <==> twice.Some?)
            && (once.Some? ==> twice.value.attributes == once.value.attributes)
  {
    var run, user := events + [e], e.userID;
    StoredEntityIsSummary(run, user, name);
    StoredEntityIsSummary(run + [again], user, name);
    MentionsSnoc(events, e, user, name);
    MentionsSnoc(run, again, user, name);
    RepeatedAttributes(Mentions(events, user, name), e.reply.value.entities, again.reply.value.entities, name);
  }

  lemma RepeatedAttributes(before: seq<Mention>, es: seq<ExtractedEntity>, again: seq<ExtractedEntity>, name: string)
    requires SameMentions(es, again)
    ensures var once := before + MentionsIn(es, name);
            && LaterWins(once + MentionsIn(again, name)) == LaterWins(once)
            && (once == [] <==> once + MentionsIn(again, name) == [])
  {
    hide *;
    var m, m' := MentionsIn(es, name), MentionsIn(again, name);
    RepeatedMentionsMatch(es, again, name);
    SameLengths(m, m');
    SameAttributesWin(m, m');
    LaterWinsConcat(before, m);
    LaterWinsConcat(before + m, m');
    MergeAssociates(LaterWins(before), LaterWins(m), LaterWins(m'));
    assert LaterWins(m) + LaterWins(m') == LaterWins(m);
  }
}
