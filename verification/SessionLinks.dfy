/** That a session links to exactly what its own extraction mentioned, in every run. */
module SessionLinks {
  import opened MapIteration
  import opened Options
  import opened Text
  import opened WorldModel

  // ---------------------------------------------------------------- the links a list of names leaves

  /** The identifiers that the names stand for, each once, in order of first mention. */
  ghost function Linked(names: seq<string>, idOf: string -> Option<nat>): seq<nat> {
    if names == [] then []
    else
      var init, id := Linked(names[..|names| - 1], idOf), idOf(names[|names| - 1]);
      if id.Some? && id.value !in init then init + [id.value] else init
  }

  ghost predicate AllKnown(names: seq<string>, idOf: string -> Option<nat>) {
    forall name :: name in names ==> idOf(name).Some?
  }

  /** What was known is known still, under the same identifier. */
  ghost predicate Keeps(before: string -> Option<nat>, after: string -> Option<nat>) {
    forall name :: before(name).Some? ==> after(name) == before(name)
  }

  /** Every link is named, every name is linked, and no link stands twice. */
  lemma {:induction false} LinkedMeaning(names: seq<string>, idOf: string -> Option<nat>, id: nat)
    ensures Distinct(Linked(names, idOf))
    ensures id in Linked(names, idOf) <==> exists name :: name in names && idOf(name) == Some(id)
  {
    if names != [] {
      var init, last := names[..|names| - 1], names[|names| - 1];
      assert names == init + [last];
      LinkedMeaning(init, idOf, id);
      if idOf(last).Some? {
        LinkedMeaning(init, idOf, idOf(last).value);
      }
    }
  }

  /** A name mentioned earlier has its link earlier. */
  lemma {:induction false} LinkedGrowsInOrder(names: seq<string>, more: seq<string>, idOf: string -> Option<nat>)
    ensures Linked(names, idOf) <= Linked(names + more, idOf)
  {
    if more == [] {
      assert names + more == names;
    } else {
      LinkedGrowsInOrder(names, more[..|more| - 1], idOf);
      assert (names + more)[..|names + more| - 1] == names + more[..|more| - 1];
    }
  }

  lemma LinkedSnoc(names: seq<string>, name: string, idOf: string -> Option<nat>)
    ensures Linked(names + [name], idOf) ==
            if idOf(name).Some? && idOf(name).value !in Linked(names, idOf)
            then Linked(names, idOf) + [idOf(name).value] else Linked(names, idOf)
  {
    assert (names + [name])[..|names|] == names;
  }

  lemma {:induction false} LinkedIsKept(names: seq<string>, before: string -> Option<nat>, after: string -> Option<nat>)
    requires AllKnown(names, before) && Keeps(before, after)
    ensures AllKnown(names, after) && Linked(names, after) == Linked(names, before)
  {
    if names != [] {
      var init, last := names[..|names| - 1], names[|names| - 1];
      assert names == init + [last];
      LinkedIsKept(init, before, after);
    }
  }

  ghost predicate IsLinked(links: map<nat, seq<nat>>, sid: nat, names: seq<string>, idOf: string -> Option<nat>) {
    AllKnown(names, idOf) && LinksOf(links, sid) == Linked(names, idOf)
  }

  ghost predicate OthersAlike(before: map<nat, seq<nat>>, after: map<nat, seq<nat>>, sid: nat) {
    forall other :: other != sid ==> LinksOf(after, other) == LinksOf(before, other)
  }

  lemma OneMoreLink(links: map<nat, seq<nat>>, sid: nat, names: seq<string>, name: string,
                    before: string -> Option<nat>, after: string -> Option<nat>)
    requires IsLinked(links, sid, names, before) && Keeps(before, after) && after(name).Some?
    ensures IsLinked(AddLink(links, sid, after(name).value), sid, names + [name], after)
    ensures OthersAlike(links, AddLink(links, sid, after(name).value), sid)
  {
    LinkedIsKept(names, before, after);
    LinkedSnoc(names, name, after);
  }

  lemma StaysLinked(links: map<nat, seq<nat>>, later: map<nat, seq<nat>>, sid: nat, names: seq<string>,
                    before: string -> Option<nat>, after: string -> Option<nat>)
    requires IsLinked(links, sid, names, before) && Keeps(before, after) && LinksOf(later, sid) == LinksOf(links, sid)
    ensures IsLinked(later, sid, names, after)
  {
    LinkedIsKept(names, before, after);
  }

  // ---------------------------------------------------------------- facts and entities by name

  ghost function FactIds(facts: Facts, userID: int): string -> Option<nat> {
    (content: string) => FactWith(facts, userID, content)
  }

  ghost function EntityIds(entities: Entities, userID: int): string -> Option<nat> {
    (name: string) => EntityWith(entities, userID, name)
  }

  /** The contents of the facts that are stored, in the order of the reply. */
  function Contents(fs: seq<ExtractedFact>): seq<string> {
    if fs == [] then []
    else
      var init, f := Contents(fs[..|fs| - 1]), fs[|fs| - 1];
      if Blank(f.content) then init else init + [f.content]
  }

  function Names(es: seq<ExtractedEntity>): seq<string> {
    if es == [] then []
    else
      var init, e := Names(es[..|es| - 1]), es[|es| - 1];
      if Storable(e) then init + [e.name] else init
  }

  ghost predicate FactsLinked(s: Store, sid: nat, userID: int, contents: seq<string>) {
    IsLinked(s.sessionFacts, sid, contents, FactIds(s.facts, userID))
  }

  ghost predicate EntitiesLinked(s: Store, sid: nat, userID: int, names: seq<string>) {
    IsLinked(s.sessionEntities, sid, names, EntityIds(s.entities, userID))
  }

  // ---------------------------------------------------------------- identifiers last

  ghost predicate FactsGrow(before: Facts, after: Facts) {
    forall id :: id in before ==> id in after && after[id] == before[id]
  }

  ghost predicate EntitiesGrow(before: Entities, after: Entities) {
    forall id :: id in before ==>
      id in after && after[id].userID == before[id].userID && after[id].name == before[id].name
  }

  lemma GrownFactsKeepIds(before: Facts, after: Facts, userID: int)
    requires FactsGrow(before, after) && FactsUnique(after)
    ensures Keeps(FactIds(before, userID), FactIds(after, userID))
  {
    forall content | FactWith(before, userID, content).Some?
      ensures FactWith(after, userID, content) == FactWith(before, userID, content)
    {
      assert IsFact(after, FactWith(before, userID, content).value, userID, content);
    }
  }

  lemma GrownEntitiesKeepIds(before: Entities, after: Entities, userID: int)
    requires EntitiesGrow(before, after) && EntitiesUnique(after)
    ensures Keeps(EntityIds(before, userID), EntityIds(after, userID))
  {
    forall name | EntityWith(before, userID, name).Some?
      ensures EntityWith(after, userID, name) == EntityWith(before, userID, name)
    {
      assert IsEntity(after, EntityWith(before, userID, name).value, userID, name);
    }
  }

  // ---------------------------------------------------------------- one item

  lemma NamesAreUnique(s: Store)
    requires Inv(s)
    ensures FactsUnique(s.facts) && EntitiesUnique(s.entities)
  {
  }

  lemma SkippedFact(s: Store, userID: int, sid: nat, f: ExtractedFact, id: nat)
    requires Blank(f.content)
    ensures SaveFact(s, userID, sid, f, id) == s && FactsGrow(s.facts, s.facts)
    ensures OthersAlike(s.sessionFacts, s.sessionFacts, sid)
  {
  }

  lemma StoredFact(s: Store, userID: int, sid: nat, f: ExtractedFact, id: nat)
    requires Inv(s) && Below(s, id) && !Blank(f.content)
    ensures var t := SaveFact(s, userID, sid, f, id);
            && FactsGrow(s.facts, t.facts)
            && FactIds(t.facts, userID)(f.content).Some?
            && t.sessionFacts == AddLink(s.sessionFacts, sid, FactIds(t.facts, userID)(f.content).value)
  {
    var t, found := SaveFact(s, userID, sid, f, id), FactWith(s.facts, userID, f.content);
    if found.None? {
      NewFactKeepsUnique(s.facts, id, t.facts[id]);
      assert IsFact(t.facts, id, userID, f.content);
    }
  }

  lemma FactLinked(s: Store, t: Store, sid: nat, userID: int, contents: seq<string>, content: string)
    requires FactsLinked(s, sid, userID, contents)
    requires Keeps(FactIds(s.facts, userID), FactIds(t.facts, userID)) && FactIds(t.facts, userID)(content).Some?
    requires t.sessionFacts == AddLink(s.sessionFacts, sid, FactIds(t.facts, userID)(content).value)
    ensures FactsLinked(t, sid, userID, contents + [content]) && OthersAlike(s.sessionFacts, t.sessionFacts, sid)
  {
    hide IsLinked, Keeps, FactIds, OthersAlike, AddLink;
    OneMoreLink(s.sessionFacts, sid, contents, content, FactIds(s.facts, userID), FactIds(t.facts, userID));
  }

  lemma EntityLinked(s: Store, t: Store, sid: nat, userID: int, names: seq<string>, name: string)
    requires EntitiesLinked(s, sid, userID, names)
    requires Keeps(EntityIds(s.entities, userID), EntityIds(t.entities, userID))
    requires EntityIds(t.entities, userID)(name).Some?
    requires t.sessionEntities == AddLink(s.sessionEntities, sid, EntityIds(t.entities, userID)(name).value)
    ensures EntitiesLinked(t, sid, userID, names + [name]) && OthersAlike(s.sessionEntities, t.sessionEntities, sid)
  {
    hide IsLinked, Keeps, EntityIds, OthersAlike, AddLink;
    OneMoreLink(s.sessionEntities, sid, names, name, EntityIds(s.entities, userID), EntityIds(t.entities, userID));
  }

  lemma SkippedEntity(s: Store, userID: int, sid: nat, e: ExtractedEntity, id: nat)
    requires !Storable(e)
    ensures SaveEntity(s, userID, sid, e, id) == s && EntitiesGrow(s.entities, s.entities)
    ensures OthersAlike(s.sessionEntities, s.sessionEntities, sid)
  {
  }

  lemma StoredEntity(s: Store, userID: int, sid: nat, e: ExtractedEntity, id: nat)
    requires Inv(s) && OwnSession(s, sid, userID) && Below(s, id) && Storable(e)
    ensures var t := SaveEntity(s, userID, sid, e, id);
            && EntitiesGrow(s.entities, t.entities)
            && EntityIds(t.entities, userID)(e.name).Some?
            && t.sessionEntities == AddLink(s.sessionEntities, sid, EntityIds(t.entities, userID)(e.name).value)
  {
    var t := SaveEntity(s, userID, sid, e, id);
    SaveEntityKeepsInv(s, userID, sid, e, id);
    NamesAreUnique(t);
    TheEntity(t.entities, Target(s.entities, userID, e.name, id), userID, e.name);
  }

  // ---------------------------------------------------------------- one extraction

  lemma GrowthAddsUp(f: Facts, f': Facts, f'': Facts, e: Entities, e': Entities, e'': Entities)
    ensures FactsGrow(f, f') && FactsGrow(f', f'') ==> FactsGrow(f, f'')
    ensures EntitiesGrow(e, e') && EntitiesGrow(e', e'') ==> EntitiesGrow(e, e'')
  {
  }

  lemma AlikeAddsUp(a: map<nat, seq<nat>>, b: map<nat, seq<nat>>, c: map<nat, seq<nat>>, sid: nat)
    ensures OthersAlike(a, b, sid) && OthersAlike(b, c, sid) ==> OthersAlike(a, c, sid)
  {
  }

  lemma {:induction false} SaveFactsLinks(s: Store, userID: int, sid: nat, fs: seq<ExtractedFact>, base: nat)
    requires Inv(s) && OwnSession(s, sid, userID) && Below(s, base)
    requires FactsLinked(s, sid, userID, [])
    ensures var t := SaveFacts(s, userID, sid, fs, base);
            && FactsGrow(s.facts, t.facts) && OthersAlike(s.sessionFacts, t.sessionFacts, sid)
            && FactsLinked(t, sid, userID, Contents(fs))
  {
    hide *;
    if fs == [] {
      NothingSaved(s, userID, sid, base);
    } else {
      var init, f := fs[..|fs| - 1], fs[|fs| - 1];
      SaveFactsLinks(s, userID, sid, init, base);
      SaveFactsKeepsInv(s, userID, sid, init, base);
      SaveFactsUnfold(s, userID, sid, fs, base);
      var t := SaveFacts(s, userID, sid, init, base);
      StillOwn(s, t, sid, userID);
      var id := base + |init|;
      var u := SaveFact(t, userID, sid, f, id);
      if Blank(f.content) {
        SkippedFact(t, userID, sid, f, id);
      } else {
        SaveFactKeepsInv(t, userID, sid, f, id);
        NamesAreUnique(u);
        StoredFact(t, userID, sid, f, id);
        GrownFactsKeepIds(t.facts, u.facts, userID);
        FactLinked(t, u, sid, userID, Contents(init), f.content);
      }
      GrowthAddsUp(s.facts, t.facts, u.facts, map[], map[], map[]);
      AlikeAddsUp(s.sessionFacts, t.sessionFacts, u.sessionFacts, sid);
    }
  }

  lemma NothingSaved(s: Store, userID: int, sid: nat, base: nat)
    ensures SaveFacts(s, userID, sid, [], base) == s && Contents([]) == []
    ensures SaveEntities(s, userID, sid, [], base) == s && Names([]) == []
    ensures FactsGrow(s.facts, s.facts) && OthersAlike(s.sessionFacts, s.sessionFacts, sid)
    ensures EntitiesGrow(s.entities, s.entities) && OthersAlike(s.sessionEntities, s.sessionEntities, sid)
  {
  }

  lemma SaveFactsUnfold(s: Store, userID: int, sid: nat, fs: seq<ExtractedFact>, base: nat)
    requires fs != []
    ensures var init, f := fs[..|fs| - 1], fs[|fs| - 1];
            && SaveFacts(s, userID, sid, fs, base) ==
               SaveFact(SaveFacts(s, userID, sid, init, base), userID, sid, f, base + |init|)
            && Contents(fs) == if Blank(f.content) then Contents(init) else Contents(init) + [f.content]
  {
  }

  lemma SaveEntitiesUnfold(s: Store, userID: int, sid: nat, es: seq<ExtractedEntity>, base: nat)
    requires es != []
    ensures var init, e := es[..|es| - 1], es[|es| - 1];
            && SaveEntities(s, userID, sid, es, base) ==
               SaveEntity(SaveEntities(s, userID, sid, init, base), userID, sid, e, base + |init|)
            && Names(es) == if Storable(e) then Names(init) + [e.name] else Names(init)
  {
  }

  lemma {:induction false} SaveEntitiesLinks(s: Store, userID: int, sid: nat, es: seq<ExtractedEntity>, base: nat)
    requires Inv(s) && OwnSession(s, sid, userID) && Below(s, base)
    requires EntitiesLinked(s, sid, userID, [])
    ensures var t := SaveEntities(s, userID, sid, es, base);
            && EntitiesGrow(s.entities, t.entities) && OthersAlike(s.sessionEntities, t.sessionEntities, sid)
            && EntitiesLinked(t, sid, userID, Names(es))
  {
    hide *;
    if es == [] {
      NothingSaved(s, userID, sid, base);
    } else {
      var init, e := es[..|es| - 1], es[|es| - 1];
      SaveEntitiesLinks(s, userID, sid, init, base);
      SaveEntitiesKeepsInv(s, userID, sid, init, base);
      SaveEntitiesUnfold(s, userID, sid, es, base);
      var t := SaveEntities(s, userID, sid, init, base);
      StillOwn(s, t, sid, userID);
      var id := base + |init|;
      var u := SaveEntity(t, userID, sid, e, id);
      if !Storable(e) {
        SkippedEntity(t, userID, sid, e, id);
      } else {
        SaveEntityKeepsInv(t, userID, sid, e, id);
        NamesAreUnique(u);
        StoredEntity(t, userID, sid, e, id);
        GrownEntitiesKeepIds(t.entities, u.entities, userID);
        EntityLinked(t, u, sid, userID, Names(init), e.name);
      }
      GrowthAddsUp(map[], map[], map[], s.entities, t.entities, u.entities);
      AlikeAddsUp(s.sessionEntities, t.sessionEntities, u.sessionEntities, sid);
    }
  }

  lemma StillOwn(s: Store, t: Store, sid: nat, userID: int)
    requires OwnSession(s, sid, userID) && t.sessions == s.sessions
    ensures OwnSession(t, sid, userID)
  {
  }

  /** What a session is about: nothing when the reply could not be used. */
  function ContentsOf(e: Event): seq<string> {
    if e.reply.None? then [] else Contents(e.reply.value.facts)
  }

  function NamesOf(e: Event): seq<string> {
    if e.reply.None? then [] else Names(e.reply.value.entities)
  }

  /** What a session leaves alone: what is stored, and the links of other sessions. */
  ghost predicate LinksGrow(s: Store, t: Store, sid: nat) {
    && FactsGrow(s.facts, t.facts) && EntitiesGrow(s.entities, t.entities)
    && OthersAlike(s.sessionFacts, t.sessionFacts, sid) && OthersAlike(s.sessionEntities, t.sessionEntities, sid)
  }

  ghost predicate SessionLinked(s: Store, sid: nat, e: Event) {
    FactsLinked(s, sid, e.userID, ContentsOf(e)) && EntitiesLinked(s, sid, e.userID, NamesOf(e))
  }

  lemma NewSessionHasNoLinks(s: Store, e: Event, sid: nat)
    requires Inv(s) && Below(s, sid)
    ensures var started := OpenSession(s, e, sid);
            && FactsLinked(started, sid, e.userID, []) && EntitiesLinked(started, sid, e.userID, [])
            && started.facts == s.facts && started.entities == s.entities
            && started.sessionFacts == s.sessionFacts && started.sessionEntities == s.sessionEntities
  {
  }

  lemma NothingChanges(s: Store, sid: nat)
    ensures LinksGrow(s, s, sid)
  {
  }

  lemma ExtractionLinks(s: Store, e: Event, sid: nat)
    requires Inv(s) && Below(s, sid)
    ensures LinksGrow(s, ExtractAndStore(s, e, sid), sid) && SessionLinked(ExtractAndStore(s, e, sid), sid, e)
  {
    hide Inv, Below, FactsGrow, EntitiesGrow, OthersAlike, OwnSession, SaveFacts, SaveEntities, OpenSession, IsLinked,
         Contents, Names;
    var started := OpenSession(s, e, sid);
    NothingChanges(s, sid);
    NewSessionHasNoLinks(s, e, sid);
    OpenSessionKeepsInv(s, e, sid);
    if e.reply.Some? {
      var x := e.reply.value;
      var told := SaveFacts(started, e.userID, sid, x.facts, sid + 1);
      SaveFactsLinks(started, e.userID, sid, x.facts, sid + 1);
      SaveFactsKeepsInv(started, e.userID, sid, x.facts, sid + 1);
      StillOwn(started, told, sid, e.userID);
      SaveEntitiesLinks(told, e.userID, sid, x.entities, sid + 1 + |x.facts|);
      SaveEntitiesKeepsInv(told, e.userID, sid, x.entities, sid + 1 + |x.facts|);
    }
  }

  // ---------------------------------------------------------------- whole runs

  lemma AfterSnoc(events: seq<Event>, e: Event)
    ensures After(events + [e]) == ExtractAndStore(After(events), e, Drawn(events))
    ensures Drawn(events + [e]) == Drawn(events) + Width(e)
  {
    assert (events + [e])[..|events|] == events;
  }

  lemma ExtractionAddsSession(s: Store, e: Event, sid: nat)
    requires Inv(s) && Below(s, sid)
    ensures ExtractAndStore(s, e, sid).sessions == s.sessions[sid := Session(e.userID, e.question, e.at)]
  {
    var started := OpenSession(s, e, sid);
    OpenSessionKeepsInv(s, e, sid);
    if e.reply.Some? {
      var x := e.reply.value;
      SaveFactsKeepsInv(started, e.userID, sid, x.facts, sid + 1);
      SaveEntitiesKeepsInv(SaveFacts(started, e.userID, sid, x.facts, sid + 1), e.userID, sid, x.entities,
                           sid + 1 + |x.facts|);
    }
  }

  /** Every extraction leaves a session of its own, usable reply or not, with its user, question and time. */
  lemma {:induction false} SessionsAreKept(events: seq<Event>, e: Event, more: seq<Event>)
    ensures var sessions := After(events + [e] + more).sessions;
            Drawn(events) in sessions && sessions[Drawn(events)] == Session(e.userID, e.question, e.at)
    ensures Drawn(events) < Drawn(events + [e] + more)
    decreases |more|
  {
    if |more| == 0 {
      assert events + [e] + more == events + [e];
      AfterSnoc(events, e);
      RunsKeepInv(events);
      ExtractionAddsSession(After(events), e, Drawn(events));
    } else {
      var init, last := more[..|more| - 1], more[|more| - 1];
      var run := events + [e] + init;
      assert events + [e] + more == run + [last];
      SessionsAreKept(events, e, init);
      AfterSnoc(run, last);
      RunsKeepInv(run);
      ExtractionAddsSession(After(run), last, Drawn(run));
    }
  }

  lemma LaterSessionKeepsLinks(s: Store, t: Store, sid: nat, later: nat, e: Event)
    requires SessionLinked(s, sid, e) && LinksGrow(s, t, later) && later != sid
    requires FactsUnique(t.facts) && EntitiesUnique(t.entities)
    ensures SessionLinked(t, sid, e)
  {
    GrownFactsKeepIds(s.facts, t.facts, e.userID);
    GrownEntitiesKeepIds(s.entities, t.entities, e.userID);
    StaysLinked(s.sessionFacts, t.sessionFacts, sid, ContentsOf(e), FactIds(s.facts, e.userID),
        FactIds(t.facts, e.userID));
    StaysLinked(s.sessionEntities, t.sessionEntities, sid, NamesOf(e), EntityIds(s.entities, e.userID),
                EntityIds(t.entities, e.userID));
  }

  /** In every run, at once and ever after, a session links to exactly the stored facts and entities that
      its own extraction validly mentioned, each once and in order of first mention. */
  lemma {:induction false} SessionLinksAreExact(events: seq<Event>, e: Event, more: seq<Event>)
    ensures SessionLinked(After(events + [e] + more), Drawn(events), e)
    ensures Drawn(events) < Drawn(events + [e] + more)
    decreases |more|
  {
    RunsKeepInv(events + [e] + more);
    if |more| == 0 {
      assert events + [e] + more == events + [e];
      AfterSnoc(events, e);
      RunsKeepInv(events);
      ExtractionLinks(After(events), e, Drawn(events));
    } else {
      var init, last := more[..|more| - 1], more[|more| - 1];
      var run := events + [e] + init;
      assert events + [e] + more == run + [last];
      SessionLinksAreExact(events, e, init);
      AfterSnoc(run, last);
      RunsKeepInv(run);
      ExtractionLinks(After(run), last, Drawn(run));
      LaterSessionKeepsLinks(After(run), After(run + [last]), Drawn(events), Drawn(run), e);
    }
  }
}
