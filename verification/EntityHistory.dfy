/** What is stored of an entity, told from the extractions alone. */
module EntityHistory {
  import opened Options
  import opened Text
  import opened WorldModel

  /** The mention counts: the name is not blank and the type is one of the five known. */
  predicate IsMentionOf(e: ExtractedEntity, name: string) {
    && e.name == name && !Blank(name)
    && (|| e.entityType == "company" || e.entityType == "person" || e.entityType == "concept"
        || e.entityType == "product" || e.entityType == "market")
  }

  function MentionsAmong(es: seq<ExtractedEntity>, name: string): seq<ExtractedEntity> {
    if es == [] then []
    else
      var init, e := MentionsAmong(es[..|es| - 1], name), es[|es| - 1];
      if IsMentionOf(e, name) then init + [e] else init
  }

  /** Every mention of this name in this user's extractions, in order. */
  function AllMentions(events: seq<Event>, userID: int, name: string): seq<ExtractedEntity> {
    if events == [] then []
    else
      var init, e := AllMentions(events[..|events| - 1], userID, name), events[|events| - 1];
      if e.userID == userID && e.reply.Some? then init + MentionsAmong(e.reply.value.entities, name) else init
  }

  /** The mention brings a value for this attribute. */
  predicate Carries(e: ExtractedEntity, key: string) {
    e.attributes.Some? && key in e.attributes.value
  }

  ghost predicate IsLastCarrier(all: seq<ExtractedEntity>, j: int, key: string) {
    0 <= j < |all| && Carries(all[j], key) && forall k :: j < k < |all| ==> !Carries(all[k], key)
  }

  ghost function Summed(all: seq<ExtractedEntity>): (ms: seq<Mention>)
    ensures |ms| == |all|
    ensures forall i :: 0 <= i < |all| ==> ms[i] == Mention(all[i].entityType, OrEmpty(all[i].attributes), all[i].at)
  {
    seq(|all|, i requires 0 <= i < |all| => Mention(all[i].entityType, OrEmpty(all[i].attributes), all[i].at))
  }

  lemma SummedConcat(a: seq<ExtractedEntity>, b: seq<ExtractedEntity>)
    ensures Summed(a + b) == Summed(a) + Summed(b)
  {
  }

  lemma MentionInIs(e: ExtractedEntity, name: string)
    ensures MentionIn(e, name) == if IsMentionOf(e, name) then Summed([e]) else []
  {
  }

  lemma {:induction false} MentionsInAre(es: seq<ExtractedEntity>, name: string)
    ensures MentionsIn(es, name) == Summed(MentionsAmong(es, name))
  {
    if es != [] {
      var init, e := es[..|es| - 1], es[|es| - 1];
      MentionsInAre(init, name);
      MentionInIs(e, name);
      SummedConcat(MentionsAmong(init, name), [e]);
      hide IsMentionOf, MentionIn;
      assert Summed(MentionsAmong(init, name)) + [] == Summed(MentionsAmong(init, name));
    }
  }

  lemma {:induction false} MentionsAre(events: seq<Event>, userID: int, name: string)
    ensures Mentions(events, userID, name) == Summed(AllMentions(events, userID, name))
  {
    if events != [] {
      var init, e := events[..|events| - 1], events[|events| - 1];
      MentionsAre(init, userID, name);
      var all := AllMentions(init, userID, name);
      assert Summed(all) + [] == Summed(all);
      if e.userID == userID && e.reply.Some? {
        MentionsInAre(e.reply.value.entities, name);
        SummedConcat(all, MentionsAmong(e.reply.value.entities, name));
      }
    }
  }

  lemma {:induction false} LaterWinsAt(all: seq<ExtractedEntity>, key: string, j: int)
    ensures key in LaterWins(Summed(all)) <==> exists k :: 0 <= k < |all| && Carries(all[k], key)
    ensures IsLastCarrier(all, j, key) ==>
              key in LaterWins(Summed(all)) && LaterWins(Summed(all))[key] == all[j].attributes.value[key]
  {
    if all != [] {
      var init, last := all[..|all| - 1], all[|all| - 1];
      LaterWinsAt(init, key, j);
      assert Summed(all)[..|all| - 1] == Summed(init);
      assert LaterWins(Summed(all)) == LaterWins(Summed(init)) + OrEmpty(last.attributes);
      hide LaterWins;
      if Carries(last, key) {
        assert Carries(all[|all| - 1], key);
      } else {
        assert forall k :: 0 <= k < |init| ==> init[k] == all[k];
        assert IsLastCarrier(all, j, key) ==> IsLastCarrier(init, j, key);
      }
    }
  }

  /** In every run an entity is stored exactly when some extraction mentioned it with a known type. It has
      the type and first sight of the first mention, the last sight of the last, and for each attribute the
      value of the last mention that brought one. */
  lemma StoredEntityByMentions(events: seq<Event>, userID: int, name: string, key: string, j: int)
    ensures var all, stored := AllMentions(events, userID, name), EntityOf(After(events).entities, userID, name);
            && (stored.Some? <==> all != [])
            && (stored.Some? ==>
                  && stored.value.userID == userID && stored.value.name == name
                  && stored.value.entityType == all[0].entityType
                  && stored.value.firstSeenAt == all[0].at
                  && stored.value.lastSeenAt == all[|all| - 1].at
                  && stored.value.attributes.Some?
                  && (key in stored.value.attributes.value <==> exists k :: 0 <= k < |all| && Carries(all[k], key))
                  && (IsLastCarrier(all, j, key) ==>
                        && key in stored.value.attributes.value
                        && stored.value.attributes.value[key] == all[j].attributes.value[key]))
  {
    hide AllMentions, After, EntityOf, LaterWins, Mentions;
    StoredEntityIsSummary(events, userID, name);
    MentionsAre(events, userID, name);
    LaterWinsAt(AllMentions(events, userID, name), key, j);
  }
}
