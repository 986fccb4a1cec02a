/** What a completion does from its start to its outcome, told from the events of a run alone. */
module TokenTraces {
  import opened Options
  import opened TokenProtocol

  /** The steps that caller i itself has taken since it last started a completion. */
  ghost function Own(events: seq<Event>, i: nat): seq<Event> {
    if events == [] then []
    else
      var init, e := events[..|events| - 1], events[|events| - 1];
      if e == Start(i) then [] else if !e.Tick? && e.i == i then Own(init, i) + [e] else Own(init, i)
  }

  // ---------------------------------------------------------------- how a completion ends

  /** The step after which a completion has its answer. */
  predicate Succeeds(own: seq<Event>, i: nat) {
    own != [] && own[|own| - 1] == ChatAnswers(i, false, true)
  }

  /** The step after which it has failed: no token, no reply, an error reply, or a second refusal. */
  predicate Fails(own: seq<Event>, i: nat) {
    own != [] &&
    var e := own[|own| - 1];
    || e == AuthFails(i) || e == ChatFails(i) || e == ChatAnswers(i, false, false)
    || (e.ChatAnswers? && e.unauthorized && Invalidate(i) in own)
  }

  ghost predicate OutcomeInv(i: nat, pc: Pc, own: seq<Event>) {
    && (pc == Done(Answered) <==> Succeeds(own, i))
    && (pc == Done(Failed) <==> Fails(own, i))
    && (IsRetrying(pc) ==> Invalidate(i) in own)
    && (!IsRetrying(pc) && !pc.Done? ==> Invalidate(i) !in own)
  }

  lemma {:induction false} OutcomeInvKept(s: State, e: Event, i: nat, own: seq<Event>)
    requires i < |s.callers| && Enabled(s, e) && OutcomeInv(i, s.callers[i].pc, own)
    ensures OutcomeInv(i, Next(s, e).callers[i].pc,
                       if e == Start(i) then [] else if !e.Tick? && e.i == i then own + [e] else own)
  {
    if !e.Tick? && e.i == i && !e.Start? {
      var own' := own + [e];
      assert own'[|own'| - 1] == e;
      assert Invalidate(i) in own' <==> Invalidate(i) in own || e == Invalidate(i);
    }
  }

  lemma {:induction false} OutcomeInvHolds(n: nat, now: int, events: seq<Event>, i: nat)
    requires Run(n, now, events).Some? && i < n
    ensures OutcomeInv(i, Run(n, now, events).value.callers[i].pc, Own(events, i))
  {
    if events != [] {
      var init, e := events[..|events| - 1], events[|events| - 1];
      OutcomeInvHolds(n, now, init, i);
      hide OutcomeInv, Enabled, Next;
      OutcomeInvKept(Run(n, now, init).value, e, i, Own(init, i));
    }
  }

  /** In every run a completion has its answer exactly when its last step was a chat reply that was
      neither a refusal nor an error; and it has failed exactly when its last step was a failed auth or
      chat request, an error reply, or a refusal after it had invalidated the token once. */
  lemma {:induction false} OutcomeIsDecidedByLastStep(n: nat, now: int, events: seq<Event>, i: nat)
    requires Run(n, now, events).Some? && i < n
    ensures var pc, own := Run(n, now, events).value.callers[i].pc, Own(events, i);
            && (pc == Done(Answered) <==> own != [] && own[|own| - 1] == ChatAnswers(i, false, true))
            && (pc == Done(Failed) <==>
                  && own != []
                  && var e := own[|own| - 1];
                     || e == AuthFails(i) || e == ChatFails(i) || e == ChatAnswers(i, false, false)
                     || (e.ChatAnswers? && e.unauthorized && Invalidate(i) in own))
  {
    OutcomeInvHolds(n, now, events, i);
  }

  // ---------------------------------------------------------------- the steps in between

  /** The first n of these steps: lock for reading and look, lock for writing and look again. */
  predicate Looks(i: nat, t: seq<Event>, n: nat) {
    && |t| == n <= 4
    && (n > 0 ==> t[0] == LockRead(i)) && (n > 1 ==> t[1] == CheckRead(i))
    && (n > 2 ==> t[2] == LockWrite(i)) && (n > 3 ==> t[3] == CheckWrite(i))
  }

  /** Coming by a token: from the cache, from the cache at the second look, or from the auth endpoint. */
  predicate GetsToken(i: nat, t: seq<Event>) {
    Looks(i, t, 2) || Looks(i, t, 4) || (|t| == 5 && Looks(i, t[..4], 4) && t[4].AuthAnswers? && t[4].i == i)
  }

  predicate IsRefusal(i: nat, e: Event) {
    e.ChatAnswers? && e.i == i && e.unauthorized
  }

  /** A first call that was refused, and the token thrown away for it. */
  predicate IsRefusedOnce(i: nat, t: seq<Event>) {
    && |t| >= 3 && IsRefusal(i, t[|t| - 3]) && t[|t| - 2] == LockWrite(i) && t[|t| - 1] == Invalidate(i)
    && GetsToken(i, t[..|t| - 3])
  }

  /** ... after which a token could be had again. */
  ghost predicate MayRetry(i: nat, t: seq<Event>) {
    exists k: nat :: RefusedThenToken(i, t, k)
  }

  predicate RefusedThenToken(i: nat, t: seq<Event>, k: nat) {
    k <= |t| && IsRefusedOnce(i, t[..k]) && GetsToken(i, t[k..])
  }

  /** Ready for the second call: a token was come by once more. */
  ghost predicate Retries(i: nat, t: seq<Event>) {
    exists k: nat :: MayRetryThenToken(i, t, k)
  }

  ghost predicate MayRetryThenToken(i: nat, t: seq<Event>, k: nat) {
    k <= |t| && MayRetry(i, t[..k]) && GetsToken(i, t[k..])
  }

  ghost predicate HasCome(goal: Goal, i: nat, t: seq<Event>) {
    match goal
    case FirstCall => t == []
    case Prefetch => IsRefusedOnce(i, t)
    case RetryCall => MayRetry(i, t)
  }

  /** The steps end in n of looking, and what is before them brought the caller to this goal. */
  ghost predicate Looking(goal: Goal, i: nat, own: seq<Event>, n: nat) {
    |own| >= n && Looks(i, own[|own| - n..], n) && HasCome(goal, i, own[..|own| - n])
  }

  ghost predicate ReadyToCall(isRetry: bool, i: nat, t: seq<Event>) {
    if isRetry then Retries(i, t) else GetsToken(i, t)
  }

  /** The steps that lead to each place. */
  ghost predicate LeadsTo(i: nat, pc: Pc, own: seq<Event>) {
    match pc
    case Idle => own == []
    case WantRead(goal) => HasCome(goal, i, own)
    case Reading(goal) => Looking(goal, i, own, 1)
    case WantWrite(goal) => Looking(goal, i, own, 2)
    case Checking(goal) => Looking(goal, i, own, 3)
    case Fetching(goal) => Looking(goal, i, own, 4)
    case Calling(isRetry, _) => ReadyToCall(isRetry, i, own)
    case WantInvalidate => own != [] && IsRefusal(i, own[|own| - 1]) && GetsToken(i, own[..|own| - 1])
    case Invalidating =>
      && |own| >= 2 && own[|own| - 1] == LockWrite(i) && IsRefusal(i, own[|own| - 2])
      && GetsToken(i, own[..|own| - 2])
    case Done(outcome) =>
      own != [] &&
      var e, before := own[|own| - 1], own[..|own| - 1];
      if outcome == Answered then
        e == ChatAnswers(i, false, true) && (GetsToken(i, before) || Retries(i, before))
      else
        || ((e == ChatFails(i) || e == ChatAnswers(i, false, false)) && (GetsToken(i, before) || Retries(i, before)))
        || (IsRefusal(i, e) && Retries(i, before))
        || (e == AuthFails(i) && exists goal :: Looking(goal, i, before, 4))
  }

  lemma LookOnce(goal: Goal, i: nat, own: seq<Event>, n: nat, e: Event)
    requires n < 4 && Looking(goal, i, own, n)
    requires e == (if n == 0 then LockRead(i) else if n == 1 then CheckRead(i)
                   else if n == 2 then LockWrite(i) else CheckWrite(i))
    ensures Looking(goal, i, own + [e], n + 1)
  {
    hide HasCome;
    var own' := own + [e];
    assert own'[|own'| - (n + 1)..] == own[|own| - n..] + [e];
    assert own'[..|own'| - (n + 1)] == own[..|own| - n];
  }

  /** A caller that has come by a token for its goal. */
  ghost predicate InHand(goal: Goal, i: nat, own: seq<Event>) {
    match goal
    case FirstCall => GetsToken(i, own)
    case Prefetch => HasCome(RetryCall, i, own)
    case RetryCall => Retries(i, own)
  }

  lemma TokenInHand(goal: Goal, i: nat, own: seq<Event>, k: nat)
    requires k <= |own| && HasCome(goal, i, own[..k]) && GetsToken(i, own[k..])
    ensures InHand(goal, i, own)
  {
    hide GetsToken;
    if goal.FirstCall? {
      assert own == own[k..];
    } else if goal.Prefetch? {
      assert RefusedThenToken(i, own, k);
    } else {
      assert MayRetryThenToken(i, own, k);
    }
  }

  lemma TokenAtLook(goal: Goal, i: nat, own: seq<Event>, n: nat)
    requires Looking(goal, i, own, n) && (n == 2 || n == 4)
    ensures InHand(goal, i, own)
  {
    hide HasCome, InHand;
    TokenInHand(goal, i, own, |own| - n);
  }

  lemma TokenFetched(goal: Goal, i: nat, own: seq<Event>, reply: AuthReply)
    requires Looking(goal, i, own, 4)
    ensures InHand(goal, i, own + [AuthAnswers(i, reply)])
  {
    hide HasCome, InHand;
    var own', k := own + [AuthAnswers(i, reply)], |own| - 4;
    assert own'[..k] == own[..k] && own'[k..][..4] == own[k..];
    TokenInHand(goal, i, own', k);
  }

  lemma NoLookYet(goal: Goal, i: nat, own: seq<Event>)
    requires HasCome(goal, i, own)
    ensures Looking(goal, i, own, 0)
  {
    assert own[..|own|] == own;
  }

  lemma InvalidateEnds(i: nat, own: seq<Event>)
    requires |own| >= 2 && own[|own| - 1] == LockWrite(i) && IsRefusal(i, own[|own| - 2])
    requires GetsToken(i, own[..|own| - 2])
    ensures HasCome(Prefetch, i, own + [Invalidate(i)])
  {
    hide GetsToken;
    var own' := own + [Invalidate(i)];
    assert own'[..|own'| - 3] == own[..|own| - 2];
  }

  lemma OwnStepLeadsOn(s: State, e: Event, own: seq<Event>, own': seq<Event>)
    requires !e.Tick? && !e.Start? && Enabled(s, e) && LeadsTo(e.i, s.callers[e.i].pc, own)
    requires |own'| == |own| + 1 && own'[..|own|] == own && own'[|own|] == e
    ensures LeadsTo(e.i, NextCaller(s, e).pc, own')
  {
    hide Looking, GetsToken, Retries, HasCome;
    var pc := s.callers[e.i].pc;
    assert own' == own + [e];
    match e
    case LockRead(i) =>
      NoLookYet(pc.goal, i, own);
      LookOnce(pc.goal, i, own, 0, e);
    case CheckRead(i) =>
      LookOnce(pc.goal, i, own, 1, e);
      TokenAtLook(pc.goal, i, own', 2);
    case LockWrite(i) =>
      if pc.WantWrite? {
        LookOnce(pc.goal, i, own, 2, e);
      } else {
        assert own'[..|own'| - 2] == own[..|own| - 1];
      }
    case CheckWrite(i) =>
      LookOnce(pc.goal, i, own, 3, e);
      TokenAtLook(pc.goal, i, own', 4);
    case AuthAnswers(i, reply) => TokenFetched(pc.goal, i, own, reply);
    case AuthFails(i) =>
      assert Looking(pc.goal, i, own, 4);
    case ChatAnswers(_, _, _) =>
    case ChatFails(_) =>
    case Invalidate(i) => InvalidateEnds(i, own);
  }

  lemma NextCallerStarts(s: State, e: Event)
    requires Enabled(s, e)
    ensures e.Start? ==> NextCaller(s, e).pc == WantRead(FirstCall)
  {
  }

  lemma StartLeadsOn(i: nat)
    ensures LeadsTo(i, WantRead(FirstCall), [])
  {
  }

  lemma IdleLeadsNowhere(i: nat)
    ensures LeadsTo(i, Idle, [])
  {
  }

  /** In every run the steps of a completion are those of the protocol, in its order: come by a token and
      call; if that is refused, throw the token away under the write lock, come by one to see whether that
      can be done, come by one again and call a second time; and no more. */
  lemma {:induction false} CompletionsFollowTheProtocol(n: nat, now: int, events: seq<Event>, i: nat)
    requires Run(n, now, events).Some? && i < n
    ensures LeadsTo(i, Run(n, now, events).value.callers[i].pc, Own(events, i))
  {
    if events == [] {
      IdleLeadsNowhere(i);
    } else {
      var init, e := events[..|events| - 1], events[|events| - 1];
      CompletionsFollowTheProtocol(n, now, init, i);
      StartLeadsOn(i);
      hide LeadsTo, NextCaller;
      if !e.Tick? && !e.Start? && e.i == i {
        OwnStepLeadsOn(Run(n, now, init).value, e, Own(init, i), Own(events, i));
      } else {
        NextCallerStarts(Run(n, now, init).value, e);
      }
    }
  }

  // ---------------------------------------------------------------- which token is served

  /** The last auth reply still stands in the cache, is not empty, and has more than five minutes to live. */
  ghost predicate Serves(events: seq<Event>, now: int) {
    var write := LastWrite(events);
    && write.Some? && write.value.AuthAnswers? && write.value.reply.accessToken != ""
    && now + 300_000_000_000 < write.value.reply.expiresAt * 1_000_000
  }

  /** At either look at the cache a caller is given the token of the last auth reply exactly when that reply
      was not thrown away since, is not empty and has more than five minutes to live; otherwise it goes on
      to the write lock, or to the auth endpoint. */
  lemma {:induction false} CacheServesIff(n: nat, now: int, events: seq<Event>, e: Event)
    requires Run(n, now, events).Some? && (e.CheckRead? || e.CheckWrite?)
    requires Enabled(Run(n, now, events).value, e)
    ensures var s := Run(n, now, events).value;
            var goal, pc := s.callers[e.i].pc.goal, Next(s, e).callers[e.i].pc;
            if Serves(events, s.now) then
              var token := LastWrite(events).value.reply.accessToken;
              match goal
              case FirstCall => pc == Calling(false, token)
              case Prefetch => pc == WantRead(RetryCall)
              case RetryCall => pc == Calling(true, token)
            else
              pc == if e.CheckRead? then WantWrite(goal) else Fetching(goal)
  {
    hide Run, LastWrite;
    WriteInvHolds(n, now, events);
  }

  /** A caller that fetched a token uses it, whatever its expiry, and lets go of the lock. */
  lemma FetchedTokenIsUsed(s: State, i: nat, reply: AuthReply)
    requires Inv(s) && Enabled(s, AuthAnswers(i, reply))
    ensures var t, goal := Next(s, AuthAnswers(i, reply)), s.callers[i].pc.goal;
            && s.writer == Some(i) && t.writer == None
            && t.callers[i].pc == match goal
                                  case FirstCall => Calling(false, reply.accessToken)
                                  case Prefetch => WantRead(RetryCall)
                                  case RetryCall => Calling(true, reply.accessToken)
  {
    assert HoldsWriteLock(s.callers[i].pc);
  }
}
