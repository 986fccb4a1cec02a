/** The GigaChat access token: double-checked locking, expiry, invalidation and one retry.

    N callers run completions side by side. A step is one lock operation, one critical section, one
    network reply or a tick of the clock, so a run is any interleaving of such steps. */
module TokenProtocol {
  import opened Options

  // time.Time{} and five minutes, in nanoseconds since the epoch
  const ZERO_TIME: int := -62_135_596_800_000_000_000
  const MARGIN: int := 300_000_000_000
  const NANOS_PER_MILLI: int := 1_000_000

  // ---------------------------------------------------------------- the cached token

  datatype Cached = Cached(token: string, expiry: int)

  /** What the auth endpoint sends: any token, with any expiry. */
  datatype AuthReply = AuthReply(accessToken: string, expiresAt: int)

  const NO_TOKEN := Cached("", ZERO_TIME)

  predicate Usable(c: Cached, now: int) {
    c.token != "" && now < c.expiry - MARGIN
  }

  function FromReply(r: AuthReply): Cached {
    Cached(r.accessToken, r.expiresAt * NANOS_PER_MILLI)
  }

  /** The client's fields. Each method is the body of one critical section. */
  class Client {
    var accessToken: string
    var tokenExpiry: int

    ghost function Value(): Cached
      reads this
    {
      Cached(accessToken, tokenExpiry)
    }

    constructor ()
      ensures Value() == NO_TOKEN
    {
      accessToken, tokenExpiry := "", ZERO_TIME;
    }

    /** Under the read lock in getToken, and again under the write lock in refreshToken. */
    method CheckCached(now: int) returns (token: Option<string>)
      ensures token == if Usable(Value(), now) then Some(Value().token) else None
    {
      if accessToken != "" && now < tokenExpiry - MARGIN {
        return Some(accessToken);
      }
      return None;
    }

    method StoreReply(reply: AuthReply) returns (token: string)
      modifies this
      ensures Value() == FromReply(reply) && token == reply.accessToken
    {
      accessToken := reply.accessToken;
      tokenExpiry := reply.expiresAt * NANOS_PER_MILLI;
      return accessToken;
    }

    method InvalidateToken()
      modifies this
      ensures Value() == NO_TOKEN
    {
      accessToken := "";
      tokenExpiry := ZERO_TIME;
    }
  }

  // ---------------------------------------------------------------- callers

  /** What a caller wants a token for: its first chat call, the check that a new token can be had
      after a 401, or the second chat call. */
  datatype Goal = FirstCall | Prefetch | RetryCall

  datatype Outcome = Answered | Failed

  datatype Pc =
    | Idle
    | WantRead(goal: Goal)
    | Reading(goal: Goal)
    | WantWrite(goal: Goal)
    | Checking(goal: Goal)
    | Fetching(goal: Goal)
    | Calling(isRetry: bool, token: string)
    | WantInvalidate
    | Invalidating
    | Done(outcome: Outcome)

  /** What one completion has sent so far. */
  datatype Sent = Sent(chats: nat, auths: nat, invalidations: nat)

  /** first is the token its first chat call carries. */
  datatype Caller = Caller(pc: Pc, sent: Sent, first: string)

  /** issued, goodFetches, deadFetches, clearings and lapses record the past of the run. */
  datatype State = State(
    cached: Cached,
    now: int,
    writer: Option<nat>,
    readers: set<nat>,
    callers: seq<Caller>,
    issued: set<string>,
    goodFetches: nat,   // replies that were usable on arrival
    deadFetches: nat,   // replies that were not
    clearings: nat,     // invalidations that threw away a usable token
    lapses: nat)        // ticks on which a usable token stopped being usable

  datatype Event =
    | Tick(elapsed: nat)
    | Start(i: nat)
    | LockRead(i: nat)
    | CheckRead(i: nat)
    | LockWrite(i: nat)
    | CheckWrite(i: nat)
    | AuthAnswers(i: nat, reply: AuthReply)
    | AuthFails(i: nat)
    | ChatAnswers(i: nat, unauthorized: bool, ok: bool)
    | ChatFails(i: nat)
    | Invalidate(i: nat)

  function Initial(n: nat, now: int): State {
    State(NO_TOKEN, now, None, {}, seq(n, i => Caller(Idle, Sent(0, 0, 0), "")), {}, 0, 0, 0, 0)
  }

  predicate Enabled(s: State, e: Event) {
    e.Tick? ||
    (e.i < |s.callers| &&
     var pc := s.callers[e.i].pc;
     match e
     case Tick(_) => true
     case Start(_) => pc.Idle? || pc.Done?
     case LockRead(_) => pc.WantRead? && s.writer == None
     case CheckRead(_) => pc.Reading?
     case LockWrite(_) => (pc.WantWrite? || pc.WantInvalidate?) && s.writer == None && s.readers == {}
     case CheckWrite(_) => pc.Checking?
     case AuthAnswers(_, _) => pc.Fetching?
     case AuthFails(_) => pc.Fetching?
     case ChatAnswers(_, _, _) => pc.Calling?
     case ChatFails(_) => pc.Calling?
     case Invalidate(_) => pc.Invalidating?)
  }

  /** A caller that has just been given a token. */
  function WithToken(c: Caller, goal: Goal, token: string): Caller {
    match goal
    case FirstCall => Caller(Calling(false, token), c.sent.(chats := c.sent.chats + 1), token)
    case Prefetch => c.(pc := WantRead(RetryCall))
    case RetryCall => Caller(Calling(true, token), c.sent.(chats := c.sent.chats + 1), c.first)
  }

  /** What one step does to the caller that takes it. */
  function NextCaller(s: State, e: Event): Caller
    requires !e.Tick? && Enabled(s, e)
  {
    var c := s.callers[e.i];
    match e
    case Start(_) => Caller(WantRead(FirstCall), Sent(0, 0, 0), "")
    case LockRead(_) => c.(pc := Reading(c.pc.goal))
    case CheckRead(_) =>
      if Usable(s.cached, s.now) then WithToken(c, c.pc.goal, s.cached.token)
      else c.(pc := WantWrite(c.pc.goal))
    case LockWrite(_) => c.(pc := if c.pc.WantWrite? then Checking(c.pc.goal) else Invalidating)
    case CheckWrite(_) =>
      if Usable(s.cached, s.now) then WithToken(c, c.pc.goal, s.cached.token)
      else Caller(Fetching(c.pc.goal), c.sent.(auths := c.sent.auths + 1), c.first)
    case AuthAnswers(_, reply) => WithToken(c, c.pc.goal, reply.accessToken)
    case AuthFails(_) => c.(pc := Done(Failed))
    case ChatAnswers(_, unauthorized, ok) =>
      if unauthorized && !c.pc.isRetry then c.(pc := WantInvalidate)
      else c.(pc := Done(if unauthorized || !ok then Failed else Answered))
    case ChatFails(_) => c.(pc := Done(Failed))
    case Invalidate(_) => Caller(WantRead(Prefetch), c.sent.(invalidations := c.sent.invalidations + 1), c.first)
  }

  function Next(s: State, e: Event): State
    requires Enabled(s, e)
  {
    if e.Tick? then
      var now := s.now + e.elapsed;
      s.(now := now,
         lapses := s.lapses + if Usable(s.cached, s.now) && !Usable(s.cached, now) then 1 else 0)
    else
      var t := s.(callers := s.callers[e.i := NextCaller(s, e)]);
      match e
      case Start(_) => t
      case LockRead(_) => t.(readers := s.readers + {e.i})
      case CheckRead(_) => t.(readers := s.readers - {e.i})
      case LockWrite(_) => t.(writer := Some(e.i))
      case CheckWrite(_) => if Usable(s.cached, s.now) then t.(writer := None) else t
      case AuthAnswers(_, reply) =>
        var good := Usable(FromReply(reply), s.now);
        t.(writer := None, cached := FromReply(reply), issued := s.issued + {reply.accessToken},
           goodFetches := s.goodFetches + if good then 1 else 0,
           deadFetches := s.deadFetches + if good then 0 else 1)
      case AuthFails(_) => t.(writer := None)
      case ChatAnswers(_, _, _) => t
      case ChatFails(_) => t
      case Invalidate(_) =>
        t.(writer := None, cached := NO_TOKEN,
           clearings := s.clearings + if Usable(s.cached, s.now) then 1 else 0)
  }

  /** The state a run leads to, or None if some step of it could not be taken. */
  function Run(n: nat, now: int, events: seq<Event>): (r: Option<State>)
    ensures r.Some? ==> |r.value.callers| == n
  {
    if events == [] then Some(Initial(n, now))
    else
      var before := Run(n, now, events[..|events| - 1]);
      var e := events[|events| - 1];
      if before.Some? && Enabled(before.value, e) then Some(Next(before.value, e)) else None
  }

  // ---------------------------------------------------------------- what every step keeps

  predicate HoldsWriteLock(pc: Pc) {
    pc.Checking? || pc.Fetching? || pc.Invalidating?
  }

  ghost predicate LockInv(s: State) {
    && (s.writer.Some? ==> s.readers == {} && s.writer.value < |s.callers|)
    && (forall i :: i in s.readers ==> i < |s.callers|)
    && (forall i :: 0 <= i < |s.callers| ==>
          && (s.callers[i].pc.Reading? <==> i in s.readers)
          && (HoldsWriteLock(s.callers[i].pc) <==> s.writer == Some(i)))
  }

  /** What a completion may have sent by the time it stands at pc. */
  function Budget(pc: Pc): Sent {
    match pc
    case Idle => Sent(0, 0, 0)
    case Fetching(goal) => var b := BudgetFor(goal); b.(auths := b.auths + 1)
    case Calling(isRetry, _) => if isRetry then Sent(2, 3, 1) else Sent(1, 1, 0)
    case WantInvalidate => Sent(1, 1, 0)
    case Invalidating => Sent(1, 1, 0)
    case Done(_) => Sent(2, 3, 1)
    case _ => BudgetFor(pc.goal)
  }

  function BudgetFor(goal: Goal): Sent {
    match goal
    case FirstCall => Sent(0, 0, 0)
    case Prefetch => Sent(1, 1, 1)
    case RetryCall => Sent(1, 2, 1)
  }

  predicate Within(sent: Sent, budget: Sent) {
    sent.chats <= budget.chats && sent.auths <= budget.auths && sent.invalidations <= budget.invalidations
  }

  ghost predicate CallersInv(s: State) {
    forall i :: 0 <= i < |s.callers| ==>
      && Within(s.callers[i].sent, Budget(s.callers[i].pc))
      && (s.callers[i].pc.Calling? ==> s.callers[i].pc.token in s.issued)
  }

  ghost predicate CacheInv(s: State) {
    && (s.cached.token == "" || s.cached.token in s.issued)
    && (forall i :: 0 <= i < |s.callers| && s.callers[i].pc.Fetching? ==> !Usable(s.cached, s.now))
    && s.goodFetches == s.clearings + s.lapses + if Usable(s.cached, s.now) then 1 else 0
  }

  ghost predicate Inv(s: State) {
    LockInv(s) && CallersInv(s) && CacheInv(s)
  }

  lemma LockInvKept(s: State, e: Event)
    requires LockInv(s) && Enabled(s, e)
    ensures LockInv(Next(s, e))
  {
  }

  lemma CallersInvKept(s: State, e: Event)
    requires CallersInv(s) && CacheInv(s) && Enabled(s, e)
    ensures CallersInv(Next(s, e))
  {
    if !e.Tick? {
      var c := NextCaller(s, e);
      assert Within(s.callers[e.i].sent, Budget(s.callers[e.i].pc));
      assert Within(c.sent, Budget(c.pc));
    }
  }

  lemma CacheInvKept(s: State, e: Event)
    requires Inv(s) && Enabled(s, e)
    ensures CacheInv(Next(s, e))
  {
    var t := Next(s, e);
    forall i | 0 <= i < |t.callers| && t.callers[i].pc.Fetching?
      ensures !Usable(t.cached, t.now)
    {
      if !e.Tick? && i != e.i {
        assert s.writer == Some(i);
        assert HoldsWriteLock(s.callers[e.i].pc) ==> s.writer == Some(e.i);
      }
    }
  }

  lemma {:induction false} InvHolds(n: nat, now: int, events: seq<Event>)
    requires Run(n, now, events).Some?
    ensures Inv(Run(n, now, events).value)
  {
    if events != [] {
      var init, e := events[..|events| - 1], events[|events| - 1];
      InvHolds(n, now, init);
      var s := Run(n, now, init).value;
      LockInvKept(s, e);
      CallersInvKept(s, e);
      CacheInvKept(s, e);
    }
  }

  // ---------------------------------------------------------------- what holds of every run

  /** An auth request is in flight only from the holder of the write lock, never beside another,
      and never while a usable token is cached. */
  lemma AuthOnlyWhenNeeded(n: nat, now: int, events: seq<Event>, i: nat)
    requires Run(n, now, events).Some? && i < n
    requires Run(n, now, events).value.callers[i].pc.Fetching?
    ensures var s := Run(n, now, events).value;
            && s.writer == Some(i) && s.readers == {}
            && !Usable(s.cached, s.now)
            && (forall j :: 0 <= j < n && s.callers[j].pc.Fetching? ==> j == i)
  {
    InvHolds(n, now, events);
    var s := Run(n, now, events).value;
    assert forall j :: 0 <= j < n && s.callers[j].pc.Fetching? ==> HoldsWriteLock(s.callers[j].pc);
  }

  ghost function CountReplies(events: seq<Event>): nat {
    if events == [] then 0
    else CountReplies(events[..|events| - 1]) + if events[|events| - 1].AuthAnswers? then 1 else 0
  }

  ghost function CountInvalidations(events: seq<Event>): nat {
    if events == [] then 0
    else CountInvalidations(events[..|events| - 1]) + if events[|events| - 1].Invalidate? then 1 else 0
  }

  lemma CountersStep(s: State, e: Event)
    requires Enabled(s, e)
    ensures var t := Next(s, e);
            && t.goodFetches + t.deadFetches == s.goodFetches + s.deadFetches + (if e.AuthAnswers? then 1 else 0)
            && t.clearings <= s.clearings + (if e.Invalidate? then 1 else 0)
  {
  }

  lemma {:induction false} CountersAreHonest(n: nat, now: int, events: seq<Event>)
    requires Run(n, now, events).Some?
    ensures var s := Run(n, now, events).value;
            && s.goodFetches + s.deadFetches == CountReplies(events)
            && s.clearings <= CountInvalidations(events)
  {
    if events != [] {
      var init, e := events[..|events| - 1], events[|events| - 1];
      CountersAreHonest(n, now, init);
      CountersStep(Run(n, now, init).value, e);
      assert Run(n, now, events).value == Next(Run(n, now, init).value, e);
    }
  }

  /** Conservation: each usable token fetched has been thrown away, has lapsed, or is the one still
      cached. So replies number at most one more than invalidations, lapses and dead replies. */
  lemma FetchesAreAccountedFor(n: nat, now: int, events: seq<Event>)
    requires Run(n, now, events).Some?
    ensures var s := Run(n, now, events).value;
            && s.goodFetches == s.clearings + s.lapses + (if Usable(s.cached, s.now) then 1 else 0)
            && CountReplies(events) <= 1 + CountInvalidations(events) + s.lapses + s.deadFetches
  {
    InvHolds(n, now, events);
    CountersAreHonest(n, now, events);
  }

  /** One completion sends at most two chat requests and three auth requests and invalidates at most
      once; it invalidates only after a refused first call; and its tokens are all issued ones. */
  lemma CompletionBudget(n: nat, now: int, events: seq<Event>, i: nat)
    requires Run(n, now, events).Some? && i < n
    ensures var c := Run(n, now, events).value.callers[i];
            && Within(c.sent, Sent(2, 3, 1))
            && (c.pc.Calling? && !c.pc.isRetry ==> Within(c.sent, Sent(1, 1, 0)))
            && (c.pc.Calling? ==> c.pc.token in Run(n, now, events).value.issued)
  {
    InvHolds(n, now, events);
    var c := Run(n, now, events).value.callers[i];
    assert Within(c.sent, Budget(c.pc));
  }

  // ---------------------------------------------------------------- the token that was refused

  /** No auth reply brings a token that was issued before. */
  ghost predicate NeverRepeats(n: nat, now: int, events: seq<Event>) {
    events == [] ||
    (var init, e := events[..|events| - 1], events[|events| - 1];
     && NeverRepeats(n, now, init)
     && (e.AuthAnswers? && Run(n, now, init).Some? ==> e.reply.accessToken !in Run(n, now, init).value.issued))
  }

  /** Past its invalidation, so that the token of the first call has been refused. */
  predicate IsRetrying(pc: Pc) {
    || (pc.Calling? && pc.isRetry)
    || ((pc.WantRead? || pc.Reading? || pc.WantWrite? || pc.Checking? || pc.Fetching?) && !pc.goal.FirstCall?)
  }

  predicate HasCalled(pc: Pc) {
    pc.WantInvalidate? || pc.Invalidating? || (pc.Calling? && !pc.isRetry)
  }

  ghost predicate RefusedIsGone(c: Caller, cached: Cached, issued: set<string>) {
    && (HasCalled(c.pc) ==> c.first in issued)
    && (IsRetrying(c.pc) ==> c.first in issued && (cached.token == "" || cached.token != c.first))
    && (c.pc.Calling? && c.pc.isRetry ==> c.pc.token != c.first)
  }

  ghost predicate RetryInv(s: State) {
    forall i :: 0 <= i < |s.callers| ==> RefusedIsGone(s.callers[i], s.cached, s.issued)
  }

  lemma RetryInvKept(s: State, e: Event)
    requires RetryInv(s) && CallersInv(s) && CacheInv(s) && Enabled(s, e)
    requires e.AuthAnswers? ==> e.reply.accessToken !in s.issued
    ensures RetryInv(Next(s, e))
  {
    var t := Next(s, e);
    forall i | 0 <= i < |t.callers| ensures RefusedIsGone(t.callers[i], t.cached, t.issued) {
      assert RefusedIsGone(s.callers[i], s.cached, s.issued);
      if !e.Tick? && i == e.i {
        assert s.callers[i].pc.Calling? ==> s.callers[i].pc.token in s.issued;
      }
    }
  }

  lemma {:induction false} RetryInvHolds(n: nat, now: int, events: seq<Event>)
    requires Run(n, now, events).Some? && NeverRepeats(n, now, events)
    ensures RetryInv(Run(n, now, events).value)
  {
    if events != [] {
      var init, e := events[..|events| - 1], events[|events| - 1];
      RetryInvHolds(n, now, init);
      InvHolds(n, now, init);
      hide LockInv, CallersInv, CacheInv, RetryInv, Enabled, Next;
      RetryInvKept(Run(n, now, init).value, e);
    }
  }

  /** If auth replies never repeat a token, the second chat call never carries the one refused on the
      first. */
  lemma RefusedTokenIsNotResent(n: nat, now: int, events: seq<Event>, i: nat)
    requires Run(n, now, events).Some? && NeverRepeats(n, now, events) && i < n
    ensures var c := Run(n, now, events).value.callers[i];
            c.pc.Calling? && c.pc.isRetry ==> c.pc.token != c.first
  {
    RetryInvHolds(n, now, events);
    var s := Run(n, now, events).value;
    assert RefusedIsGone(s.callers[i], s.cached, s.issued);
  }

  // ---------------------------------------------------------------- what an invalidation throws away

  /** The last step that wrote the cached token. */
  ghost function LastWrite(events: seq<Event>): (e: Option<Event>)
    ensures e.Some? ==> e.value.AuthAnswers? || e.value.Invalidate?
  {
    if events == [] then None
    else
      var last := events[|events| - 1];
      if last.AuthAnswers? || last.Invalidate? then Some(last) else LastWrite(events[..|events| - 1])
  }

  ghost predicate WriteInv(s: State, write: Option<Event>) {
    && (write.Some? ==> write.value.AuthAnswers? || write.value.Invalidate?)
    && s.cached == (if write.Some? && write.value.AuthAnswers? then FromReply(write.value.reply) else NO_TOKEN)
    && forall i :: 0 <= i < |s.callers| && HasCalled(s.callers[i].pc) ==> IsOwnToken(s.callers[i], i, write)
  }

  /** What this caller itself wrote last is what it calls with. */
  ghost predicate IsOwnToken(c: Caller, i: nat, write: Option<Event>) {
    && (c.pc.Calling? ==> c.pc.token == c.first)
    && (write.Some? && write.value.AuthAnswers? && write.value.i == i ==> write.value.reply.accessToken == c.first)
  }

  lemma WriteInvKept(s: State, e: Event, write: Option<Event>)
    requires WriteInv(s, write) && Enabled(s, e)
    ensures WriteInv(Next(s, e), if e.AuthAnswers? || e.Invalidate? then Some(e) else write)
  {
    var t, write' := Next(s, e), if e.AuthAnswers? || e.Invalidate? then Some(e) else write;
    forall i | 0 <= i < |t.callers| && HasCalled(t.callers[i].pc) ensures IsOwnToken(t.callers[i], i, write') {
      assert HasCalled(s.callers[i].pc) ==> IsOwnToken(s.callers[i], i, write);
    }
  }

  lemma {:induction false} WriteInvHolds(n: nat, now: int, events: seq<Event>)
    requires Run(n, now, events).Some?
    ensures WriteInv(Run(n, now, events).value, LastWrite(events))
  {
    if events != [] {
      var init, e := events[..|events| - 1], events[|events| - 1];
      WriteInvHolds(n, now, init);
      hide WriteInv, Enabled, Next;
      WriteInvKept(Run(n, now, init).value, e, LastWrite(init));
    }
  }

  /** A token other than the refused one, when an invalidation throws it away, came from another
      caller. */
  lemma ThrownAwayTokenIsAnothers(n: nat, now: int, events: seq<Event>, i: nat)
    requires Run(n, now, events).Some? && Enabled(Run(n, now, events).value, Invalidate(i))
    ensures var s, write := Run(n, now, events).value, LastWrite(events);
            && Next(s, Invalidate(i)).cached == NO_TOKEN
            && (s.cached.token != "" && s.cached.token != s.callers[i].first <==>
                && write.Some? && write.value.AuthAnswers? && write.value.i != i
                && write.value.reply.accessToken != "" && write.value.reply.accessToken != s.callers[i].first)
  {
    WriteInvHolds(n, now, events);
    var s := Run(n, now, events).value;
    assert IsOwnToken(s.callers[i], i, LastWrite(events));
  }

  predicate IsFirstCall(pc: Pc) {
    pc.Calling? && !pc.isRetry
  }

  /** The cached token was written after caller i was last handed a token for a first call. */
  ghost predicate WrittenSince(n: nat, now: int, events: seq<Event>, i: nat) {
    events != [] &&
    (var init, e := events[..|events| - 1], events[|events| - 1];
     if Run(n, now, init).None? || !Enabled(Run(n, now, init).value, e) then false
     else StillWritten(Run(n, now, init).value, e, i, WrittenSince(n, now, init, i)))
  }

  predicate StillWritten(s: State, e: Event, i: nat, written: bool)
    requires Enabled(s, e)
  {
    if !e.Tick? && e.i == i && IsFirstCall(NextCaller(s, e).pc) then false
    else written || e.AuthAnswers? || e.Invalidate?
  }

  /** Until the next write the cache holds what the caller was handed, and from then on something else. */
  ghost predicate SinceInv(s: State, i: nat, written: bool) {
    i < |s.callers| && HasCalled(s.callers[i].pc) ==>
      if written then s.cached.token == "" || s.cached.token != s.callers[i].first
      else s.cached.token == s.callers[i].first
  }

  lemma SinceInvKept(s: State, e: Event, i: nat, written: bool)
    requires SinceInv(s, i, written) && RetryInv(s) && Enabled(s, e)
    requires e.AuthAnswers? ==> e.reply.accessToken !in s.issued
    ensures SinceInv(Next(s, e), i, StillWritten(s, e, i, written))
  {
    if i < |s.callers| {
      assert RefusedIsGone(s.callers[i], s.cached, s.issued);
    }
  }

  lemma {:induction false} SinceInvHolds(n: nat, now: int, events: seq<Event>, i: nat)
    requires Run(n, now, events).Some? && NeverRepeats(n, now, events)
    ensures SinceInv(Run(n, now, events).value, i, WrittenSince(n, now, events, i))
  {
    if events != [] {
      var init, e := events[..|events| - 1], events[|events| - 1];
      SinceInvHolds(n, now, init, i);
      RetryInvHolds(n, now, init);
      hide SinceInv, RetryInv, Enabled, Next, StillWritten;
      SinceInvKept(Run(n, now, init).value, e, i, WrittenSince(n, now, init, i));
    }
  }

  /** If auth replies never repeat a token, an invalidation throws away another token than the refused
      one exactly when the last write to the cache was a non-empty auth reply that came after the caller
      was handed the refused one. */
  lemma NewerTokenIsThrownAwayIff(n: nat, now: int, events: seq<Event>, i: nat)
    requires Run(n, now, events).Some? && NeverRepeats(n, now, events)
    requires Enabled(Run(n, now, events).value, Invalidate(i))
    ensures var s, write := Run(n, now, events).value, LastWrite(events);
            s.cached.token != "" && s.cached.token != s.callers[i].first <==>
            && write.Some? && write.value.AuthAnswers? && write.value.reply.accessToken != ""
            && WrittenSince(n, now, events, i)
  {
    hide Run, LastWrite, WrittenSince, NeverRepeats;
    WriteInvHolds(n, now, events);
    SinceInvHolds(n, now, events, i);
  }

  lemma OneMoreStep(n: nat, now: int, events: seq<Event>, s: State, e: Event) returns (t: State)
    requires Run(n, now, events) == Some(s) && Enabled(s, e)
    ensures t == Next(s, e) && Run(n, now, events + [e]) == Some(t)
  {
    assert (events + [e])[..|events|] == events;
    t := Next(s, e);
  }

  const OLD := AuthReply("old", 1_000_000_000)
  const NEW := AuthReply("new", 1_000_000_000)

  const NEWCOMER := Caller(Idle, Sent(0, 0, 0), "")
  const WITH_OLD := Caller(Calling(false, "old"), Sent(1, 0, 0), "old")

  /** The first of two callers waits for its auth reply. */
  const ONE_FETCHES := State(
    NO_TOKEN, 0, Some(0), {}, [Caller(Fetching(FirstCall), Sent(0, 1, 0), ""), NEWCOMER], {}, 0, 0, 0, 0)

  /** It has the token and calls with it. */
  const ONE_CALLS := State(
    FromReply(OLD), 0, None, {}, [WITH_OLD.(sent := Sent(1, 1, 0)), NEWCOMER], {"old"}, 1, 0, 0, 0)

  /** Both call with it. */
  const TWO_CALL := ONE_CALLS.(callers := [WITH_OLD.(sent := Sent(1, 1, 0)), WITH_OLD])

  /** Both are refused, and the first has invalidated it. */
  const ONE_CLEARED := TWO_CALL.(
    cached := NO_TOKEN, clearings := 1,
    callers := [Caller(WantRead(Prefetch), Sent(1, 1, 1), "old"), WITH_OLD.(pc := WantInvalidate)])

  /** The first has fetched a new token; the second holds the write lock. */
  const ONE_IS_LATE := State(
    FromReply(NEW), 0, Some(1), {},
    [Caller(WantRead(RetryCall), Sent(1, 2, 1), "old"), WITH_OLD.(pc := Invalidating)],
    {"old", "new"}, 2, 0, 1, 0)

  lemma OneCanFetch() returns (events: seq<Event>)
    ensures Run(2, 0, events) == Some(ONE_FETCHES)
  {
    events := [];
    var s := Initial(2, 0);
    assert s.callers == [NEWCOMER, NEWCOMER] && Run(2, 0, events) == Some(s);
    hide Run, Initial;
    s := OneMoreStep(2, 0, events, s, Start(0));
    events := events + [Start(0)];
    s := OneMoreStep(2, 0, events, s, LockRead(0));
    events := events + [LockRead(0)];
    s := OneMoreStep(2, 0, events, s, CheckRead(0));
    events := events + [CheckRead(0)];
    s := OneMoreStep(2, 0, events, s, LockWrite(0));
    events := events + [LockWrite(0)];
    s := OneMoreStep(2, 0, events, s, CheckWrite(0));
    events := events + [CheckWrite(0)];
    assert s == ONE_FETCHES;
  }

  lemma OneCanCall() returns (events: seq<Event>)
    ensures Run(2, 0, events) == Some(ONE_CALLS)
  {
    hide Run;
    events := OneCanFetch();
    var s := OneMoreStep(2, 0, events, ONE_FETCHES, AuthAnswers(0, OLD));
    events := events + [AuthAnswers(0, OLD)];
    assert s == ONE_CALLS;
  }

  lemma TwoCanCall() returns (events: seq<Event>)
    ensures Run(2, 0, events) == Some(TWO_CALL)
  {
    hide Run;
    events := OneCanCall();
    var s := ONE_CALLS;
    s := OneMoreStep(2, 0, events, s, Start(1));
    events := events + [Start(1)];
    s := OneMoreStep(2, 0, events, s, LockRead(1));
    events := events + [LockRead(1)];
    s := OneMoreStep(2, 0, events, s, CheckRead(1));
    events := events + [CheckRead(1)];
    assert s == TWO_CALL;
  }

  lemma OneCanClear() returns (events: seq<Event>)
    ensures Run(2, 0, events) == Some(ONE_CLEARED)
  {
    hide Run;
    events := TwoCanCall();
    var s := TWO_CALL;
    s := OneMoreStep(2, 0, events, s, ChatAnswers(0, true, false));
    events := events + [ChatAnswers(0, true, false)];
    s := OneMoreStep(2, 0, events, s, ChatAnswers(1, true, false));
    events := events + [ChatAnswers(1, true, false)];
    s := OneMoreStep(2, 0, events, s, LockWrite(0));
    events := events + [LockWrite(0)];
    s := OneMoreStep(2, 0, events, s, Invalidate(0));
    events := events + [Invalidate(0)];
    assert s == ONE_CLEARED;
  }

  /** Such a run exists: a new token, used by nobody yet, is about to be thrown away by a caller whose
      older one was refused. */
  lemma NewerTokenCanBeThrownAway() returns (events: seq<Event>)
    ensures Run(2, 0, events) == Some(ONE_IS_LATE)
    ensures Usable(ONE_IS_LATE.cached, 0) && Enabled(ONE_IS_LATE, Invalidate(1))
    ensures ONE_IS_LATE.cached.token != ONE_IS_LATE.callers[1].first
    ensures Next(ONE_IS_LATE, Invalidate(1)).cached == NO_TOKEN
  {
    hide Run;
    events := OneCanClear();
    var s := ONE_CLEARED;
    s := OneMoreStep(2, 0, events, s, LockRead(0));
    events := events + [LockRead(0)];
    s := OneMoreStep(2, 0, events, s, CheckRead(0));
    events := events + [CheckRead(0)];
    s := OneMoreStep(2, 0, events, s, LockWrite(0));
    events := events + [LockWrite(0)];
    s := OneMoreStep(2, 0, events, s, CheckWrite(0));
    events := events + [CheckWrite(0)];
    s := OneMoreStep(2, 0, events, s, AuthAnswers(0, NEW));
    events := events + [AuthAnswers(0, NEW)];
    s := OneMoreStep(2, 0, events, s, LockWrite(1));
    events := events + [LockWrite(1)];
    assert s == ONE_IS_LATE;
  }

  // ---------------------------------------------------------------- progress

  predicate Active(pc: Pc) {
    !pc.Idle? && !pc.Done?
  }

  /** No deadlock: while some completion is unfinished, some unfinished completion can move. */
  lemma SomeoneCanMove(s: State, i: nat) returns (e: Event)
    requires LockInv(s) && i < |s.callers| && Active(s.callers[i].pc)
    ensures Enabled(s, e) && !e.Tick? && !e.Start? && Active(s.callers[e.i].pc)
  {
    if s.writer.Some? {
      var w := s.writer.value;
      assert HoldsWriteLock(s.callers[w].pc);
      match s.callers[w].pc
      case Checking(_) => e := CheckWrite(w);
      case Fetching(_) => e := AuthFails(w);
      case Invalidating => e := Invalidate(w);
    } else if s.readers != {} {
      var r := AnyReader(s.readers);
      assert s.callers[r].pc.Reading?;
      e := CheckRead(r);
    } else {
      assert !HoldsWriteLock(s.callers[i].pc) && !s.callers[i].pc.Reading?;
      match s.callers[i].pc
      case WantRead(_) => e := LockRead(i);
      case WantWrite(_) => e := LockWrite(i);
      case WantInvalidate => e := LockWrite(i);
      case Calling(_, _) => e := ChatFails(i);
    }
  }

  lemma AnyReader(readers: set<nat>) returns (r: nat)
    requires readers != {}
    ensures r in readers
  {
    r :| r in readers;
  }

  /** The most steps of its own that a completion standing at pc can still take. */
  function StepsLeft(pc: Pc): nat {
    match pc
    case Idle => 0
    case WantRead(goal) => StepsLeftFor(goal) + 5
    case Reading(goal) => StepsLeftFor(goal) + 4
    case WantWrite(goal) => StepsLeftFor(goal) + 3
    case Checking(goal) => StepsLeftFor(goal) + 2
    case Fetching(goal) => StepsLeftFor(goal) + 1
    case Calling(isRetry, _) => if isRetry then 1 else 14
    case WantInvalidate => 13
    case Invalidating => 12
    case Done(_) => 0
  }

  /** The same once the token is in hand. */
  function StepsLeftFor(goal: Goal): nat {
    match goal
    case FirstCall => 14
    case Prefetch => 6
    case RetryCall => 1
  }

  ghost function CountStarts(events: seq<Event>, i: nat): nat {
    if events == [] then 0
    else CountStarts(events[..|events| - 1], i) + if events[|events| - 1] == Start(i) then 1 else 0
  }

  ghost function CountSteps(events: seq<Event>, i: nat): nat {
    if events == [] then 0
    else
      var e := events[|events| - 1];
      CountSteps(events[..|events| - 1], i) + if !e.Tick? && !e.Start? && e.i == i then 1 else 0
  }

  lemma OwnStepsRunOut(s: State, e: Event, i: nat)
    requires Enabled(s, e) && i < |s.callers|
    ensures var before, after := StepsLeft(s.callers[i].pc), StepsLeft(Next(s, e).callers[i].pc);
            if e.Tick? || e.i != i then after == before
            else if e.Start? then after == 19 else after < before
  {
  }

  /** With SomeoneCanMove: every completion ends, after at most nineteen steps of its own. */
  lemma {:induction false} CompletionsAreShort(n: nat, now: int, events: seq<Event>, i: nat)
    requires Run(n, now, events).Some? && i < n
    ensures CountSteps(events, i) + StepsLeft(Run(n, now, events).value.callers[i].pc) <= 19 * CountStarts(events, i)
  {
    if events != [] {
      var init, e := events[..|events| - 1], events[|events| - 1];
      CompletionsAreShort(n, now, init, i);
      InvHolds(n, now, init);
      OwnStepsRunOut(Run(n, now, init).value, e, i);
    }
  }
}
