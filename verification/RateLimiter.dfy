/** The per-user sliding-window limiter.

    The clock is a parameter: every call carries the instant at which it reads it. A call runs
    entirely under the limiter's mutex, so an interleaving of callers and of the background sweep
    is a sequence of whole operations, and a run is such a sequence with a non-decreasing clock. */
module RateLimiter {
  import opened MapIteration
  import opened Options

  // time.Minute, in nanoseconds
  const MINUTE: int := 60_000_000_000
  const DEFAULT_LIMIT: int := 10

  datatype Config = Config(limit: int, window: int)

  ghost predicate ValidConfig(cfg: Config) {
    cfg.limit >= 1 && cfg.window >= 1
  }

  /** The timestamps strictly after the cutoff, in order. */
  function Fresh(ts: seq<int>, cutoff: int): seq<int> {
    if ts == [] then []
    else
      var kept := Fresh(ts[..|ts| - 1], cutoff);
      if ts[|ts| - 1] > cutoff then kept + [ts[|ts| - 1]] else kept
  }

  lemma FreshSnoc(ts: seq<int>, x: int, cutoff: int)
    ensures Fresh(ts + [x], cutoff) == if x > cutoff then Fresh(ts, cutoff) + [x] else Fresh(ts, cutoff)
  {
    assert (ts + [x])[..|ts|] == ts;
  }

  lemma {:induction false} FreshTwice(ts: seq<int>, early: int, late: int)
    requires early <= late
    ensures Fresh(Fresh(ts, early), late) == Fresh(ts, late)
  {
    if ts != [] {
      var init, last := ts[..|ts| - 1], ts[|ts| - 1];
      FreshTwice(init, early, late);
      if last > early {
        FreshSnoc(Fresh(init, early), last, late);
      }
    }
  }

  lemma {:induction false} FreshLength(ts: seq<int>, cutoff: int)
    ensures |Fresh(ts, cutoff)| <= |ts|
  {
    if ts != [] {
      FreshLength(ts[..|ts| - 1], cutoff);
    }
  }

  lemma {:induction false} FreshElements(ts: seq<int>, cutoff: int)
    ensures forall t :: t in Fresh(ts, cutoff) ==> t in ts && t > cutoff
  {
    if ts != [] {
      FreshElements(ts[..|ts| - 1], cutoff);
    }
  }

  function Oldest(ts: seq<int>): (oldest: int)
    requires ts != []
  {
    if |ts| == 1 then ts[0]
    else
      var rest := Oldest(ts[..|ts| - 1]);
      if ts[|ts| - 1] < rest then ts[|ts| - 1] else rest
  }

  /** The oldest timestamp decides whether a cutoff makes anything stale. */
  lemma {:induction false} OldestDecides(ts: seq<int>, cutoff: int)
    requires ts != []
    ensures Oldest(ts) > cutoff ==> Fresh(ts, cutoff) == ts
    ensures Oldest(ts) <= cutoff ==> |Fresh(ts, cutoff)| < |ts|
  {
    var init := ts[..|ts| - 1];
    FreshLength(init, cutoff);
    if init != [] {
      OldestDecides(init, cutoff);
    }
    assert init + [ts[|ts| - 1]] == ts;
  }

  lemma {:induction false} OldestIsMinimum(ts: seq<int>)
    requires ts != []
    ensures Oldest(ts) in ts
    ensures forall t :: t in ts ==> Oldest(ts) <= t
  {
    if |ts| > 1 {
      OldestIsMinimum(ts[..|ts| - 1]);
      assert ts == ts[..|ts| - 1] + [ts[|ts| - 1]];
    }
  }

  // ---------------------------------------------------------------- operations on values

  type Logs = map<int, seq<int>>

  datatype Op =
    | Allow(user: int, at: int)
    | Remaining(user: int, at: int)
    | Reset(user: int, at: int)
    | Sweep(at: int)

  datatype Answer = Decision(ok: bool) | Left(calls: int) | ResetsAt(time: int) | Swept

  function LogOf(logs: Logs, user: int): seq<int> {
    if user in logs then logs[user] else []
  }

  function SweepLogs(logs: Logs, cutoff: int): Logs {
    map user | user in logs && Fresh(logs[user], cutoff) != [] :: Fresh(logs[user], cutoff)
  }

  /** One operation: the logs it leaves and what it answers. */
  function Apply(cfg: Config, logs: Logs, op: Op): (Logs, Answer) {
    match op
    case Allow(user, at) =>
      var kept := Fresh(LogOf(logs, user), at - cfg.window);
      if |kept| >= cfg.limit then (logs[user := kept], Decision(false))
      else (logs[user := kept + [at]], Decision(true))
    case Remaining(user, at) =>
      var spare := cfg.limit - |Fresh(LogOf(logs, user), at - cfg.window)|;
      (logs, Left(if spare > 0 then spare else 0))
    case Reset(user, at) =>
      var log := LogOf(logs, user);
      (logs, ResetsAt(if log == [] then at else Oldest(log) + cfg.window))
    case Sweep(at) => (SweepLogs(logs, at - cfg.window), Swept)
  }

  function LogsAfter(cfg: Config, ops: seq<Op>): Logs {
    if ops == [] then map[] else Apply(cfg, LogsAfter(cfg, ops[..|ops| - 1]), ops[|ops| - 1]).0
  }

  lemma LogsAfterSnoc(cfg: Config, ops: seq<Op>, op: Op)
    ensures LogsAfter(cfg, ops + [op]) == Apply(cfg, LogsAfter(cfg, ops), op).0
  {
    assert (ops + [op])[..|ops|] == ops;
  }

  /** What the limiter answers to op when the run so far was ops. */
  function AnswerTo(cfg: Config, ops: seq<Op>, op: Op): Answer {
    Apply(cfg, LogsAfter(cfg, ops), op).1
  }

  /** The run's clock has reached at most this instant. */
  ghost predicate ReachedBy(ops: seq<Op>, at: int) {
    ops != [] ==> ops[|ops| - 1].at <= at
  }

  ghost predicate Monotone(ops: seq<Op>) {
    ops == [] || (Monotone(ops[..|ops| - 1]) && ReachedBy(ops[..|ops| - 1], ops[|ops| - 1].at))
  }

  lemma {:induction false} MonotonePrefix(ops: seq<Op>, more: seq<Op>)
    requires Monotone(ops + more)
    ensures Monotone(ops)
  {
    if more == [] {
      assert ops + more == ops;
    } else {
      assert (ops + more)[..|ops + more| - 1] == ops + more[..|more| - 1];
      MonotonePrefix(ops, more[..|more| - 1]);
    }
  }

  // ---------------------------------------------------------------- specification

  /** The specification never forgets: it keeps every admission of one user and looks at nothing
      but that user's Allow calls. */
  ghost function Admitted(cfg: Config, ops: seq<Op>, user: int): seq<int> {
    if ops == [] then []
    else
      var past, last := Admitted(cfg, ops[..|ops| - 1], user), ops[|ops| - 1];
      if last.Allow? && last.user == user && |Fresh(past, last.at - cfg.window)| < cfg.limit
      then past + [last.at] else past
  }

  /** How many admissions of the user lie in the window that ends at this instant or later. */
  ghost function InWindow(cfg: Config, ops: seq<Op>, user: int, at: int): nat {
    |Fresh(Admitted(cfg, ops, user), at - cfg.window)|
  }

  /** The instants of a run at which the limiter itself let the user through. */
  ghost function Grants(cfg: Config, ops: seq<Op>, user: int): seq<int> {
    if ops == [] then []
    else
      var init, last := ops[..|ops| - 1], ops[|ops| - 1];
      if last.Allow? && last.user == user && AnswerTo(cfg, init, last) == Decision(true)
      then Grants(cfg, init, user) + [last.at] else Grants(cfg, init, user)
  }

  /** What one operation leaves of a user's log. */
  lemma ApplyToLog(cfg: Config, logs: Logs, op: Op, user: int)
    ensures var before, kept := LogOf(logs, user), Fresh(LogOf(logs, user), op.at - cfg.window);
            LogOf(Apply(cfg, logs, op).0, user) ==
            if op.Allow? && op.user == user then (if |kept| < cfg.limit then kept + [op.at] else kept)
            else if op.Sweep? then kept else before
  {
  }

  /** What one operation does to the part of a user's log that lies after a cutoff. */
  lemma ApplyAfterCutoff(cfg: Config, logs: Logs, op: Op, user: int, cutoff: int)
    requires cutoff >= op.at - cfg.window
    ensures var before, after := LogOf(logs, user), LogOf(Apply(cfg, logs, op).0, user);
            Fresh(after, cutoff) ==
            if op.Allow? && op.user == user && |Fresh(before, op.at - cfg.window)| < cfg.limit && op.at > cutoff
            then Fresh(before, cutoff) + [op.at] else Fresh(before, cutoff)
  {
    var before, after := LogOf(logs, user), LogOf(Apply(cfg, logs, op).0, user);
    ApplyToLog(cfg, logs, op, user);
    FreshAfterStep(before, after, op.at, op.at - cfg.window, cutoff);
  }

  /** A log that was pruned, and perhaps gained one element, seen after a later cutoff. */
  lemma FreshAfterStep(before: seq<int>, after: seq<int>, at: int, early: int, late: int)
    requires early <= late
    ensures after == Fresh(before, early) ==> Fresh(after, late) == Fresh(before, late)
    ensures after == Fresh(before, early) + [at] ==>
              Fresh(after, late) == if at > late then Fresh(before, late) + [at] else Fresh(before, late)
  {
    FreshTwice(before, early, late);
    FreshSnoc(Fresh(before, early), at, late);
  }

  lemma HistoryAfterCutoff(cfg: Config, ops: seq<Op>, op: Op, user: int, cutoff: int)
    ensures var before, after := Admitted(cfg, ops, user), Admitted(cfg, ops + [op], user);
            Fresh(after, cutoff) ==
            if op.Allow? && op.user == user && |Fresh(before, op.at - cfg.window)| < cfg.limit && op.at > cutoff
            then Fresh(before, cutoff) + [op.at] else Fresh(before, cutoff)
  {
    assert (ops + [op])[..|ops|] == ops;
    FreshSnoc(Admitted(cfg, ops, user), op.at, cutoff);
  }

  ghost predicate Agree(cfg: Config, ops: seq<Op>, user: int, cutoff: int) {
    Fresh(LogOf(LogsAfter(cfg, ops), user), cutoff) == Fresh(Admitted(cfg, ops, user), cutoff)
  }

  lemma AgreeSnoc(cfg: Config, ops: seq<Op>, op: Op, user: int, cutoff: int)
    requires cutoff >= op.at - cfg.window
    requires Agree(cfg, ops, user, cutoff) && Agree(cfg, ops, user, op.at - cfg.window)
    ensures Agree(cfg, ops + [op], user, cutoff)
  {
    LogsAfterSnoc(cfg, ops, op);
    ApplyAfterCutoff(cfg, LogsAfter(cfg, ops), op, user, cutoff);
    HistoryAfterCutoff(cfg, ops, op, user, cutoff);
  }

  lemma NothingToAgreeOn(cfg: Config, user: int, cutoff: int)
    ensures Agree(cfg, [], user, cutoff)
  {
  }

  /** The pruned log and the full history agree on everything that can still matter. */
  lemma {:induction false} LogAgreesWithHistory(cfg: Config, ops: seq<Op>, user: int, cutoff: int)
    requires ValidConfig(cfg) && Monotone(ops)
    requires ReachedBy(ops, cutoff + cfg.window)
    ensures Agree(cfg, ops, user, cutoff)
    decreases |ops|
  {
    hide Agree;
    if |ops| == 0 {
      NothingToAgreeOn(cfg, user, cutoff);
    } else {
      var init, last := ops[..|ops| - 1], ops[|ops| - 1];
      LogAgreesWithHistory(cfg, init, user, cutoff);
      LogAgreesWithHistory(cfg, init, user, last.at - cfg.window);
      AgreeSnoc(cfg, init, last, user, cutoff);
      assert init + [last] == ops;
    }
  }

  lemma AnswerFromLog(cfg: Config, logs: Logs, op: Op)
    requires op.Allow? || op.Remaining?
    ensures Apply(cfg, logs, op).1 == AnswerFor(cfg, op, |Fresh(LogOf(logs, op.user), op.at - cfg.window)|)
  {
  }

  /** What a limiter says that sees this many requests in the window. */
  function AnswerFor(cfg: Config, op: Op, inWindow: nat): Answer {
    if op.Allow? then Decision(inWindow < cfg.limit)
    else Left(if inWindow < cfg.limit then cfg.limit - inWindow else 0)
  }

  /** Refinement: whatever other users, the sweep and earlier pruning did, every Allow and
      Remaining answers as if the whole admission history had been kept. */
  lemma AnswersRefineHistory(cfg: Config, ops: seq<Op>, op: Op)
    requires ValidConfig(cfg) && Monotone(ops) && ReachedBy(ops, op.at)
    requires op.Allow? || op.Remaining?
    ensures AnswerTo(cfg, ops, op) == AnswerFor(cfg, op, InWindow(cfg, ops, op.user, op.at))
  {
    hide LogsAfter, Admitted, Fresh, Monotone, Apply, AnswerFor, LogOf;
    LogAgreesWithHistory(cfg, ops, op.user, op.at - cfg.window);
    AnswerFromLog(cfg, LogsAfter(cfg, ops), op);
  }

  lemma {:induction false} GrantsAreAdmissions(cfg: Config, ops: seq<Op>, user: int)
    requires ValidConfig(cfg) && Monotone(ops)
    ensures Grants(cfg, ops, user) == Admitted(cfg, ops, user)
  {
    if ops != [] {
      var init, last := ops[..|ops| - 1], ops[|ops| - 1];
      GrantsAreAdmissions(cfg, init, user);
      hide LogsAfter, AnswerTo, Fresh;
      if last.Allow? && last.user == user {
        AnswersRefineHistory(cfg, init, last);
      }
    }
  }

  // ---------------------------------------------------------------- whole-run safety

  /** How many instants lie in the half-open interval (from, to]. */
  ghost function CountIn(ts: seq<int>, from: int, to: int): nat {
    if ts == [] then 0
    else CountIn(ts[..|ts| - 1], from, to) + if from < ts[|ts| - 1] <= to then 1 else 0
  }

  lemma {:induction false} CountInAtMostFresh(ts: seq<int>, from: int, to: int, cutoff: int)
    requires cutoff <= from
    ensures CountIn(ts, from, to) <= |Fresh(ts, cutoff)|
  {
    if ts != [] {
      CountInAtMostFresh(ts[..|ts| - 1], from, to, cutoff);
    }
  }

  lemma {:induction false} HistoryNeverExceedsLimit(cfg: Config, ops: seq<Op>, user: int, from: int)
    requires ValidConfig(cfg)
    ensures CountIn(Admitted(cfg, ops, user), from, from + cfg.window) <= cfg.limit
  {
    if ops != [] {
      var init, last := ops[..|ops| - 1], ops[|ops| - 1];
      var past := Admitted(cfg, init, user);
      HistoryNeverExceedsLimit(cfg, init, user, from);
      if Admitted(cfg, ops, user) != past && from < last.at <= from + cfg.window {
        assert (past + [last.at])[..|past|] == past;
        CountInAtMostFresh(past, from, from + cfg.window, last.at - cfg.window);
      } else if Admitted(cfg, ops, user) != past {
        assert (past + [last.at])[..|past|] == past;
      }
    }
  }

  /** No interval one window long ever holds more than limit requests that were let through. */
  lemma WindowSafety(cfg: Config, ops: seq<Op>, user: int, from: int)
    requires ValidConfig(cfg) && Monotone(ops)
    ensures CountIn(Grants(cfg, ops, user), from, from + cfg.window) <= cfg.limit
  {
    GrantsAreAdmissions(cfg, ops, user);
    HistoryNeverExceedsLimit(cfg, ops, user, from);
  }

  // ---------------------------------------------------------------- answers by counting

  lemma {:induction false} FreshIsCount(ts: seq<int>, cutoff: int, to: int)
    requires forall i :: 0 <= i < |ts| ==> ts[i] <= to
    ensures |Fresh(ts, cutoff)| == CountIn(ts, cutoff, to)
  {
    if ts != [] {
      FreshIsCount(ts[..|ts| - 1], cutoff, to);
    }
  }

  lemma {:induction false} NothingAdmittedLater(cfg: Config, ops: seq<Op>, user: int, at: int)
    requires Monotone(ops) && ReachedBy(ops, at)
    ensures forall i :: 0 <= i < |Admitted(cfg, ops, user)| ==> Admitted(cfg, ops, user)[i] <= at
  {
    if ops != [] {
      NothingAdmittedLater(cfg, ops[..|ops| - 1], user, ops[|ops| - 1].at);
    }
  }

  /** A call is let through exactly when fewer than limit calls were in the window that it ends, and
      RemainingRequests says how many fewer. */
  lemma {:induction false} AnswersCountGrants(cfg: Config, ops: seq<Op>, op: Op)
    requires ValidConfig(cfg) && Monotone(ops) && ReachedBy(ops, op.at)
    requires op.Allow? || op.Remaining?
    ensures var n := CountIn(Grants(cfg, ops, op.user), op.at - cfg.window, op.at);
            && (op.Allow? ==> AnswerTo(cfg, ops, op) == Decision(n < cfg.limit))
            && (op.Remaining? ==> AnswerTo(cfg, ops, op) == Left(if n < cfg.limit then cfg.limit - n else 0))
  {
    hide Admitted, Grants, Fresh, CountIn, AnswerTo;
    GrantsAreAdmissions(cfg, ops, op.user);
    AnswersRefineHistory(cfg, ops, op);
    NothingAdmittedLater(cfg, ops, op.user, op.at);
    FreshIsCount(Admitted(cfg, ops, op.user), op.at - cfg.window, op.at);
  }

  // ---------------------------------------------------------------- what is still known of a user

  predicate Prunes(op: Op, user: int) {
    op.Sweep? || (op.Allow? && op.user == user)
  }

  /** When the user's log was last pruned: by an Allow of the user's or by a sweep. */
  ghost function LastPrune(ops: seq<Op>, user: int): Option<int> {
    if ops == [] then None
    else
      var last := ops[|ops| - 1];
      if Prunes(last, user) then Some(last.at)
      else LastPrune(ops[..|ops| - 1], user)
  }

  /** The admissions that were still in the window when the log was last pruned. */
  ghost function Known(cfg: Config, ops: seq<Op>, user: int): seq<int> {
    var pruned := LastPrune(ops, user);
    if pruned.None? then [] else Fresh(Admitted(cfg, ops, user), pruned.value - cfg.window)
  }

  lemma LogAfterPrune(cfg: Config, logs: Logs, op: Op, user: int)
    requires ValidConfig(cfg) && Prunes(op, user)
    ensures var log := LogOf(Apply(cfg, logs, op).0, user);
            Fresh(log, op.at - cfg.window) == log
  {
    var before, cutoff := LogOf(logs, user), op.at - cfg.window;
    ApplyToLog(cfg, logs, op, user);
    FreshTwice(before, cutoff, cutoff);
    FreshSnoc(Fresh(before, cutoff), op.at, cutoff);
  }

  lemma KnownSnoc(cfg: Config, ops: seq<Op>, op: Op, user: int)
    ensures Known(cfg, ops + [op], user) ==
            if Prunes(op, user) then Fresh(Admitted(cfg, ops + [op], user), op.at - cfg.window)
            else Known(cfg, ops, user)
  {
    assert (ops + [op])[..|ops|] == ops;
  }

  lemma NothingKnown(cfg: Config, user: int)
    ensures LogOf(LogsAfter(cfg, []), user) == Known(cfg, [], user)
  {
  }

  lemma {:induction false} LogIsKnown(cfg: Config, ops: seq<Op>, user: int)
    requires ValidConfig(cfg) && Monotone(ops)
    ensures LogOf(LogsAfter(cfg, ops), user) == Known(cfg, ops, user)
  {
    hide Fresh, Apply, LogOf, LogsAfter, Known, Admitted;
    if ops == [] {
      NothingKnown(cfg, user);
    } else {
      var init, last := ops[..|ops| - 1], ops[|ops| - 1];
      assert init + [last] == ops;
      LogIsKnown(cfg, init, user);
      LogsAfterSnoc(cfg, init, last);
      KnownSnoc(cfg, init, last, user);
      ApplyToLog(cfg, LogsAfter(cfg, init), last, user);
      if Prunes(last, user) {
        LogAfterPrune(cfg, LogsAfter(cfg, init), last, user);
        LogAgreesWithHistory(cfg, ops, user, last.at - cfg.window);
      }
    }
  }

  lemma {:induction false} FreshMeaning(ts: seq<int>, cutoff: int, t: int)
    ensures t in Fresh(ts, cutoff) <==> t in ts && t > cutoff
  {
    if ts != [] {
      assert ts == ts[..|ts| - 1] + [ts[|ts| - 1]];
      FreshMeaning(ts[..|ts| - 1], cutoff, t);
    }
  }

  /** An admission that the limiter still goes by. */
  ghost predicate IsKnown(cfg: Config, ops: seq<Op>, user: int, t: int) {
    var pruned := LastPrune(ops, user);
    pruned.Some? && t in Grants(cfg, ops, user) && t > pruned.value - cfg.window
  }

  lemma KnownMeaning(cfg: Config, ops: seq<Op>, user: int, t: int)
    requires ValidConfig(cfg) && Monotone(ops)
    ensures t in LogOf(LogsAfter(cfg, ops), user) <==> IsKnown(cfg, ops, user, t)
  {
    hide Fresh, Grants, Admitted, LogsAfter, LogOf, LastPrune;
    LogIsKnown(cfg, ops, user);
    GrantsAreAdmissions(cfg, ops, user);
    if LastPrune(ops, user).Some? {
      FreshMeaning(Admitted(cfg, ops, user), LastPrune(ops, user).value - cfg.window, t);
    }
  }

  /** At any time ResetTime is one window after the earliest admission that was still in the window when
      the log was last pruned; or the present, if there is none. */
  lemma {:induction false} ResetTimeMeaning(cfg: Config, ops: seq<Op>, user: int, at: int, time: int)
    requires ValidConfig(cfg) && Monotone(ops)
    requires AnswerTo(cfg, ops, Reset(user, at)) == ResetsAt(time)
    ensures if exists t :: IsKnown(cfg, ops, user, t)
            then IsKnown(cfg, ops, user, time - cfg.window) &&
                 forall t :: IsKnown(cfg, ops, user, t) ==> time - cfg.window <= t
            else time == at
  {
    var log := LogOf(LogsAfter(cfg, ops), user);
    assert time == if log == [] then at else Oldest(log) + cfg.window;
    hide IsKnown, LogOf, LogsAfter, Oldest;
    forall t ensures t in log <==> IsKnown(cfg, ops, user, t) {
      KnownMeaning(cfg, ops, user, t);
    }
    if log != [] {
      OldestIsMinimum(log);
      assert log[0] in log;
    }
  }

  lemma SweptUser(cfg: Config, logs: Logs, user: int, at: int)
    ensures user in Apply(cfg, logs, Op.Sweep(at)).0 <==> Fresh(LogOf(logs, user), at - cfg.window) != []
  {
  }

  /** The sweep keeps a user on the books exactly while an admission is in the window. */
  lemma {:induction false} SweepForgetsTheIdle(cfg: Config, ops: seq<Op>, user: int, at: int)
    requires ValidConfig(cfg) && Monotone(ops) && ReachedBy(ops, at)
    ensures user in LogsAfter(cfg, ops + [Op.Sweep(at)]) <==>
            exists t :: t in Grants(cfg, ops, user) && t > at - cfg.window
  {
    hide Fresh, Grants, Admitted, LogsAfter, Apply, LogOf;
    var all, sweep, cutoff := Admitted(cfg, ops, user), Op.Sweep(at), at - cfg.window;
    LogsAfterSnoc(cfg, ops, sweep);
    GrantsAreAdmissions(cfg, ops, user);
    LogAgreesWithHistory(cfg, ops, user, cutoff);
    SweptUser(cfg, LogsAfter(cfg, ops), user, at);
    forall t ensures t in Fresh(all, cutoff) <==> t in all && t > cutoff {
      FreshMeaning(all, cutoff, t);
    }
    if Fresh(all, cutoff) != [] {
      assert Fresh(all, cutoff)[0] in Fresh(all, cutoff);
    }
  }

  // ---------------------------------------------------------------- ResetTime after a denial

  lemma StepStaysWithinLimit(cfg: Config, logs: Logs, op: Op, user: int)
    requires ValidConfig(cfg) && |LogOf(logs, user)| <= cfg.limit
    ensures |LogOf(Apply(cfg, logs, op).0, user)| <= cfg.limit
  {
    hide Fresh, Apply, LogOf;
    ApplyToLog(cfg, logs, op, user);
    FreshLength(LogOf(logs, user), op.at - cfg.window);
  }

  lemma {:induction false} LogsStayWithinLimit(cfg: Config, ops: seq<Op>, user: int)
    requires ValidConfig(cfg)
    ensures |LogOf(LogsAfter(cfg, ops), user)| <= cfg.limit
  {
    if ops != [] {
      var init, last := ops[..|ops| - 1], ops[|ops| - 1];
      LogsStayWithinLimit(cfg, init, user);
      hide Apply, LogOf;
      StepStaysWithinLimit(cfg, LogsAfter(cfg, init), last, user);
    }
  }

  lemma FullLogStandsOneStep(cfg: Config, logs: Logs, op: Op, user: int, log: seq<int>)
    requires ValidConfig(cfg) && |log| == cfg.limit && LogOf(logs, user) == log
    requires op.at < Oldest(log) + cfg.window
    ensures LogOf(Apply(cfg, logs, op).0, user) == log
  {
    OldestDecides(log, op.at - cfg.window);
  }

  /** While the clock is short of the reset time, a full log stands still. */
  lemma {:induction false} FullLogStands(cfg: Config, ops: seq<Op>, more: seq<Op>, user: int, log: seq<int>)
    requires ValidConfig(cfg) && |log| == cfg.limit
    requires LogOf(LogsAfter(cfg, ops), user) == log
    requires forall op :: op in more ==> op.at < Oldest(log) + cfg.window
    ensures LogOf(LogsAfter(cfg, ops + more), user) == log
  {
    if more == [] {
      assert ops + more == ops;
    } else {
      var init, last := more[..|more| - 1], more[|more| - 1];
      FullLogStands(cfg, ops, init, user, log);
      FullLogStandsOneStep(cfg, LogsAfter(cfg, ops + init), last, user, log);
      LogsAfterSnoc(cfg, ops + init, last);
      assert ops + init + [last] == ops + more;
    }
  }

  lemma DenialLeavesFullLog(cfg: Config, logs: Logs, denied: Op)
    requires ValidConfig(cfg) && denied.Allow? && |LogOf(logs, denied.user)| <= cfg.limit
    requires Apply(cfg, logs, denied).1 == Decision(false)
    ensures var log := LogOf(Apply(cfg, logs, denied).0, denied.user);
            |log| == cfg.limit && denied.at < Oldest(log) + cfg.window
  {
    var kept := Fresh(LogOf(logs, denied.user), denied.at - cfg.window);
    FreshLength(LogOf(logs, denied.user), denied.at - cfg.window);
    FreshElements(LogOf(logs, denied.user), denied.at - cfg.window);
    OldestIsMinimum(kept);
  }

  lemma FullLogAdmitsFromReset(cfg: Config, logs: Logs, next: Op)
    requires ValidConfig(cfg) && next.Allow? && |LogOf(logs, next.user)| == cfg.limit
    ensures Apply(cfg, logs, next).1 == Decision(next.at >= Oldest(LogOf(logs, next.user)) + cfg.window)
  {
    OldestDecides(LogOf(logs, next.user), next.at - cfg.window);
  }

  /** After a denial the reset time is exact: until then every Allow of that user is refused and
      every Reset repeats the same instant, whatever else happens, and the first Allow at or after
      that instant is admitted. */
  lemma ResetTimeIsExact(cfg: Config, ops: seq<Op>, denied: Op, reset: int, more: seq<Op>, next: Op)
    requires ValidConfig(cfg)
    requires denied.Allow? && AnswerTo(cfg, ops, denied) == Decision(false)
    requires AnswerTo(cfg, ops + [denied], Reset(denied.user, denied.at)) == ResetsAt(reset)
    requires forall op :: op in more ==> op.at < reset
    requires next.Allow? && next.user == denied.user
    ensures denied.at < reset
    ensures AnswerTo(cfg, ops + [denied] + more, next) == Decision(next.at >= reset)
    ensures forall at :: AnswerTo(cfg, ops + [denied] + more, Reset(denied.user, at)) == ResetsAt(reset)
  {
    LogsAfterSnoc(cfg, ops, denied);
    LogsStayWithinLimit(cfg, ops, denied.user);
    DenialLeavesFullLog(cfg, LogsAfter(cfg, ops), denied);
    var log := LogOf(LogsAfter(cfg, ops + [denied]), denied.user);
    FullLogStands(cfg, ops + [denied], more, denied.user, log);
    FullLogAdmitsFromReset(cfg, LogsAfter(cfg, ops + [denied] + more), next);
  }

  // ---------------------------------------------------------------- RemainingRequests

  ghost function Calls(ops: seq<Op>, user: int): nat {
    if ops == [] then 0
    else Calls(ops[..|ops| - 1], user) +
         if ops[|ops| - 1].Allow? && ops[|ops| - 1].user == user then 1 else 0
  }

  lemma CallsSnoc(ops: seq<Op>, op: Op, user: int)
    ensures Calls(ops + [op], user) == Calls(ops, user) + if op.Allow? && op.user == user then 1 else 0
  {
    assert (ops + [op])[..|ops|] == ops;
  }

  lemma FreshShrinks(ts: seq<int>, early: int, late: int)
    requires early <= late
    ensures |Fresh(ts, late)| <= |Fresh(ts, early)|
  {
    FreshTwice(ts, early, late);
    FreshLength(Fresh(ts, early), late);
  }

  /** A window holding n requests after this many further calls. */
  function Filled(n: nat, calls: nat, limit: int): int {
    if n >= limit then n else if n + calls < limit then n + calls else limit
  }

  lemma InWindowSnoc(cfg: Config, ops: seq<Op>, op: Op, user: int, at: int)
    requires ValidConfig(cfg) && op.at >= at
    ensures InWindow(cfg, ops + [op], user, at) <=
            InWindow(cfg, ops, user, at) + if op.Allow? && op.user == user then 1 else 0
    ensures op.at == at ==>
              InWindow(cfg, ops + [op], user, at) ==
              Filled(InWindow(cfg, ops, user, at), if op.Allow? && op.user == user then 1 else 0, cfg.limit)
  {
    HistoryAfterCutoff(cfg, ops, op, user, at - cfg.window);
  }

  lemma {:induction false} HistoryGrowsByCalls(cfg: Config, ops: seq<Op>, more: seq<Op>, user: int, at: int)
    requires ValidConfig(cfg)
    requires forall i :: 0 <= i < |more| ==> more[i].at >= at
    ensures InWindow(cfg, ops + more, user, at) <= InWindow(cfg, ops, user, at) + Calls(more, user)
  {
    if more == [] {
      assert ops + more == ops;
    } else {
      var init, last := more[..|more| - 1], more[|more| - 1];
      HistoryGrowsByCalls(cfg, ops, init, user, at);
      InWindowSnoc(cfg, ops + init, last, user, at);
      CallsSnoc(init, last, user);
      assert more == init + [last] && ops + more == ops + init + [last];
    }
  }

  /** At one instant the window fills up call by call until it holds limit requests. */
  lemma {:induction false} HistoryFillsAtOneInstant(cfg: Config, ops: seq<Op>, more: seq<Op>, user: int, at: int)
    requires ValidConfig(cfg)
    requires forall i :: 0 <= i < |more| ==> more[i].at == at
    ensures InWindow(cfg, ops + more, user, at) == Filled(InWindow(cfg, ops, user, at), Calls(more, user), cfg.limit)
  {
    if more == [] {
      assert ops + more == ops;
    } else {
      hide Admitted, Fresh, Calls, InWindow;
      var init, last := more[..|more| - 1], more[|more| - 1];
      HistoryFillsAtOneInstant(cfg, ops, init, user, at);
      InWindowSnoc(cfg, ops + init, last, user, at);
      CallsSnoc(init, last, user);
      assert more == init + [last] && ops + more == ops + init + [last];
    }
  }

  lemma RoomStaysWhileCallsAreFew(cfg: Config, ops: seq<Op>, user: int, at: int, more: seq<Op>, next: Op)
    requires ValidConfig(cfg) && Monotone(ops + more) && ReachedBy(ops + more, next.at)
    requires forall i :: 0 <= i < |more| ==> more[i].at >= at
    requires next.Allow? && next.user == user && next.at >= at
    requires InWindow(cfg, ops, user, at) + Calls(more, user) < cfg.limit
    ensures AnswerTo(cfg, ops + more, next) == Decision(true)
  {
    hide Admitted, Fresh, Calls, AnswerTo, Monotone;
    AnswersRefineHistory(cfg, ops + more, next);
    HistoryGrowsByCalls(cfg, ops, more, user, at);
    FreshShrinks(Admitted(cfg, ops + more, user), at - cfg.window, next.at - cfg.window);
  }

  lemma RoomAtOneInstant(cfg: Config, ops: seq<Op>, user: int, at: int, more: seq<Op>)
    requires ValidConfig(cfg) && Monotone(ops + more) && ReachedBy(ops + more, at)
    requires forall i :: 0 <= i < |more| ==> more[i].at == at
    ensures AnswerTo(cfg, ops + more, Op.Allow(user, at)) ==
            Decision(InWindow(cfg, ops, user, at) + Calls(more, user) < cfg.limit)
  {
    hide Admitted, Fresh, Calls, AnswerTo, Monotone;
    AnswersRefineHistory(cfg, ops + more, Op.Allow(user, at));
    HistoryFillsAtOneInstant(cfg, ops, more, user, at);
  }

  /** If Remaining answers r, the user's next r calls are admitted whenever they come; at that same
      instant the call after j further calls is admitted exactly when j is below r. */
  lemma {:induction false} RemainingIsExact(cfg: Config, ops: seq<Op>, user: int, at: int, more: seq<Op>, next: Op)
    requires ValidConfig(cfg) && Monotone(ops + more)
    requires ReachedBy(ops, at) && ReachedBy(ops + more, next.at)
    requires forall i :: 0 <= i < |more| ==> more[i].at >= at
    requires next.Allow? && next.user == user && next.at >= at
    ensures var r := AnswerTo(cfg, ops, Remaining(user, at)).calls;
            && (Calls(more, user) < r ==> AnswerTo(cfg, ops + more, next) == Decision(true))
            && (next.at == at && (forall i :: 0 <= i < |more| ==> more[i].at == at) ==>
                AnswerTo(cfg, ops + more, next) == Decision(Calls(more, user) < r))
  {
    MonotonePrefix(ops, more);
    hide Admitted, Fresh, Calls, AnswerTo, Monotone, InWindow, LogsAfter;
    AnswersRefineHistory(cfg, ops, Remaining(user, at));
    if InWindow(cfg, ops, user, at) + Calls(more, user) < cfg.limit {
      RoomStaysWhileCallsAreFew(cfg, ops, user, at, more, next);
    }
    if next.at == at && forall i :: 0 <= i < |more| ==> more[i].at == at {
      RoomAtOneInstant(cfg, ops, user, at, more);
    }
  }

  // ---------------------------------------------------------------- the limiter object

  /** A Go slice: the first len cells of a backing array whose length is the slice's capacity. */
  datatype Slice = Slice(buf: array<int>, len: nat)

  class Limiter {
    var requests: map<int, Slice>
    const limit: int
    const window: int
    ghost var logs: Logs             // each user's timestamps, as values
    ghost var Repr: set<array<int>>  // the backing arrays

    ghost predicate Valid()
      reads this, Repr
    {
      && ValidConfig(Cfg())
      && requests.Keys == logs.Keys
      && (forall user :: user in requests ==> requests[user].buf in Repr && Holds(requests[user], logs[user]))
      && (forall u, v :: u in requests && v in requests && u != v ==> requests[u].buf != requests[v].buf)
    }

    function Cfg(): Config {
      Config(limit, window)
    }

    constructor (requestsPerMinute: int)
      ensures Valid() && fresh(Repr) && logs == map[]
      ensures Cfg() == Config(if requestsPerMinute <= 0 then 10 else requestsPerMinute, 60_000_000_000)
    {
      requests, logs, Repr := map[], map[], {};
      limit := if requestsPerMinute <= 0 then DEFAULT_LIMIT else requestsPerMinute;
      window := MINUTE;
    }

    method Allow(user: int, now: int) returns (ok: bool)
      requires Valid()
      modifies this, Repr
      ensures Valid() && fresh(Repr - old(Repr))
      ensures (logs, Decision(ok)) == Apply(Cfg(), old(logs), Op.Allow(user, now))
    {
      var ts;
      if user in requests {
        ts := requests[user];
      } else {
        var empty := new int[0];
        ts := Slice(empty, 0);
      }
      ghost var log := LogOf(logs, user);
      var kept := CompactInPlace(ts, log, now - window);
      if kept.len >= limit {
        Store(user, kept, Fresh(log, now - window));
        return false;
      }
      var grown := Append(kept, Fresh(log, now - window), now);
      Store(user, grown, Fresh(log, now - window) + [now]);
      return true;
    }

    /** The map assignment; everyone else's slice must be in order. */
    method Store(user: int, ts: Slice, ghost log: seq<int>)
      requires ValidConfig(Cfg()) && requests.Keys == logs.Keys && Holds(ts, log)
      requires forall u :: u in requests && u != user ==>
                 Holds(requests[u], logs[u]) && requests[u].buf in Repr && requests[u].buf != ts.buf
      requires forall u, v :: u in requests && v in requests && u != v ==> requests[u].buf != requests[v].buf
      modifies this
      ensures Valid() && Repr == old(Repr) + {ts.buf}
      ensures logs == old(logs)[user := log]
    {
      requests, logs, Repr := requests[user := ts], logs[user := log], Repr + {ts.buf};
    }

    method RemainingRequests(user: int, now: int) returns (calls: int)
      requires Valid()
      ensures (logs, Left(calls)) == Apply(Cfg(), logs, Remaining(user, now))
    {
      var cutoff := now - window;
      var count := 0;
      if user in requests {
        var ts := requests[user];
        for i := 0 to ts.len
          invariant count == |Fresh(ts.buf[..i], cutoff)|
        {
          assert ts.buf[..i + 1][..i] == ts.buf[..i];
          if ts.buf[i] > cutoff {
            count := count + 1;
          }
        }
      }
      var spare := limit - count;
      return if spare > 0 then spare else 0;
    }

    method ResetTime(user: int, now: int) returns (time: int)
      requires Valid()
      ensures (logs, ResetsAt(time)) == Apply(Cfg(), logs, Reset(user, now))
    {
      if user !in requests || requests[user].len == 0 {
        return now;
      }
      var ts := requests[user];
      var oldest := ts.buf[0];
      for i := 1 to ts.len
        invariant oldest == Oldest(ts.buf[..i])
      {
        assert ts.buf[..i + 1][..i] == ts.buf[..i];
        if ts.buf[i] < oldest {
          oldest := ts.buf[i];
        }
      }
      return oldest + window;
    }

    /** One tick of the background cleanup. The order in which the users come up is arbitrary. */
    method Cleanup(now: int)
      requires Valid()
      modifies this
      ensures Valid() && fresh(Repr - old(Repr))
      ensures (logs, Swept) == Apply(Cfg(), old(logs), Op.Sweep(now))
    {
      hide SweepLogs, Fresh, SweepEach;
      var order := InSomeOrder(requests.Keys);
      assert forall k :: 0 <= k < |order| ==> order[k] in Elements(order);
      CleanupUsers(order, now - window);
      SweepInAnyOrder(old(logs), order, now - window);
    }

    method CleanupUsers(order: seq<int>, cutoff: int)
      requires Valid() && Distinct(order) && forall k :: 0 <= k < |order| ==> order[k] in logs
      modifies this
      ensures Valid() && fresh(Repr - old(Repr))
      ensures logs == SweepEach(old(logs), order, cutoff)
    {
      hide SweepOne, SweepEach, Fresh, LogOf, Holds, ValidConfig, Elements, Distinct;
      ghost var before := logs;
      SweepNobody(before, cutoff);
      assert order[..0] == [];
      for i := 0 to |order|
        invariant Valid() && fresh(Repr - old(Repr))
        invariant logs == SweepEach(before, order[..i], cutoff)
      {
        SweepNext(before, order, i, cutoff);
        CleanupUser(order[i], cutoff);
      }
      assert order[..|order|] == order;
    }

    method CleanupUser(user: int, cutoff: int)
      requires Valid() && user in requests
      modifies this
      ensures Valid() && fresh(Repr - old(Repr))
      ensures logs == SweepOne(old(logs), user, cutoff)
    {
      var kept := CopyFresh(requests[user], logs[user], cutoff);
      if kept.len == 0 {
        requests, logs := requests - {user}, logs - {user};
      } else {
        Store(user, kept, Fresh(logs[user], cutoff));
      }
    }
  }

  ghost function SweepOne(logs: Logs, user: int, cutoff: int): Logs {
    var log := Fresh(LogOf(logs, user), cutoff);
    if log == [] then logs - {user} else logs[user := log]
  }

  /** The users swept one at a time, in the given order. */
  ghost function SweepEach(logs: Logs, order: seq<int>, cutoff: int): Logs {
    if order == [] then logs
    else SweepOne(SweepEach(logs, order[..|order| - 1], cutoff), order[|order| - 1], cutoff)
  }

  lemma SweepEachSnoc(logs: Logs, order: seq<int>, user: int, cutoff: int)
    ensures SweepEach(logs, order + [user], cutoff) == SweepOne(SweepEach(logs, order, cutoff), user, cutoff)
  {
    assert (order + [user])[..|order|] == order;
  }

  lemma {:induction false} SweepEachAt(logs: Logs, order: seq<int>, cutoff: int, user: int)
    ensures var swept := SweepEach(logs, order, cutoff);
            if user in order
            then LogOf(swept, user) == Fresh(LogOf(logs, user), cutoff) && (user in swept ==> swept[user] != [])
            else (user in swept <==> user in logs) && LogOf(swept, user) == LogOf(logs, user)
  {
    if order != [] {
      SweepEachAt(logs, order[..|order| - 1], cutoff, user);
      assert order == order[..|order| - 1] + [order[|order| - 1]];
      hide Fresh;
      FreshTwice(LogOf(logs, user), cutoff, cutoff);
    }
  }

  lemma SweepNobody(logs: Logs, cutoff: int)
    ensures SweepEach(logs, [], cutoff) == logs
  {
  }

  /** The next user in line has not been swept yet. */
  lemma SweepNext(logs: Logs, order: seq<int>, i: nat, cutoff: int)
    requires Distinct(order) && i < |order| && order[i] in logs
    ensures order[i] in SweepEach(logs, order[..i], cutoff)
    ensures SweepEach(logs, order[..i + 1], cutoff) == SweepOne(SweepEach(logs, order[..i], cutoff), order[i], cutoff)
  {
    hide SweepOne, SweepEach, LogOf, Fresh;
    assert order[i] !in order[..i] && order[..i] + [order[i]] == order[..i + 1];
    SweepEachAt(logs, order[..i], cutoff, order[i]);
    SweepEachSnoc(logs, order[..i], order[i], cutoff);
  }

  lemma SweepInAnyOrder(logs: Logs, order: seq<int>, cutoff: int)
    requires Elements(order) == logs.Keys
    ensures SweepEach(logs, order, cutoff) == SweepLogs(logs, cutoff)
  {
    var swept := SweepEach(logs, order, cutoff);
    forall user ensures user in swept <==> user in SweepLogs(logs, cutoff)
                ensures user in swept ==> swept[user] == SweepLogs(logs, cutoff)[user]
    {
      SweepEachAt(logs, order, cutoff, user);
    }
  }

  ghost predicate Holds(ts: Slice, log: seq<int>)
    reads ts.buf
  {
    ts.len <= ts.buf.Length && ts.buf[..ts.len] == log
  }

  /** Filters within the slice's own array, as appending to ts[:0] does. */
  method CompactInPlace(ts: Slice, ghost log: seq<int>, cutoff: int) returns (kept: Slice)
    requires Holds(ts, log)
    modifies ts.buf
    ensures kept.buf == ts.buf && Holds(kept, Fresh(log, cutoff))
  {
    var n := 0;
    for i := 0 to ts.len
      invariant n <= i
      invariant ts.buf[..n] == Fresh(log[..i], cutoff)
      invariant forall k :: i <= k < ts.len ==> ts.buf[k] == log[k]
    {
      assert log[..i + 1][..i] == log[..i];
      if ts.buf[i] > cutoff {
        ts.buf[n] := ts.buf[i];
        n := n + 1;
      }
    }
    kept := Slice(ts.buf, n);
    assert log[..ts.len] == log;
  }

  /** Writes into spare capacity when there is some, otherwise moves to a larger array. */
  method Append(ts: Slice, ghost log: seq<int>, x: int) returns (grown: Slice)
    requires Holds(ts, log)
    modifies ts.buf
    ensures if ts.len < ts.buf.Length then grown.buf == ts.buf else fresh(grown.buf)
    ensures Holds(grown, log + [x])
  {
    var buf := ts.buf;
    if ts.len == buf.Length {
      buf := new int[2 * ts.len + 1];
      for i := 0 to ts.len
        invariant buf[..i] == log[..i]
        invariant Holds(ts, log)
      {
        buf[i] := ts.buf[i];
      }
    }
    buf[ts.len] := x;
    grown := Slice(buf, ts.len + 1);
  }

  /** Filters into a slice that starts out nil. */
  method CopyFresh(ts: Slice, ghost log: seq<int>, cutoff: int) returns (copy: Slice)
    requires Holds(ts, log)
    ensures fresh(copy.buf) && Holds(copy, Fresh(log, cutoff))
  {
    var empty := new int[0];
    copy := Slice(empty, 0);
    for i := 0 to ts.len
      invariant fresh(copy.buf) && Holds(copy, Fresh(log[..i], cutoff))
      invariant Holds(ts, log)
    {
      assert log[..i + 1][..i] == log[..i];
      if ts.buf[i] > cutoff {
        copy := Append(copy, Fresh(log[..i], cutoff), ts.buf[i]);
      }
    }
    assert log[..ts.len] == log;
  }
}
