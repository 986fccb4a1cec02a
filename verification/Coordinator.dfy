/** Choosing agents for a question, running them in parallel and collecting what they answer. */
module Coordinator {
  import opened MapIteration
  import opened Options
  import opened Ordering

  datatype Result<T> = Ok(value: T) | Err(error: Error)

  datatype Error = NoAgentResponses | SynthesisFailed

  // ---------------------------------------------------------------- selection

  /** An agent together with what its CanHandle says of the question. */
  datatype Agent = Agent(name: string, score: real)

  const MIN_CONFIDENCE: real := 0.3

  datatype StrategyType = Quick | Standard | Deep | Other

  function MaxAgentsFor(s: StrategyType): nat {
    match s
    case Quick => 1
    case Standard => 2
    case Deep => 4
    case Other => 2
  }

  function ScoreOf(a: Agent): real {
    a.score
  }

  function Eligible(agents: seq<Agent>): seq<Agent> {
    if agents == [] then []
    else
      var init, last := Eligible(agents[..|agents| - 1]), agents[|agents| - 1];
      if last.score >= MIN_CONFIDENCE then init + [last] else init
  }

  /** The pool a selection is cut from: the agents above the threshold, or all if there are none. */
  function Pool(agents: seq<Agent>): seq<Agent> {
    if Eligible(agents) == [] then agents else Eligible(agents)
  }

  /** What may be selected: the pool of some outcome of the unstable sort, cut to maxAgents. */
  ghost predicate IsSelection(agents: seq<Agent>, maxAgents: nat, selected: seq<Agent>) {
    exists ranked :: IsSortOf(agents, ranked, ScoreOf) && selected == Cut(Pool(ranked), maxAgents)
  }

  method SelectAgents(agents: seq<Agent>, maxAgents: nat) returns (selected: seq<Agent>)
    ensures IsSelection(agents, maxAgents, selected)
  {
    if |agents| == 0 {
      assert IsSortOf(agents, [], ScoreOf) && Cut(Pool([]), maxAgents) == [];
      return [];
    }
    var scores := new Agent[|agents|](i requires 0 <= i < |agents| => agents[i]);
    assert scores[..] == agents;
    SortSlice(scores, ScoreOf);
    ghost var ranked := scores[..];
    selected := AboveThreshold(scores[..]);
    if |selected| == 0 {
      selected := scores[..];
    }
    assert selected == Pool(ranked);
    if |selected| > maxAgents {
      selected := selected[..maxAgents];
    }
  }

  method AboveThreshold(ranked: seq<Agent>) returns (result: seq<Agent>)
    ensures result == Eligible(ranked)
  {
    result := [];
    for i := 0 to |ranked|
      invariant result == Eligible(ranked[..i])
    {
      assert ranked[..i + 1][..i] == ranked[..i];
      if ranked[i].score >= MIN_CONFIDENCE {
        result := result + [ranked[i]];
      }
    }
    assert ranked[..|ranked|] == ranked;
  }

  lemma {:induction false} EligibleCounts(agents: seq<Agent>, a: Agent)
    ensures multiset(Eligible(agents))[a] == if a.score >= MIN_CONFIDENCE then multiset(agents)[a] else 0
  {
    if agents != [] {
      EligibleCounts(agents[..|agents| - 1], a);
      assert agents == agents[..|agents| - 1] + [agents[|agents| - 1]];
    }
  }

  lemma {:induction false} EligibleDescends(ranked: seq<Agent>)
    requires Descending(Keys(ranked, ScoreOf))
    ensures Descending(Keys(Eligible(ranked), ScoreOf))
    ensures forall a :: a in Eligible(ranked) ==> a in ranked
  {
    if ranked != [] {
      var init, last := ranked[..|ranked| - 1], ranked[|ranked| - 1];
      assert Keys(init, ScoreOf) == Keys(ranked, ScoreOf)[..|init|];
      EligibleDescends(init);
      forall a | a in init ensures a.score >= last.score {
        var i :| 0 <= i < |init| && init[i] == a;
        assert Keys(ranked, ScoreOf)[i] >= Keys(ranked, ScoreOf)[|init|];
      }
      assert Keys(Eligible(init) + [last], ScoreOf) == Keys(Eligible(init), ScoreOf) + [last.score];
    }
  }

  /** The pool of a ranking holds the agents of the pool of the original list, best first. */
  lemma PoolOfRanking(agents: seq<Agent>, ranked: seq<Agent>)
    requires IsSortOf(agents, ranked, ScoreOf)
    ensures IsSortOf(Pool(agents), Pool(ranked), ScoreOf)
  {
    EligibleDescends(ranked);
    forall a ensures multiset(Eligible(ranked))[a] == multiset(Eligible(agents))[a] {
      EligibleCounts(agents, a);
      EligibleCounts(ranked, a);
    }
    assert multiset(Eligible(ranked)) == multiset(Eligible(agents));
    assert |Eligible(ranked)| == |multiset(Eligible(ranked))| == |Eligible(agents)|;
  }

  /** A selection is not empty when there are agents and room, has min(maxAgents, pool) members, best
      first, all from the pool. */
  lemma SelectionShape(agents: seq<Agent>, maxAgents: nat, selected: seq<Agent>)
    requires IsSelection(agents, maxAgents, selected)
    ensures agents != [] && maxAgents >= 1 ==> selected != []
    ensures |selected| == if |Pool(agents)| > maxAgents then maxAgents else |Pool(agents)|
    ensures Descending(Keys(selected, ScoreOf))
    ensures multiset(selected) <= multiset(Pool(agents))
  {
    var ranked: seq<Agent> :| IsSortOf(agents, ranked, ScoreOf) && selected == Cut(Pool(ranked), maxAgents);
    PoolOfRanking(agents, ranked);
    CutOfSort(Pool(agents), Pool(ranked), maxAgents, ScoreOf);
  }

  predicate IsConfident(a: Agent) {
    a.score >= 0.3
  }

  ghost function CountConfident(agents: seq<Agent>): nat {
    if agents == [] then 0
    else CountConfident(agents[..|agents| - 1]) + if IsConfident(agents[|agents| - 1]) then 1 else 0
  }

  lemma {:induction false} EligibleAreConfident(agents: seq<Agent>)
    ensures |Eligible(agents)| == CountConfident(agents)
    ensures CountConfident(agents) > 0 <==> exists a :: a in agents && IsConfident(a)
    ensures forall a :: a in Eligible(agents) ==> IsConfident(a)
  {
    if agents != [] {
      var init, last := agents[..|agents| - 1], agents[|agents| - 1];
      EligibleAreConfident(init);
      assert agents == init + [last];
      assert forall a :: a in agents <==> a in init || a == last;
    }
  }

  function AtMostOf(max: nat, n: nat): nat {
    if n > max then max else n
  }

  /** If some agent's score is at least 0.3, only such agents are selected, as many as there are or as the
      limit allows; otherwise any are, as many as there are or as the limit allows. */
  lemma SelectionByThreshold(agents: seq<Agent>, maxAgents: nat, selected: seq<Agent>)
    requires IsSelection(agents, maxAgents, selected)
    ensures forall s :: s in selected ==> s in agents
    ensures if exists a :: a in agents && a.score >= 0.3
            then
              && (forall s :: s in selected ==> s.score >= 0.3)
              && |selected| == AtMostOf(maxAgents, CountConfident(agents))
            else |selected| == AtMostOf(maxAgents, |agents|)
  {
    SelectionShape(agents, maxAgents, selected);
    EligibleAreConfident(agents);
    hide IsSelection;
    forall s | s in selected ensures s in agents && s in Pool(agents) {
      assert s in multiset(selected) && s in multiset(Pool(agents));
      EligibleCounts(agents, s);
    }
    assert (exists a :: a in agents && IsConfident(a)) <==> (exists a :: a in agents && a.score >= 0.3);
  }

  /** A quick question goes to one agent at most, a standard one or one of no known kind to two and a
      deep one to four, and to fewer only when fewer will do. */
  lemma SelectionByStrategy(agents: seq<Agent>, s: StrategyType, selected: seq<Agent>)
    requires IsSelection(agents, MaxAgentsFor(s), selected)
    ensures var enough := if CountConfident(agents) > 0 then CountConfident(agents) else |agents|;
            match s
            case Quick => |selected| == AtMostOf(1, enough)
            case Standard => |selected| == AtMostOf(2, enough)
            case Deep => |selected| == AtMostOf(4, enough)
            case Other => |selected| == AtMostOf(2, enough)
  {
    SelectionByThreshold(agents, MaxAgentsFor(s), selected);
    EligibleAreConfident(agents);
    assert (exists a :: a in agents && IsConfident(a)) <==> (exists a :: a in agents && a.score >= 0.3);
  }

  /** With a higher limit the same scores are asked for and perhaps more after them, whatever the sort
      does with equal ones. */
  lemma HigherLimitExtends(agents: seq<Agent>, fewer: nat, more: nat, one: seq<Agent>, other: seq<Agent>)
    requires fewer <= more && IsSelection(agents, fewer, one) && IsSelection(agents, more, other)
    ensures Keys(one, ScoreOf) <= Keys(other, ScoreOf)
  {
    var ranked1: seq<Agent> :| IsSortOf(agents, ranked1, ScoreOf) && one == Cut(Pool(ranked1), fewer);
    var ranked2: seq<Agent> :| IsSortOf(agents, ranked2, ScoreOf) && other == Cut(Pool(ranked2), more);
    hide Pool, IsSortOf, Cut;
    PoolOfRanking(agents, ranked1);
    PoolOfRanking(agents, ranked2);
    SortedKeysAreUnique(Pool(agents), Pool(ranked1), Pool(ranked2), ScoreOf);
    CutKeys(Pool(ranked1), fewer);
    CutKeys(Pool(ranked2), more);
    LongerCut(Keys(Pool(ranked1), ScoreOf), fewer, more);
  }

  lemma LongerCut(keys: seq<real>, fewer: nat, more: nat)
    requires fewer <= more
    ensures Cut(keys, fewer) <= Cut(keys, more)
  {
  }

  lemma CutKeys(agents: seq<Agent>, max: nat)
    ensures Keys(Cut(agents, max), ScoreOf) == Cut(Keys(agents, ScoreOf), max)
  {
  }

  /** So a quick question goes to those, by score, to whom a standard one goes first, and a standard
      one to those to whom a deep one does; and every strategy asks someone. */
  lemma StrategiesAskSomeone(agents: seq<Agent>, quick: seq<Agent>, standard: seq<Agent>, deep: seq<Agent>)
    requires IsSelection(agents, MaxAgentsFor(Quick), quick)
    requires IsSelection(agents, MaxAgentsFor(Standard), standard)
    requires IsSelection(agents, MaxAgentsFor(Deep), deep)
    ensures Keys(quick, ScoreOf) <= Keys(standard, ScoreOf) <= Keys(deep, ScoreOf)
    ensures agents != [] ==> quick != [] && |deep| <= 4
  {
    HigherLimitExtends(agents, 1, 2, quick, standard);
    HigherLimitExtends(agents, 2, 4, standard, deep);
    SelectionShape(agents, 1, quick);
    SelectionShape(agents, 4, deep);
  }

  /** Among all agents, none left out scores above a selected one. */
  lemma NoBetterAgentLeftOut(agents: seq<Agent>, maxAgents: nat, selected: seq<Agent>, s: Agent, a: Agent)
    requires IsSelection(agents, maxAgents, selected)
    requires s in selected && a in multiset(agents) - multiset(selected)
    ensures s.score >= a.score
  {
    var ranked: seq<Agent> :| IsSortOf(agents, ranked, ScoreOf) && selected == Cut(Pool(ranked), maxAgents);
    PoolOfRanking(agents, ranked);
    CutOfSort(Pool(agents), Pool(ranked), maxAgents, ScoreOf);
    EligibleCounts(agents, a);
    if a in multiset(Pool(agents)) - multiset(selected) {
      CutKeepsLargest(Pool(agents), Pool(ranked), maxAgents, ScoreOf, s, a);
    } else {
      assert s in multiset(selected);
      EligibleCounts(agents, s);
    }
  }

  // ---------------------------------------------------------------- running the selected agents

  datatype AgentResponse = AgentResponse(agentName: string, content: string)

  /** One goroutine per agent: it works, and if it succeeds it takes the mutex, reads the shared slice,
      writes it back with its response appended, and releases the mutex; then it calls Done. */
  datatype Phase =
    | Working
    | Waiting                     // for the mutex, with a response
    | Locked                      // about to read results
    | Appending(read: seq<nat>)   // about to write results and unlock
    | Leaving                     // about to call Done
    | Finished

  /** Responses are named by the position of their agent in the selection. left is the WaitGroup. */
  datatype State = State(phases: seq<Phase>, owner: Option<nat>, results: seq<nat>, left: int)

  type Replies = seq<Option<AgentResponse>>

  function Start(n: nat): State {
    State(seq(n, i => Working), None, [], n)
  }

  predicate Enabled(s: State, i: nat) {
    i < |s.phases| && !s.phases[i].Finished? && (s.phases[i].Waiting? ==> s.owner == None)
  }

  /** The next step of goroutine i, whose agent answers replies[i], or fails. */
  function Next(s: State, i: nat, replies: Replies): State
    requires Enabled(s, i) && |replies| == |s.phases|
  {
    match s.phases[i]
    case Working => s.(phases := s.phases[i := if replies[i].Some? then Waiting else Leaving])
    case Waiting => s.(phases := s.phases[i := Locked], owner := Some(i))
    case Locked => s.(phases := s.phases[i := Appending(s.results)])
    case Appending(read) => s.(phases := s.phases[i := Leaving], owner := None, results := read + [i])
    case Leaving => s.(phases := s.phases[i := Finished], left := s.left - 1)
  }

  /** The state after an interleaving: whose turn it was, in order. None if a step was not enabled. */
  function Run(replies: Replies, turns: seq<nat>): (r: Option<State>)
    ensures r.Some? ==> |r.value.phases| == |replies|
  {
    if turns == [] then Some(Start(|replies|))
    else
      var before, i := Run(replies, turns[..|turns| - 1]), turns[|turns| - 1];
      if before.Some? && Enabled(before.value, i) then Some(Next(before.value, i, replies)) else None
  }

  function CountUnfinished(phases: seq<Phase>): nat {
    if phases == [] then 0
    else CountUnfinished(phases[..|phases| - 1]) + if phases[|phases| - 1].Finished? then 0 else 1
  }

  lemma {:induction false} CountUnfinishedUpdate(phases: seq<Phase>, i: nat, p: Phase)
    requires i < |phases|
    ensures CountUnfinished(phases[i := p]) ==
            CountUnfinished(phases) - (if phases[i].Finished? then 0 else 1) + (if p.Finished? then 0 else 1)
  {
    var init := phases[..|phases| - 1];
    if i == |phases| - 1 {
      assert phases[i := p][..|phases| - 1] == init;
    } else {
      CountUnfinishedUpdate(init, i, p);
      assert phases[i := p][..|phases| - 1] == init[i := p];
    }
  }

  lemma {:induction false} NoneUnfinished(phases: seq<Phase>)
    ensures CountUnfinished(phases) == 0 <==> forall i :: 0 <= i < |phases| ==> phases[i].Finished?
  {
    if phases != [] {
      NoneUnfinished(phases[..|phases| - 1]);
      assert phases == phases[..|phases| - 1] + [phases[|phases| - 1]];
    }
  }

  predicate HoldsMutex(p: Phase) {
    p.Locked? || p.Appending?
  }

  predicate Delivered(p: Phase) {
    p.Leaving? || p.Finished?
  }

  ghost predicate MutexInv(s: State, replies: Replies) {
    && |s.phases| == |replies|
    && (s.owner.Some? ==> s.owner.value < |s.phases|)
    && (forall i :: 0 <= i < |s.phases| ==>
          && (HoldsMutex(s.phases[i]) <==> s.owner == Some(i))
          && (s.phases[i].Appending? ==> s.phases[i].read == s.results)
          && (s.phases[i].Waiting? || HoldsMutex(s.phases[i]) ==> replies[i].Some?))
  }

  ghost predicate ResultsInv(s: State, replies: Replies) {
    && |s.phases| == |replies|
    && (forall i :: 0 <= i < |s.phases| ==> (i in s.results <==> Delivered(s.phases[i]) && replies[i].Some?))
    && (forall i :: i in s.results ==> i < |s.phases|)
    && Distinct(s.results)
  }

  ghost predicate Inv(s: State, replies: Replies) {
    && MutexInv(s, replies)
    && ResultsInv(s, replies)
    && s.left == CountUnfinished(s.phases)
  }

  lemma MutexInvKept(s: State, i: nat, replies: Replies)
    requires MutexInv(s, replies) && Enabled(s, i)
    ensures MutexInv(Next(s, i, replies), replies)
  {
    assert HoldsMutex(s.phases[i]) <==> s.owner == Some(i);
  }

  lemma ResultsInvKept(s: State, i: nat, replies: Replies)
    requires MutexInv(s, replies) && ResultsInv(s, replies) && Enabled(s, i)
    ensures ResultsInv(Next(s, i, replies), replies)
  {
    if s.phases[i].Appending? {
      assert HoldsMutex(s.phases[i]) && i !in s.results;
    }
  }

  lemma {:induction false} CountAllUnfinished(n: nat)
    ensures CountUnfinished(seq(n, i => Working)) == n
  {
    if n > 0 {
      CountAllUnfinished(n - 1);
      assert seq(n, i => Working)[..n - 1] == seq(n - 1, i => Working);
    }
  }

  lemma {:induction false} InvHolds(replies: Replies, turns: seq<nat>)
    requires Run(replies, turns).Some?
    ensures Inv(Run(replies, turns).value, replies)
  {
    if turns == [] {
      CountAllUnfinished(|replies|);
    } else {
      var init, i := turns[..|turns| - 1], turns[|turns| - 1];
      InvHolds(replies, init);
      var s := Run(replies, init).value;
      MutexInvKept(s, i, replies);
      ResultsInvKept(s, i, replies);
      CountUnfinishedUpdate(s.phases, i, Next(s, i, replies).phases[i]);
    }
  }

  /** What Wait hands back after an interleaving. */
  ghost predicate IsCollected(replies: Replies, turns: seq<nat>, responses: seq<AgentResponse>) {
    && Run(replies, turns).Some?
    && Run(replies, turns).value.left == 0
    && responses == Keys(Run(replies, turns).value.results, Reply(replies))
  }

  ghost function Reply(replies: Replies): nat -> AgentResponse {
    (i: nat) => if i < |replies| && replies[i].Some? then replies[i].value else AgentResponse("", "")
  }

  function Successes(replies: Replies): (indices: seq<nat>)
    ensures Distinct(indices)
    ensures forall i :: i in indices <==> 0 <= i < |replies| && replies[i].Some?
  {
    if replies == [] then []
    else
      var init := Successes(replies[..|replies| - 1]);
      assert forall k :: 0 <= k < |init| ==> init[k] in init;
      if replies[|replies| - 1].Some? then init + [|replies| - 1] else init
  }

  /** Whatever the interleaving, the responses are a permutation of the successful agents' replies. */
  lemma {:induction false} ResponsesAreAllSuccesses(replies: Replies, turns: seq<nat>, responses: seq<AgentResponse>)
    requires IsCollected(replies, turns, responses)
    ensures multiset(responses) == multiset(Keys(Successes(replies), Reply(replies)))
    ensures responses == [] <==> forall i :: 0 <= i < |replies| ==> replies[i].None?
  {
    InvHolds(replies, turns);
    var s := Run(replies, turns).value;
    NoneUnfinished(s.phases);
    forall i ensures i in s.results <==> i in Successes(replies) {
      if 0 <= i < |s.phases| {
        assert Delivered(s.phases[i]);
      }
    }
    DistinctSameElements(s.results, Successes(replies));
    SameElementsSameKeys(s.results, Successes(replies), Reply(replies));
    assert |s.results| == |multiset(s.results)| == |Successes(replies)|;
    assert Successes(replies) != [] ==> Successes(replies)[0] in Successes(replies);
  }

  /** Until Wait can return some goroutine can move. */
  lemma NoDeadlock(replies: Replies, turns: seq<nat>) returns (i: nat)
    requires Run(replies, turns).Some? && Run(replies, turns).value.left > 0
    ensures Enabled(Run(replies, turns).value, i)
  {
    InvHolds(replies, turns);
    var s := Run(replies, turns).value;
    NoneUnfinished(s.phases);
    i :| 0 <= i < |s.phases| && !s.phases[i].Finished?;
    if s.owner.Some? {
      i := s.owner.value;
      assert HoldsMutex(s.phases[i]);
    }
  }

  function StepsLeft(phases: seq<Phase>): nat {
    if phases == [] then 0 else StepsLeft(phases[..|phases| - 1]) + OwnStepsLeft(phases[|phases| - 1])
  }

  function OwnStepsLeft(p: Phase): nat {
    match p
    case Working => 5
    case Waiting => 4
    case Locked => 3
    case Appending(_) => 2
    case Leaving => 1
    case Finished => 0
  }

  lemma {:induction false} StepsLeftUpdate(phases: seq<Phase>, i: nat, p: Phase)
    requires i < |phases|
    ensures StepsLeft(phases[i := p]) == StepsLeft(phases) - OwnStepsLeft(phases[i]) + OwnStepsLeft(p)
  {
    var init := phases[..|phases| - 1];
    if i == |phases| - 1 {
      assert phases[i := p][..|phases| - 1] == init;
    } else {
      StepsLeftUpdate(init, i, p);
      assert phases[i := p][..|phases| - 1] == init[i := p];
    }
  }

  lemma {:induction false} StepsLeftAtMost(phases: seq<Phase>)
    ensures StepsLeft(phases) <= 5 * |phases|
  {
    if phases != [] {
      StepsLeftAtMost(phases[..|phases| - 1]);
    }
  }

  /** And every interleaving ends, after at most five steps for each agent. */
  lemma {:induction false} RunsAreShort(replies: Replies, turns: seq<nat>)
    requires Run(replies, turns).Some?
    ensures |turns| + StepsLeft(Run(replies, turns).value.phases) <= 5 * |replies|
  {
    if turns == [] {
      StepsLeftAtMost(Start(|replies|).phases);
    } else {
      var init, i := turns[..|turns| - 1], turns[|turns| - 1];
      RunsAreShort(replies, init);
      var s := Run(replies, init).value;
      StepsLeftUpdate(s.phases, i, Next(s, i, replies).phases[i]);
    }
  }

  // ---------------------------------------------------------------- the answer

  datatype CoordinatorResponse = CoordinatorResponse(
    finalAnswer: string,
    agentResponses: seq<AgentResponse>,
    agentsUsed: seq<string>)

  /** Process after Wait. A single response is the answer; several are handed to the synthesizer, whose
      reply is None for an error. */
  method Assemble(responses: seq<AgentResponse>, synthesis: Option<string>) returns (r: Result<CoordinatorResponse>)
    ensures r.Err? <==> responses == [] || (|responses| > 1 && synthesis == None)
    ensures responses == [] ==> r == Err(NoAgentResponses)
    ensures |responses| > 1 && synthesis == None ==> r == Err(SynthesisFailed)
    ensures r.Ok? ==>
              && r.value.agentResponses == responses
              && |r.value.agentsUsed| == |responses|
              && (forall i :: 0 <= i < |responses| ==> r.value.agentsUsed[i] == responses[i].agentName)
              && r.value.finalAnswer == if |responses| == 1 then responses[0].content else synthesis.value
  {
    if |responses| == 0 {
      return Err(NoAgentResponses);
    }
    var names := new string[|responses|];
    for i := 0 to |responses|
      invariant forall k :: 0 <= k < i ==> names[k] == responses[k].agentName
    {
      names[i] := responses[i].agentName;
    }
    var answer;
    if |responses| == 1 {
      answer := responses[0].content;
    } else {
      if synthesis == None {
        return Err(SynthesisFailed);
      }
      answer := synthesis.value;
    }
    return Ok(CoordinatorResponse(answer, responses, names[..]));
  }

  // ---------------------------------------------------------------- the whole of Process

  /** What an agent answers when asked at a given place of the selection; None for an error. */
  type Ask = (nat, Agent) -> Option<AgentResponse>

  type Synthesizer = seq<AgentResponse> -> Option<string>

  function RepliesOf(selected: seq<Agent>, ask: Ask): (replies: Replies)
    ensures |replies| == |selected|
    ensures forall i :: 0 <= i < |selected| ==> replies[i] == ask(i, selected[i])
  {
    seq(|selected|, i requires 0 <= i < |selected| => ask(i, selected[i]))
  }

  /** The goroutines, scheduled in any way at all. */
  method RunParallel(selected: seq<Agent>, ask: Ask) returns (responses: seq<AgentResponse>)
    ensures exists turns :: IsCollected(RepliesOf(selected, ask), turns, responses)
  {
    hide IsCollected, Run, Next, Start, Enabled, StepsLeft, CountUnfinished;
    var replies := RepliesOf(selected, ask);
    var s := Start(|replies|);
    ghost var turns := [];
    StartRuns(replies);
    while s.left > 0
      invariant Run(replies, turns) == Some(s) && |s.phases| == |replies|
      decreases 5 * |replies| - |turns|
    {
      ghost var someone := NoDeadlock(replies, turns);
      EnabledIsInRange(s, someone);
      var i: nat :| i < |s.phases| && Enabled(s, i);
      RunSnoc(replies, turns, s, i);
      s, turns := Next(s, i, replies), turns + [i];
      RunsAreShort(replies, turns);
    }
    InvHolds(replies, turns);
    ResultsAreSuccesses(s, replies);
    responses := Responses(s.results, replies);
    CollectedAtLast(replies, turns, s);
  }

  function Responses(results: seq<nat>, replies: Replies): (responses: seq<AgentResponse>)
    requires forall k :: 0 <= k < |results| ==> results[k] < |replies| && replies[results[k]].Some?
    ensures responses == Keys(results, Reply(replies))
  {
    seq(|results|, k requires 0 <= k < |results| => replies[results[k]].value)
  }

  lemma StartRuns(replies: Replies)
    ensures Run(replies, []) == Some(Start(|replies|))
  {
  }

  lemma EnabledIsInRange(s: State, i: nat)
    requires Enabled(s, i)
    ensures i < |s.phases|
  {
  }

  lemma RunSnoc(replies: Replies, turns: seq<nat>, s: State, i: nat)
    requires Run(replies, turns) == Some(s) && |s.phases| == |replies| && Enabled(s, i)
    ensures Run(replies, turns + [i]) == Some(Next(s, i, replies))
    ensures |Next(s, i, replies).phases| == |replies|
  {
    assert (turns + [i])[..|turns|] == turns;
  }

  lemma ResultsAreSuccesses(s: State, replies: Replies)
    requires ResultsInv(s, replies)
    ensures forall k :: 0 <= k < |s.results| ==> s.results[k] < |replies| && replies[s.results[k]].Some?
  {
    forall k | 0 <= k < |s.results| ensures s.results[k] < |replies| && replies[s.results[k]].Some? {
      assert s.results[k] in s.results;
    }
  }

  lemma CollectedAtLast(replies: Replies, turns: seq<nat>, s: State)
    requires Run(replies, turns) == Some(s) && Inv(s, replies) && s.left <= 0
    ensures IsCollected(replies, turns, Keys(s.results, Reply(replies)))
  {
  }

  /** After the request has been validated. */
  method Process(agents: seq<Agent>, strategy: StrategyType, ask: Ask, synthesizer: Synthesizer)
    returns (r: Result<CoordinatorResponse>)
    ensures IsOutcome(agents, strategy, ask, synthesizer, r)
  {
    hide IsSelection, IsCollected;
    var selected := SelectAgents(agents, MaxAgentsFor(strategy));
    var responses := RunParallel(selected, ask);
    ghost var turns :| IsCollected(RepliesOf(selected, ask), turns, responses);
    r := Assemble(responses, synthesizer(responses));
    assert r.Ok? ==> r.value.agentsUsed == Keys(responses, NameOf);
    assert IsRun(agents, strategy, ask, selected, turns, responses) && IsAssembled(responses, synthesizer, r);
  }

  ghost predicate IsRun(
      agents: seq<Agent>, strategy: StrategyType, ask: Ask,
      selected: seq<Agent>, turns: seq<nat>, responses: seq<AgentResponse>)
  {
    IsSelection(agents, MaxAgentsFor(strategy), selected) && IsCollected(RepliesOf(selected, ask), turns, responses)
  }

  ghost predicate IsAssembled(responses: seq<AgentResponse>, synthesizer: Synthesizer, r: Result<CoordinatorResponse>) {
    if responses == [] then r == Err(NoAgentResponses)
    else if |responses| > 1 && synthesizer(responses) == None then r == Err(SynthesisFailed)
    else
      && r.Ok?
      && r.value.agentResponses == responses
      && r.value.agentsUsed == Keys(responses, NameOf)
      && r.value.finalAnswer == if |responses| == 1 then responses[0].content else synthesizer(responses).value
  }

  ghost predicate IsOutcome(
      agents: seq<Agent>, strategy: StrategyType, ask: Ask, synthesizer: Synthesizer, r: Result<CoordinatorResponse>)
  {
    exists selected, turns, responses ::
      IsRun(agents, strategy, ask, selected, turns, responses) && IsAssembled(responses, synthesizer, r)
  }

  function NameOf(r: AgentResponse): string {
    r.agentName
  }

  /** Agents put their own names to their answers. */
  ghost predicate Signed(ask: Ask) {
    forall i, a :: ask(i, a).Some? ==> ask(i, a).value.agentName == a.name
  }

  /** The names of the selected agents that succeeded, in the order of the selection. */
  function Succeeded(selected: seq<Agent>, ask: Ask): seq<string> {
    if selected == [] then []
    else
      var init, i := Succeeded(selected[..|selected| - 1], ask), |selected| - 1;
      if ask(i, selected[i]).Some? then init + [selected[i].name] else init
  }

  lemma {:induction false} SucceededAreSuccesses(selected: seq<Agent>, ask: Ask, n: nat)
    requires Signed(ask) && n <= |selected|
    ensures var replies := RepliesOf(selected, ask);
            Succeeded(selected[..n], ask) == Keys(Keys(Successes(replies[..n]), Reply(replies)), NameOf)
  {
    if n > 0 {
      var replies := RepliesOf(selected, ask);
      SucceededAreSuccesses(selected, ask, n - 1);
      assert selected[..n][..n - 1] == selected[..n - 1] && replies[..n][..n - 1] == replies[..n - 1];
      assert selected[..n][n - 1] == selected[n - 1] && replies[..n][n - 1] == replies[n - 1];
    }
  }

  /** Of a whole run: it fails exactly when every selected agent failed, or several succeeded and their
      answers could not be merged; otherwise AgentsUsed is a permutation of the names of the selected
      agents that succeeded. */
  lemma {:induction false} ProcessUsesTheSuccessful(
      agents: seq<Agent>, strategy: StrategyType, ask: Ask, synthesizer: Synthesizer, r: Result<CoordinatorResponse>)
    returns (selected: seq<Agent>)
    requires Signed(ask) && IsOutcome(agents, strategy, ask, synthesizer, r)
    ensures IsSelection(agents, MaxAgentsFor(strategy), selected)
    ensures r == Err(NoAgentResponses) <==> Succeeded(selected, ask) == []
    ensures r == Err(SynthesisFailed) ==> |Succeeded(selected, ask)| > 1
    ensures r.Ok? ==> multiset(r.value.agentsUsed) == multiset(Succeeded(selected, ask))
  {
    var chosen, turns, responses :|
      IsRun(agents, strategy, ask, chosen, turns, responses) && IsAssembled(responses, synthesizer, r);
    selected := chosen;
    hide IsSelection, IsCollected;
    UsedAreSuccessful(chosen, ask, turns, responses);
  }

  lemma UsedAreSuccessful(selected: seq<Agent>, ask: Ask, turns: seq<nat>, responses: seq<AgentResponse>)
    requires Signed(ask) && IsCollected(RepliesOf(selected, ask), turns, responses)
    ensures multiset(Keys(responses, NameOf)) == multiset(Succeeded(selected, ask))
    ensures |responses| == |Succeeded(selected, ask)|
  {
    hide IsCollected, Succeeded, Successes;
    var replies := RepliesOf(selected, ask);
    ResponsesAreAllSuccesses(replies, turns, responses);
    SucceededAreSuccesses(selected, ask, |selected|);
    assert selected[..|selected|] == selected && replies[..|replies|] == replies;
    SameElementsSameKeys(responses, Keys(Successes(replies), Reply(replies)), NameOf);
    assert |responses| == |multiset(responses)| == |Succeeded(selected, ask)|;
  }
}
