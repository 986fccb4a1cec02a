/** Reviewing an answer and improving it until the critic is content or the retries run out.

    The critic and the model that improves answers may do anything: what they say is a function of the
    attempt and of the answer they are shown. */
module CriticLoop {
  import opened Options

  datatype CriticResult = CriticResult(approved: bool, issues: seq<string>, suggestions: seq<string>)

  predicate NeedsRevisionStrict(r: CriticResult, strict: bool) {
    !r.approved || |r.issues| > 0 || (strict && |r.suggestions| > 0)
  }

  /** None is an error. */
  type Critic = (nat, string) -> Option<CriticResult>
  type Improver = (nat, string, CriticResult) -> Option<string>

  predicate Rejected(critic: Critic, strict: bool, attempt: nat, answer: string) {
    critic(attempt, answer).Some? && NeedsRevisionStrict(critic(attempt, answer).value, strict)
  }

  /** At this attempt the answer is sent back and an improved one takes its place. */
  predicate Improves(critic: Critic, improver: Improver, strict: bool, maxRetries: int, attempt: nat, answer: string) {
    && Rejected(critic, strict, attempt, answer)
    && attempt < maxRetries
    && improver(attempt, answer, critic(attempt, answer).value).Some?
  }

  function Improved(critic: Critic, improver: Improver, strict: bool, maxRetries: int, attempt: nat,
      answer: string): string
    requires Improves(critic, improver, strict, maxRetries, attempt, answer)
  {
    improver(attempt, answer, critic(attempt, answer).value).value
  }

  /** Each answer after the first improves the one before it. */
  ghost predicate IsRevised(critic: Critic, improver: Improver, strict: bool, maxRetries: int, answers: seq<string>) {
    forall k :: 0 <= k < |answers| - 1 ==>
      && Improves(critic, improver, strict, maxRetries, k, answers[k])
      && answers[k + 1] == Improved(critic, improver, strict, maxRetries, k, answers[k])
  }

  /** The answers shown to the critic: the first is the given one, each next one improves the last,
      and the last is not improved any more. */
  ghost predicate IsReviewed(critic: Critic, improver: Improver, strict: bool, maxRetries: int, answer: string,
      reviewed: seq<string>)
  {
    && reviewed != []
    && reviewed[0] == answer
    && IsRevised(critic, improver, strict, maxRetries, reviewed)
    && !Improves(critic, improver, strict, maxRetries, |reviewed| - 1, reviewed[|reviewed| - 1])
  }

  /** The answer returned is the one reviewed last. With a negative maxRetries nothing is reviewed. */
  method ReviewWithCritic(answer: string, maxRetries: int, strict: bool, critic: Critic, improver: Improver)
    returns (final: string, reviewed: seq<string>, improveCalls: nat)
    ensures maxRetries < 0 ==> final == answer && reviewed == []
    ensures maxRetries >= 0 ==>
              && IsReviewed(critic, improver, strict, maxRetries, answer, reviewed)
              && final == reviewed[|reviewed| - 1]
              && |reviewed| <= maxRetries + 1
              && improveCalls <= maxRetries
              && improveCalls == |reviewed| - 1 +
                   if Rejected(critic, strict, |reviewed| - 1, final) && |reviewed| <= maxRetries then 1 else 0
  {
    var currentAnswer := answer;
    reviewed, improveCalls := [], 0;
    ghost var shown := [answer];
    var attempt := 0;
    while attempt <= maxRetries
      invariant 0 <= attempt && (maxRetries >= 0 ==> attempt <= maxRetries)
      invariant |reviewed| == improveCalls == attempt
      invariant |shown| == attempt + 1 && shown[0] == answer && shown[attempt] == currentAnswer
      invariant shown[..attempt] == reviewed
      invariant IsRevised(critic, improver, strict, maxRetries, shown)
      decreases maxRetries - attempt
    {
      reviewed := reviewed + [currentAnswer];
      assert reviewed == shown;
      var result := critic(attempt, currentAnswer);
      if result.None? {
        return currentAnswer, reviewed, improveCalls;
      }
      if !NeedsRevisionStrict(result.value, strict) {
        return currentAnswer, reviewed, improveCalls;
      }
      if attempt >= maxRetries {
        return currentAnswer, reviewed, improveCalls;
      }
      improveCalls := improveCalls + 1;
      var improved := improver(attempt, currentAnswer, result.value);
      if improved.None? {
        return currentAnswer, reviewed, improveCalls;
      }
      currentAnswer := improved.value;
      attempt := attempt + 1;
      shown := shown + [currentAnswer];
    }
    return currentAnswer, reviewed, improveCalls;
  }

  /** The critic and the improver determine the whole run. */
  lemma ReviewedIsUnique(critic: Critic, improver: Improver, strict: bool, maxRetries: int, answer: string,
      a: seq<string>, b: seq<string>)
    requires IsReviewed(critic, improver, strict, maxRetries, answer, a)
    requires IsReviewed(critic, improver, strict, maxRetries, answer, b)
    ensures a == b
  {
    SameUpTo(critic, improver, strict, maxRetries, answer, a, b, if |a| < |b| then |a| else |b|);
  }

  lemma {:induction false} SameUpTo(critic: Critic, improver: Improver, strict: bool, maxRetries: int,
      answer: string, a: seq<string>, b: seq<string>, n: nat)
    requires IsReviewed(critic, improver, strict, maxRetries, answer, a)
    requires IsReviewed(critic, improver, strict, maxRetries, answer, b)
    requires n <= |a| && n <= |b|
    ensures a[..n] == b[..n]
  {
    if n > 0 {
      SameUpTo(critic, improver, strict, maxRetries, answer, a, b, n - 1);
      assert n > 1 ==> a[..n - 1][n - 2] == b[..n - 1][n - 2];
    }
  }

  /** Even an answer the critic still objects to is returned, but only for want of retries or because
      it could not be improved. */
  lemma ReturnedDespiteObjections(critic: Critic, improver: Improver, strict: bool, maxRetries: int, answer: string,
      reviewed: seq<string>)
    requires maxRetries >= 0 && IsReviewed(critic, improver, strict, maxRetries, answer, reviewed)
    ensures |reviewed| <= maxRetries + 1
    ensures var k := |reviewed| - 1;
            Rejected(critic, strict, k, reviewed[k]) ==>
              k == maxRetries || improver(k, reviewed[k], critic(k, reviewed[k]).value).None?
  {
    if |reviewed| > 1 {
      assert Improves(critic, improver, strict, maxRetries, |reviewed| - 2, reviewed[|reviewed| - 2]);
    }
  }

  /** The critic has nothing to object to: approved, no issues, and no suggestions either when strict. */
  predicate IsContent(r: CriticResult, strict: bool) {
    r.approved && r.issues == [] && (strict ==> r.suggestions == [])
  }

  /** A reason to return the answer as it is. */
  predicate Stops(critic: Critic, improver: Improver, strict: bool, maxRetries: int, attempt: nat, answer: string) {
    var review := critic(attempt, answer);
    || review.None?
    || IsContent(review.value, strict)
    || attempt >= maxRetries
    || improver(attempt, answer, review.value).None?
  }

  /** The loop stops at the first answer for which there is a reason to, and at no other. */
  lemma {:induction false} StopsAtFirstReason(critic: Critic, improver: Improver, strict: bool, maxRetries: int,
      answer: string, reviewed: seq<string>, k: nat)
    requires IsReviewed(critic, improver, strict, maxRetries, answer, reviewed) && k < |reviewed|
    ensures Stops(critic, improver, strict, maxRetries, k, reviewed[k]) <==> k == |reviewed| - 1
    ensures k < |reviewed| - 1 ==>
              && critic(k, reviewed[k]).Some?
              && Some(reviewed[k + 1]) == improver(k, reviewed[k], critic(k, reviewed[k]).value)
  {
    if k < |reviewed| - 1 {
      assert Improves(critic, improver, strict, maxRetries, k, reviewed[k]);
      assert reviewed[k + 1] == Improved(critic, improver, strict, maxRetries, k, reviewed[k]);
    }
  }
}
