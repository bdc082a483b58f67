/** The paced exchange loop: spacing between requests of one connection
    generation, the bound on attempts, and the interval between cycles. Times are
    nanoseconds of a monotone clock; the session, the fence and the caller's
    cancellation answer arbitrarily. */
module ProviderPacing {
  import opened Foundation

  datatype Pacing = Pacing(
    gap: nat,
    cycle: nat,
    attemptDeadline: nat,
    maxAttempts: int,
    backoff: seq<nat>,
    firstRequestExtraAttempt: bool,
    promptBound: nat)

  datatype Outcome = Answered | Exception(code: uint8) | Timeout | Malformed | Transport

  /** Exceptions 5, 6 and 11 ask to try again; any other is a definitive reply. */
  predicate Definitive(outcome: Outcome) {
    outcome.Exception? && outcome.code != 5 && outcome.code != 6 && outcome.code != 11
  }

  predicate Final(outcome: Outcome) {
    outcome.Answered? || Definitive(outcome)
  }

  datatype ReadResult =
    | ReadAnswered
    | ReadException(code: uint8)
    | ReadFailed(last: Outcome, overDeadline: bool)
    | ReadStopped(decoded: Option<uint8>)

  /** How an attempt is filed with its outcome. */
  datatype Elapsed = AtDeadline | WithinPromptBound | WithinDeadline | FirstRequestTolerated

  /** One request on the wire: failed counts the failed attempts before it. */
  datatype Attempt = Attempt(
    sentAt: int, endedAt: int, deadline: int, failed: nat, tolerated: bool, outcome: Outcome, elapsed: Elapsed)

  /** What the session returned, and whether the attempt's context had expired by then. */
  datatype Reply = Reply(outcome: Outcome, expired: bool)

  /** The session answered, or returned an exception, within the attempt's deadline. */
  predicate CameInTime(a: Attempt, r: Reply) {
    (r.outcome.Answered? || r.outcome.Exception?) && !r.expired && a.endedAt - a.sentAt <= a.deadline
  }

  /** An attempt's outcome is the session's reply; an answer or exception that came
      too late counts as a timeout. */
  predicate Classified(a: Attempt, r: Reply) {
    a.outcome == if (r.outcome.Answered? || r.outcome.Exception?) && !CameInTime(a, r) then Timeout else r.outcome
  }

  /** An exception that is not repeated. */
  predicate FinalException(outcome: Outcome, code: uint8) {
    outcome == Exception(code) && code !in {5, 6, 11}
  }

  /** The least time between the end of one request and the next attempt: the gap,
      or the back-off of that many failures when it is longer. */
  function Spacing(pacing: Pacing, failed: nat): (spacing: nat)
    ensures spacing >= pacing.gap
    ensures 0 < failed <= |pacing.backoff| ==> spacing >= pacing.backoff[failed - 1]
    ensures spacing == pacing.gap || (0 < failed <= |pacing.backoff| && spacing == pacing.backoff[failed - 1])
  {
    if failed > 0 && failed - 1 < |pacing.backoff| && pacing.backoff[failed - 1] > pacing.gap then pacing.backoff[failed - 1]
    else pacing.gap
  }

  /** Requests of one connection generation never overlap and keep their spacing. */
  predicate Spaced(pacing: Pacing, log: seq<Attempt>) {
    && (forall i :: 0 <= i < |log| ==> log[i].sentAt <= log[i].endedAt)
    && (forall i :: 0 < i < |log| ==> KeepsSpacing(pacing, log, i))
  }

  predicate KeepsSpacing(pacing: Pacing, log: seq<Attempt>, i: nat)
    requires 0 < i < |log|
  {
    log[i].sentAt >= log[i - 1].endedAt + Spacing(pacing, log[i].failed)
  }

  lemma SpacedExtends(pacing: Pacing, log: seq<Attempt>, a: Attempt)
    requires Spaced(pacing, log) && a.sentAt <= a.endedAt
    requires |log| > 0 ==> a.sentAt >= log[|log| - 1].endedAt + Spacing(pacing, a.failed)
    ensures Spaced(pacing, log + [a])
  {
    var longer := log + [a];
    forall i | 0 < i < |longer|
      ensures KeepsSpacing(pacing, longer, i)
    {
      assert i < |log| ==> KeepsSpacing(pacing, log, i);
    }
  }

  /** A reply that counts came within the contract deadline. */
  predicate InTime(pacing: Pacing, a: Attempt) {
    a.outcome.Answered? || a.outcome.Exception? ==> a.endedAt - a.sentAt <= pacing.attemptDeadline
  }

  /** The attempts of one read: numbered by their failures, replies in time, only
      the last can be final, and only a first timeout of the generation is
      tolerated. */
  predicate OneRead(pacing: Pacing, first: bool, made: seq<Attempt>) {
    var extra := if |made| > 0 && made[0].tolerated then 1 else 0;
    && |made| <= pacing.maxAttempts + extra
    && (forall i :: 0 <= i < |made| ==> made[i].failed == if i < extra then 0 else i - extra)
    && (forall i :: 0 <= i < |made| - 1 ==> !Final(made[i].outcome))
    && (forall i :: 0 <= i < |made| ==> InTime(pacing, made[i]))
    && (forall i :: 0 < i < |made| ==> !made[i].tolerated)
    && (|made| > 0 ==> (extra == 1 <==> first && pacing.firstRequestExtraAttempt && made[0].outcome.Timeout?))
  }

  /** What the result of a read says about its attempts. */
  predicate Reported(pacing: Pacing, made: seq<Attempt>, result: ReadResult) {
    match result
    case ReadAnswered => |made| > 0 && made[|made| - 1].outcome.Answered?
    case ReadException(code) => |made| > 0 && made[|made| - 1].outcome == Exception(code) && Definitive(Exception(code))
    case ReadFailed(last, overDeadline) =>
      && (|made| > 0 ==> !Final(made[|made| - 1].outcome))
      && (overDeadline ==> last.Timeout?)
      && (!overDeadline ==>
          && |made| > 0 && last == made[|made| - 1].outcome
          && |made| == pacing.maxAttempts + if made[0].tolerated then 1 else 0)
    case ReadStopped(decoded) =>
      decoded == if |made| > 0 && Definitive(made[|made| - 1].outcome) then Some(made[|made| - 1].outcome.code) else None
  }

  /** Each attempt of a read is a classified reply of the session. */
  predicate AllClassified(made: seq<Attempt>, replies: seq<Reply>) {
    |made| == |replies| && forall i :: 0 <= i < |made| ==> Classified(made[i], replies[i])
  }

  /** The result of a read that was not stopped, in terms of the session's last
      reply: answered when that was an answer in time, an exception when it was one in
      time that is not repeated, and failed otherwise. */
  predicate ResultOfReplies(made: seq<Attempt>, replies: seq<Reply>, result: ReadResult)
    requires |made| == |replies|
  {
    var n := |made|;
    && (result.ReadAnswered? <==> n > 0 && CameInTime(made[n - 1], replies[n - 1]) && replies[n - 1].outcome.Answered?)
    && (forall code: uint8 :: result == ReadException(code) <==>
        n > 0 && CameInTime(made[n - 1], replies[n - 1]) && FinalException(replies[n - 1].outcome, code))
  }

  /** And of a stopped read: an exception decoded before the stop is handed on exactly
      when it is one that is not repeated. */
  predicate StopOfReplies(made: seq<Attempt>, replies: seq<Reply>, decoded: Option<uint8>)
    requires |made| == |replies|
  {
    var n := |made|;
    forall code: uint8 :: decoded == Some(code) <==>
      n > 0 && CameInTime(made[n - 1], replies[n - 1]) && FinalException(replies[n - 1].outcome, code)
  }

  predicate ResultFits(made: seq<Attempt>, replies: seq<Reply>, result: ReadResult)
    requires |made| == |replies|
  {
    if result.ReadStopped? then StopOfReplies(made, replies, result.decoded) else ResultOfReplies(made, replies, result)
  }

  /** The outcomes decide the results because every attempt is a classified reply. */
  lemma ResultsAreOfReplies(pacing: Pacing, made: seq<Attempt>, replies: seq<Reply>)
    requires AllClassified(made, replies)
    ensures forall result :: Reported(pacing, made, result) ==> ResultFits(made, replies, result)
  {
    if |made| > 0 {
      assert Classified(made[|made| - 1], replies[|made| - 1]);
    }
  }

  lemma ClassifiedExtends(made: seq<Attempt>, replies: seq<Reply>, a: Attempt, r: Reply)
    requires AllClassified(made, replies) && Classified(a, r)
    ensures AllClassified(made + [a], replies + [r])
  {
  }

  /** The attempts so far leave room for the next one. */
  predicate InProgress(pacing: Pacing, first: bool, made: seq<Attempt>, failed: nat, tolerated: bool) {
    && OneRead(pacing, first, made)
    && |made| == failed + (if tolerated then 1 else 0)
    && (tolerated <==> |made| > 0 && made[0].tolerated)
    && (|made| > 0 ==> !Final(made[|made| - 1].outcome))
  }

  lemma NothingMade(pacing: Pacing, first: bool)
    requires pacing.maxAttempts > 0
    ensures InProgress(pacing, first, [], 0, false)
  {
  }

  lemma OneReadExtends(pacing: Pacing, first: bool, made: seq<Attempt>, failed: nat, tolerated: bool, a: Attempt)
    requires InProgress(pacing, first, made, failed, tolerated) && failed < pacing.maxAttempts && a.failed == failed
    requires InTime(pacing, a)
    requires a.tolerated <==> !tolerated && failed == 0 && first && pacing.firstRequestExtraAttempt && a.outcome.Timeout?
    ensures OneRead(pacing, first, made + [a])
    ensures !Final(a.outcome) ==>
      InProgress(pacing, first, made + [a], if a.tolerated then failed else failed + 1, tolerated || a.tolerated)
    ensures (made + [a])[|made + [a]| - 1] == a && (made != [] ==> (made + [a])[0] == made[0])
  {
    var longer := made + [a];
    assert forall i :: 0 <= i < |made| ==> longer[i] == made[i];
  }

  /** Before the next attempt a read can only give up or stop with nothing decoded. */
  lemma StoppedInProgress(pacing: Pacing, first: bool, made: seq<Attempt>, failed: nat, tolerated: bool)
    requires InProgress(pacing, first, made, failed, tolerated)
    ensures Reported(pacing, made, ReadStopped(None)) && Reported(pacing, made, ReadFailed(Timeout, true))
    ensures OneRead(pacing, first, made)
  {
  }

  /** A reply that counts came within the contract deadline. */
  lemma ClassifiedIsInTime(pacing: Pacing, a: Attempt, r: Reply)
    requires Classified(a, r) && a.deadline <= pacing.attemptDeadline
    ensures InTime(pacing, a)
  {
  }

  /** What a read reports on its last attempt. */
  lemma LastDecides(pacing: Pacing, made: seq<Attempt>)
    requires |made| > 0
    ensures var outcome := made[|made| - 1].outcome;
      && Reported(pacing, made, ReadStopped(if Definitive(outcome) then Some(outcome.code) else None))
      && (outcome.Answered? ==> Reported(pacing, made, ReadAnswered))
      && (Definitive(outcome) ==> Reported(pacing, made, ReadException(outcome.code)))
  {
  }

  lemma OutOfAttempts(pacing: Pacing, first: bool, made: seq<Attempt>, failed: nat, tolerated: bool)
    requires InProgress(pacing, first, made, failed, tolerated) && |made| > 0 && failed == pacing.maxAttempts
    ensures Reported(pacing, made, ReadFailed(made[|made| - 1].outcome, false))
  {
  }

  /** What has happened since a read began, from the requests and replies until then:
      its attempts, each a classified reply. */
  ghost predicate Reading(log: seq<Attempt>, replies: seq<Reply>, before: seq<Attempt>, heard: seq<Reply>, made: seq<Attempt>) {
    && log == before + made
    && |replies| == |heard| + |made| && replies[..|heard|] == heard
    && AllClassified(made, replies[|heard|..])
  }

  /** The result of a read is that of its attempts and of the replies to them. */
  ghost predicate Concludes(pacing: Pacing, replies: seq<Reply>, heard: seq<Reply>, made: seq<Attempt>, result: ReadResult) {
    && |replies| == |heard| + |made|
    && Reported(pacing, made, result) && ResultFits(made, replies[|heard|..], result)
  }

  lemma Concluded(pacing: Pacing, log: seq<Attempt>, replies: seq<Reply>, before: seq<Attempt>, heard: seq<Reply>, made: seq<Attempt>,
                  result: ReadResult)
    requires Reading(log, replies, before, heard, made) && Reported(pacing, made, result)
    ensures Concludes(pacing, replies, heard, made, result)
  {
    ResultsAreOfReplies(pacing, made, replies[|heard|..]);
  }

  lemma NothingHeard(pacing: Pacing, log: seq<Attempt>, replies: seq<Reply>)
    ensures Reading(log, replies, log, replies, []) && Reported(pacing, [], ReadStopped(None))
  {
    assert log + [] == log;
  }

  // ---- the environment -----------------------------------------------------------------------

  /** Clock, wait, session, fence and context; every answer is arbitrary, the
      clock never goes back. ended counts the answers that end a cycle, early the
      waits that returned too soon, replies the session's answers in order. */
  class Environment {
    var now: int
    ghost var ended: nat
    ghost var early: nat
    ghost var replies: seq<Reply>

    method Clock() returns (time: int)
      modifies this
      ensures old(now) <= time == now && ended == old(ended) && early == old(early)
      ensures replies == old(replies)
    {
      var passed: nat :| passed >= 0;
      now := now + passed;
      time := now;
    }

    method Wait(duration: int) returns (failed: bool)
      modifies this
      ensures old(now) <= now
      ensures ended == old(ended) + (if failed then 1 else 0)
      ensures early == old(early) + (if !failed && now < old(now) + duration then 1 else 0)
      ensures replies == old(replies)
    {
      ghost var before := now;
      var passed: nat :| passed >= 0;
      now := now + passed;
      failed := *;
      if failed {
        ended := ended + 1;
      } else if now < before + duration {
        early := early + 1;
      }
    }

    method Fenced() returns (fenced: bool)
      modifies this
      ensures old(now) <= now && ended == old(ended) + (if fenced then 1 else 0) && early == old(early)
      ensures replies == old(replies)
    {
      var passed: nat :| passed >= 0;
      now := now + passed;
      fenced := *;
      if fenced {
        ended := ended + 1;
      }
    }

    method Cancelled() returns (cancelled: bool)
      modifies this
      ensures old(now) <= now && ended == old(ended) + (if cancelled then 1 else 0) && early == old(early)
      ensures replies == old(replies)
    {
      var passed: nat :| passed >= 0;
      now := now + passed;
      cancelled := *;
      if cancelled {
        ended := ended + 1;
      }
    }

    /** One request; expired reports that the attempt context ended first. */
    method Send(deadline: int) returns (outcome: Outcome, expired: bool)
      modifies this
      ensures old(now) <= now && ended == old(ended) && early == old(early)
      ensures replies == old(replies) + [Reply(outcome, expired)]
    {
      var passed: nat :| passed >= 0;
      now := now + passed;
      outcome := *;
      expired := *;
      replies := replies + [Reply(outcome, expired)];
    }
  }

  // ---- the exchange loop -------------------------------------------------------------------------

  datatype Spacer = Ready | OverBudget | WaitFailed | TooEarly

  /** Whether an attempt may be sent, and with which deadline. */
  datatype Admission = Send(deadline: int) | GiveUp | Halt

  /** The pacing part of huaweiCycleRun, with the log of its generation's requests. */
  class PacedRun {
    const pacing: Pacing
    var sent: bool
    var lastEnd: int
    var stopped: bool
    var budgetEnd: Option<int>
    var plannedReads: nat
    var wireAttempts: nat
    ghost var log: seq<Attempt>

    /** The link state is the end of the last request. */
    ghost predicate Valid()
      reads this
    {
      && pacing.maxAttempts > 0
      && (sent <==> |log| > 0)
      && (sent ==> lastEnd == log[|log| - 1].endedAt)
      && Spaced(pacing, log)
    }

    ghost predicate Before(env: Environment)
      reads this, env
    {
      sent ==> lastEnd <= env.now
    }

    /** The longest deadline that keeps the contract and ends within the budget. */
    predicate AllowedDeadline(now: int, deadline: int)
      reads this
    {
      && deadline <= pacing.attemptDeadline
      && (budgetEnd.Some? ==> now + deadline <= budgetEnd.value)
      && (deadline == pacing.attemptDeadline || (budgetEnd.Some? && now + deadline == budgetEnd.value))
    }

    /** A cycle takes over the link state of the generation it runs on. */
    constructor (pacing: Pacing, sent: bool, lastEnd: int, ghost log: seq<Attempt>)
      requires pacing.maxAttempts > 0 && (sent <==> |log| > 0) && (sent ==> lastEnd == log[|log| - 1].endedAt)
      requires Spaced(pacing, log)
      ensures Valid() && this.pacing == pacing && this.log == log && !stopped
      ensures this.sent == sent && this.lastEnd == lastEnd
    {
      this.pacing, this.sent, this.lastEnd, this.log := pacing, sent, lastEnd, log;
      stopped, budgetEnd, plannedReads, wireAttempts := false, None, 0, 0;
    }

    /** Waits until the spacing has passed and checks the clock again. */
    method AwaitSpacing(env: Environment, failed: nat) returns (verdict: Spacer)
      requires Valid() && Before(env)
      modifies env
      ensures old(env.now) <= env.now
      ensures verdict.Ready? && sent ==> env.now >= lastEnd + Spacing(pacing, failed)
      ensures verdict.OverBudget? <==> sent && budgetEnd.Some? && lastEnd + Spacing(pacing, failed) >= budgetEnd.value
      ensures verdict.WaitFailed? <==> env.ended > old(env.ended)
      ensures old(env.early) <= env.early && (verdict.TooEarly? ==> env.early > old(env.early))
      ensures verdict.WaitFailed? || env.ended == old(env.ended)
      ensures env.replies == old(env.replies)
    {
      if !sent {
        return Ready;
      }
      var required := lastEnd + Spacing(pacing, failed);
      if budgetEnd.Some? && required >= budgetEnd.value {
        return OverBudget;
      }
      var now := env.Clock();
      if now < required {
        var failedWait := env.Wait(required - now);
        if failedWait {
          return WaitFailed;
        }
        now := env.Clock();
        if now < required {
          return TooEarly;
        }
      }
      return Ready;
    }

    /** One request: the outcome is the session's reply, but an answer or exception
        that expired or came after the deadline counts as a timeout. */
    method SendOnce(env: Environment, failed: nat, deadline: int, tolerable: bool) returns (outcome: Outcome, ghost attempt: Attempt)
      requires Valid() && Before(env)
      requires sent ==> env.now >= lastEnd + Spacing(pacing, failed)
      modifies this, env
      ensures Valid() && Before(env) && old(env.now) <= env.now && stopped == old(stopped) && budgetEnd == old(budgetEnd)
      ensures log == old(log) + [attempt] && attempt.sentAt >= old(env.now)
      ensures |env.replies| == |old(env.replies)| + 1 && env.replies[..|old(env.replies)|] == old(env.replies)
      ensures Classified(attempt, env.replies[|old(env.replies)|]) && attempt.deadline == deadline
      ensures attempt.failed == failed && attempt.tolerated == (tolerable && outcome.Timeout?) && attempt.outcome == outcome
      ensures attempt.elapsed ==
        if attempt.tolerated then FirstRequestTolerated
        else if outcome.Timeout? then AtDeadline
        else if attempt.endedAt - attempt.sentAt <= pacing.promptBound then WithinPromptBound
        else WithinDeadline
      ensures wireAttempts == old(wireAttempts) + 1 && plannedReads == old(plannedReads)
      ensures env.ended == old(env.ended) && env.early == old(env.early)
    {
      var sentAt := env.Clock();
      var reply, expired := env.Send(deadline);
      var end := env.Clock();
      outcome := reply;
      if (reply.Answered? || reply.Exception?) && (expired || end - sentAt > deadline) {
        outcome := Timeout;
      }
      sent, lastEnd := true, end;
      wireAttempts := wireAttempts + 1;
      var elapsed := WithinDeadline;
      if outcome.Timeout? {
        elapsed := AtDeadline;
      } else if end - sentAt <= pacing.promptBound {
        elapsed := WithinPromptBound;
      }
      if tolerable && outcome.Timeout? {
        elapsed := FirstRequestTolerated;
      }
      attempt := Attempt(sentAt, end, deadline, failed, tolerable && outcome.Timeout?, outcome, elapsed);
      SpacedExtends(pacing, log, attempt);
      log := log + [attempt];
    }

    /** The deadline of the next attempt: the contract's, cut to what the budget
        leaves, unless the budget is used up. */
    method AttemptDeadline(env: Environment) returns (deadline: int, overBudget: bool)
      modifies env
      ensures old(env.now) <= env.now && env.ended == old(env.ended) && env.early == old(env.early) && env.replies == old(env.replies)
      ensures overBudget <==> budgetEnd.Some? && env.now >= budgetEnd.value
      ensures !overBudget ==> AllowedDeadline(env.now, deadline)
    {
      deadline, overBudget := pacing.attemptDeadline, false;
      if budgetEnd.Some? {
        var now := env.Clock();
        var remaining := budgetEnd.value - now;
        if remaining <= 0 {
          return remaining, true;
        }
        if remaining < deadline {
          deadline := remaining;
        }
      }
    }

    /** The checks before every attempt: fence, spacing, cancellation, budget. */
    method AdmitAttempt(env: Environment, failed: nat) returns (admission: Admission)
      requires Valid() && Before(env)
      modifies env
      ensures old(env.now) <= env.now
      ensures admission.Send? && sent ==> env.now >= lastEnd + Spacing(pacing, failed)
      ensures admission.Send? ==> AllowedDeadline(env.now, admission.deadline)
      ensures admission.GiveUp? ==> budgetEnd.Some?
      ensures old(env.early) <= env.early
      ensures admission.Halt? ==> env.ended > old(env.ended) || env.early > old(env.early)
      ensures !admission.Halt? ==> env.ended == old(env.ended)
      ensures env.replies == old(env.replies)
    {
      var fenced := env.Fenced();
      if fenced {
        return Halt;
      }
      var verdict := AwaitSpacing(env, failed);
      if verdict.OverBudget? {
        return GiveUp;
      }
      if !verdict.Ready? {
        return Halt;
      }
      var cancelled := env.Cancelled();
      if cancelled {
        return Halt;
      }
      fenced := env.Fenced();
      if fenced {
        return Halt;
      }
      var deadline, overBudget := AttemptDeadline(env);
      return if overBudget then GiveUp else Send(deadline);
    }

    /** One admitted attempt of a read. */
    method TryOnce(env: Environment, failed: nat, deadline: int, tolerable: bool,
                   ghost first: bool, ghost tolerated: bool, ghost before: seq<Attempt>, ghost heard: seq<Reply>, ghost made: seq<Attempt>)
      returns (outcome: Outcome, ghost longer: seq<Attempt>)
      requires Valid() && Before(env) && Reading(log, env.replies, before, heard, made)
      requires sent ==> env.now >= lastEnd + Spacing(pacing, failed)
      requires InProgress(pacing, first, made, failed, tolerated) && failed < pacing.maxAttempts && deadline <= pacing.attemptDeadline
      requires tolerable == (first && !tolerated && pacing.firstRequestExtraAttempt && failed == 0)
      modifies this, env
      ensures Valid() && Before(env) && stopped == old(stopped) && budgetEnd == old(budgetEnd)
      ensures env.ended == old(env.ended) && env.early == old(env.early)
      ensures wireAttempts == old(wireAttempts) + 1 && plannedReads == old(plannedReads)
      ensures |longer| == |made| + 1 && longer[|made|].outcome == outcome && log == before + longer
      ensures Reading(log, env.replies, before, heard, longer) && OneRead(pacing, first, longer)
      ensures !Final(outcome) ==>
        InProgress(pacing, first, longer, if tolerable && outcome.Timeout? then failed else failed + 1, tolerated || (tolerable && outcome.Timeout?))
    {
      hide Spaced, OneRead, Spacing, Classified, AllClassified, InProgress, InTime;
      ghost var said := env.replies;
      ghost var attempt;
      outcome, attempt := SendOnce(env, failed, deadline, tolerable);
      longer := made + [attempt];
      ClassifiedIsInTime(pacing, attempt, env.replies[|said|]);
      OneReadExtends(pacing, first, made, failed, tolerated, attempt);
      ClassifiedExtends(made, said[|heard|..], attempt, env.replies[|said|]);
      assert env.replies[|heard|..] == said[|heard|..] + [env.replies[|said|]];
      assert env.replies[..|heard|] == said[..|heard|];
    }

    /** exchange: one read under the pacing contract. It stops whenever the fence,
        the context or a wait ends it, and otherwise only on a wait that returned
        too soon. */
    method Exchange(env: Environment) returns (result: ReadResult, ghost made: seq<Attempt>)
      requires Valid() && Before(env)
      modifies this, env
      ensures Valid() && Before(env)
      ensures old(stopped) ==> made == [] && result == ReadStopped(None)
      ensures OneRead(pacing, !old(sent), made)
      ensures result.ReadStopped? <==> stopped
      ensures env.ended > old(env.ended) ==> stopped
      ensures stopped ==> old(stopped) || env.ended > old(env.ended) || env.early > old(env.early)
      ensures result.ReadFailed? && result.overDeadline ==> budgetEnd.Some?
      ensures log == old(log) + made && wireAttempts == old(wireAttempts) + |made|
      ensures plannedReads == old(plannedReads) + if old(stopped) then 0 else 1
      ensures Reading(log, env.replies, old(log), old(env.replies), made)
      ensures Concludes(pacing, env.replies, old(env.replies), made, result)
    {
      hide Spaced, OneRead, Spacing, Reported, AllClassified, ResultFits, InProgress, InTime, Concludes, Reading;
      made := [];
      ghost var heard := env.replies;
      ghost var before := log;
      NothingMade(pacing, !sent);
      NothingHeard(pacing, log, env.replies);
      StoppedInProgress(pacing, !sent, made, 0, false);
      if stopped {
        Concluded(pacing, log, env.replies, before, heard, made, ReadStopped(None));
        return ReadStopped(None), made;
      }
      plannedReads := plannedReads + 1;
      var first := !sent;
      var tolerated := false;
      var failed := 0;
      while true
        invariant Valid() && Before(env) && !stopped && 0 <= failed < pacing.maxAttempts
        invariant log == before + made && wireAttempts == old(wireAttempts) + |made| && plannedReads == old(plannedReads) + 1
        invariant InProgress(pacing, first, made, failed, tolerated) && Reading(log, env.replies, before, heard, made)
        invariant env.ended == old(env.ended) && env.early >= old(env.early)
        decreases pacing.maxAttempts - failed, !tolerated
      {
        StoppedInProgress(pacing, first, made, failed, tolerated);
        var admission := AdmitAttempt(env, failed);
        if admission.GiveUp? {
          Concluded(pacing, log, env.replies, before, heard, made, ReadFailed(Timeout, true));
          return ReadFailed(Timeout, true), made;
        }
        if admission.Halt? {
          stopped := true;
          Concluded(pacing, log, env.replies, before, heard, made, ReadStopped(None));
          return ReadStopped(None), made;
        }
        var tolerable := first && !tolerated && pacing.firstRequestExtraAttempt && failed == 0;
        var outcome;
        outcome, made := TryOnce(env, failed, admission.deadline, tolerable, first, tolerated, before, heard, made);
        var cancelled := env.Cancelled();
        LastDecides(pacing, made);
        if tolerable && outcome.Timeout? {
          tolerated := true;
          if cancelled {
            stopped := true;
            Concluded(pacing, log, env.replies, before, heard, made, ReadStopped(None));
            return ReadStopped(None), made;
          }
          continue;
        }
        if cancelled {
          stopped := true;
          result := ReadStopped(if Definitive(outcome) then Some(outcome.code) else None);
          Concluded(pacing, log, env.replies, before, heard, made, result);
          return;
        }
        if outcome.Answered? {
          Concluded(pacing, log, env.replies, before, heard, made, ReadAnswered);
          return ReadAnswered, made;
        }
        if Definitive(outcome) {
          Concluded(pacing, log, env.replies, before, heard, made, ReadException(outcome.code));
          return ReadException(outcome.code), made;
        }
        failed := failed + 1;
        if failed >= pacing.maxAttempts {
          OutOfAttempts(pacing, first, made, failed, tolerated);
          Concluded(pacing, log, env.replies, before, heard, made, ReadFailed(outcome, false));
          return ReadFailed(outcome, false), made;
        }
      }
    }
  }

  // ---- any number of exchanges and cycles on one generation --------------------------------------------

  /** The attempts of successive reads, as one log. */
  function Joined(exchanges: seq<seq<Attempt>>): seq<Attempt> {
    if |exchanges| == 0 then [] else Joined(exchanges[..|exchanges| - 1]) + exchanges[|exchanges| - 1]
  }

  function ReadCount(cycles: seq<seq<Option<int>>>): nat {
    if |cycles| == 0 then 0 else ReadCount(cycles[..|cycles| - 1]) + |cycles[|cycles| - 1]|
  }

  /** Every read is one exchange; only the very first can be a generation's first. */
  predicate EachIsOneRead(pacing: Pacing, exchanges: seq<seq<Attempt>>) {
    forall r :: 0 <= r < |exchanges| ==> OneRead(pacing, |Joined(exchanges[..r])| == 0, exchanges[r])
  }

  lemma OneMoreRead(pacing: Pacing, exchanges: seq<seq<Attempt>>, made: seq<Attempt>)
    requires EachIsOneRead(pacing, exchanges) && OneRead(pacing, |Joined(exchanges)| == 0, made)
    ensures EachIsOneRead(pacing, exchanges + [made]) && Joined(exchanges + [made]) == Joined(exchanges) + made
  {
    hide OneRead;
    var longer := exchanges + [made];
    assert longer[..|exchanges|] == exchanges;
    forall r | 0 <= r < |longer|
      ensures OneRead(pacing, |Joined(longer[..r])| == 0, longer[r])
    {
      assert longer[..r] == exchanges[..r];
    }
  }

  /** Successive cycles of one generation hand the link state on: one exchange per
      read, whatever budget is in force at it, and all requests of the generation
      keep their spacing. */
  method RunGeneration(pacing: Pacing, env: Environment, cycles: seq<seq<Option<int>>>)
    returns (ghost log: seq<Attempt>, ghost exchanges: seq<seq<Attempt>>)
    requires pacing.maxAttempts > 0
    modifies env
    ensures Spaced(pacing, log) && log == Joined(exchanges)
    ensures |exchanges| == ReadCount(cycles) && EachIsOneRead(pacing, exchanges)
  {
    hide Spaced, OneRead, EachIsOneRead, Joined;
    var sent, lastEnd := false, 0;
    log, exchanges := [], [];
    NoReads(pacing);
    for cycle := 0 to |cycles|
      invariant (sent <==> |log| > 0) && (sent ==> lastEnd == log[|log| - 1].endedAt && lastEnd <= env.now)
      invariant Spaced(pacing, log) && log == Joined(exchanges) && EachIsOneRead(pacing, exchanges)
      invariant |exchanges| == ReadCount(cycles[..cycle])
    {
      assert cycles[..cycle + 1][..cycle] == cycles[..cycle];
      var run := new PacedRun(pacing, sent, lastEnd, log);
      for read := 0 to |cycles[cycle]|
        invariant fresh(run) && run.Valid() && run.Before(env) && run.pacing == pacing
        invariant run.log == Joined(exchanges) && EachIsOneRead(pacing, exchanges)
        invariant |exchanges| == ReadCount(cycles[..cycle]) + read
      {
        run.budgetEnd := cycles[cycle][read];
        var result, made := run.Exchange(env);
        OneMoreRead(pacing, exchanges, made);
        exchanges := exchanges + [made];
      }
      sent, lastEnd, log := run.sent, run.lastEnd, run.log;
    }
    assert cycles[..|cycles|] == cycles;
  }

  lemma NoReads(pacing: Pacing)
    ensures Spaced(pacing, []) && Joined([]) == [] && EachIsOneRead(pacing, [])
  {
  }

  /** Any two requests of a generation are at least the gap apart. */
  lemma {:induction false} RequestsAreApart(pacing: Pacing, log: seq<Attempt>, i: nat, j: nat)
    requires Spaced(pacing, log) && i < j < |log|
    ensures log[j].sentAt >= log[i].endedAt + (j - i) * pacing.gap
    decreases j
  {
    assert KeepsSpacing(pacing, log, j);
    if i < j - 1 {
      RequestsAreApart(pacing, log, i, j - 1);
      OneMore(j - 1 - i, pacing.gap);
      assert log[j - 1].sentAt <= log[j - 1].endedAt;
    }
  }

  lemma OneMore(n: int, gap: int)
    ensures (n + 1) * gap == n * gap + gap
  {
  }

  // ---- the next cycle ----------------------------------------------------------------------------------

  /** The interval refresh sets: the elapsed time stays within three quarters of
      it, and it is the least interval from the cycle up for which that holds. */
  method NextInterval(pacing: Pacing, elapsed: nat, waitCycles: nat) returns (interval: nat)
    ensures interval >= pacing.cycle + waitCycles * pacing.cycle
    ensures elapsed * 4 <= interval * 3
    ensures forall shorter: nat :: pacing.cycle <= shorter < interval - waitCycles * pacing.cycle ==> elapsed * 4 > shorter * 3
  {
    interval := pacing.cycle;
    if elapsed * 4 > interval * 3 {
      interval := (elapsed * 4 + 2) / 3;
    }
    interval := interval + waitCycles * pacing.cycle;
  }

  // ---- back-off in cycles --------------------------------------------------------------------------------

  function Power(n: nat): (power: nat)
    ensures power > 0
  {
    if n == 0 then 1 else 2 * Power(n - 1)
  }

  lemma {:induction false} PowerGrows(n: nat)
    requires n >= 4
    ensures Power(n) >= 16
    decreases n
  {
    if n > 4 {
      PowerGrows(n - 1);
    }
  }

  /** The doubling of both back-off functions, capped at ten cycles. */
  function Doubled(steps: nat): (wait: nat)
    ensures wait > 0
  {
    if steps >= 4 then 10 else Power(steps)
  }

  lemma DoubledIs()
    ensures Doubled(0) == 1 && Doubled(1) == 2 && Doubled(2) == 4 && Doubled(3) == 8
    ensures forall steps :: steps >= 4 ==> Doubled(steps) == 10
  {
    assert Power(0) == 1;
    assert Power(1) == 2;
    assert Power(2) == 4;
  }

  method DoubleFrom(first: nat, failures: int) returns (wait: nat)
    ensures wait == Doubled(if failures > first then failures - first else 0)
    ensures wait <= 10
  {
    wait := 1;
    var step := first;
    while step < failures && wait < 10
      invariant first <= step && (step <= failures || step == first)
      invariant wait == Power(step - first) && step - first <= 4
    {
      wait := wait * 2;
      step := step + 1;
    }
    if step < failures {
      PowerGrows(failures - first);
    }
    if wait > 10 {
      wait := 10;
    }
  }

  /** huaweiChildBackoffCycles. */
  method ChildBackoffCycles(failures: int) returns (wait: nat)
    ensures wait == if failures < 2 then 0 else Doubled(failures - 2)
    ensures wait == if failures < 2 then 0 else if failures < 6 then [1, 2, 4, 8][failures - 2] else 10
  {
    DoubledIs();
    if failures < 2 {
      return 0;
    }
    wait := DoubleFrom(2, failures);
  }

  /** huaweiEndpointBackoffCycles. */
  method EndpointBackoffCycles(failures: int) returns (wait: nat)
    ensures wait == Doubled(if failures > 1 then failures - 1 else 0)
    ensures wait == if failures < 1 then 1 else if failures < 5 then [1, 2, 4, 8][failures - 1] else 10
  {
    DoubledIs();
    wait := DoubleFrom(1, failures);
  }

  /** huaweiChildSkipUntil: the child is read again at the returned cycle; the
      check against it is strict, so exactly the back-off is skipped in between. */
  method ChildSkipUntil(cycle: nat, failures: int) returns (until: nat)
    ensures failures < 2 ==> until == cycle
    ensures failures >= 2 ==> until - cycle - 1 == Doubled(failures - 2)
  {
    var wait := ChildBackoffCycles(failures);
    if wait == 0 {
      return cycle;
    }
    return cycle + wait + 1;
  }
}
