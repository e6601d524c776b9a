/** The login-queue client itself (robot/http_assign_gate.go:122-346): a loop driven by whatever the
    gateway answers. Every run keeps the rules of QueueTrace and ends for a stated reason. */
module QueueClient {
  import opened Ints
  import opened QueueTrace

  datatype Reason =
    | TransportError | RecoveryFailed | BudgetExceeded | RateLimited | ExpiredWithoutToken | UnexpectedCode(code: int)

  datatype Result = Admitted(reply: Reply) | Stopped(reason: Reason)

  /** What handling one reply leads to. */
  datatype Step = Continue(reply: Reply) | Stop(result: Result)

  // ------------------------------------------------------------------ waits

  /** What the doubling loop has reached after `i - 1` doublings. */
  lemma DoubledUnderCap(i: nat)
    requires i >= 1 && POLL_FLOOR * Pow2(i - 1) < BACKOFF_CAP
    ensures POLL_FLOOR * Pow2(i) == 2 * (POLL_FLOOR * Pow2(i - 1)) < 2 * BACKOFF_CAP
  {
  }

  lemma CappedStays(i: nat, failures: nat)
    requires 1 <= i <= failures && POLL_FLOOR * Pow2(i - 1) >= BACKOFF_CAP
    ensures Floor(failures) == BACKOFF_CAP
  {
    Pow2Monotone(i - 1, failures - 1);
    assert POLL_FLOOR * Pow2(failures - 1) >= POLL_FLOOR * Pow2(i - 1);
  }

  /** heldTokenWait on int64 nanoseconds: no step overflows, and the wait is in its prescribed range. */
  method HeldTokenWait(retryAfterMs: RetryMs, failures: nat, draw: int64) returns (wait: int64)
    ensures IsHeldWait(wait as int, retryAfterMs, failures)
    ensures wait as int >= retryAfterMs * 1_000_000 && wait >= 2_000_000_000
    ensures draw <= 0 ==> wait as int == Max(retryAfterMs * 1_000_000, Floor(failures))
    ensures wait as int == HeldWait(retryAfterMs, failures, draw as int)
  {
    var floor: int64 := 2_000_000_000;
    var cap: int64 := 30_000_000_000;
    var i := 1;
    while i < failures && floor < cap
      invariant 1 <= i && (failures >= 1 ==> i <= failures)
      invariant failures >= 1 ==> floor as int == POLL_FLOOR * Pow2(i - 1)
      invariant failures == 0 ==> i == 1 && floor as int == POLL_FLOOR
      invariant floor < 60_000_000_000
      decreases failures - i
    {
      DoubledUnderCap(i);
      floor := floor * 2;
      i := i + 1;
    }
    if failures >= 1 && floor >= cap { CappedStays(i, failures); }
    if floor > cap { floor := cap; }
    assert floor as int == Floor(failures);
    var base := retryAfterMs as int64 * 1_000_000;
    if base < floor { base := floor; }
    FloorBounds(failures);
    var limit := base * 20 / 100;
    var jitter := if draw < 0 then 0 else draw;
    if jitter > limit { jitter := limit; }
    wait := base + jitter;
  }

  // ------------------------------------------------------------------ statistics

  predicate Queued(e: Event) { Handed(e).Some? && Handed(e).value.code == 100 }

  function Entered(t: Trace): bool { if t == [] then false else Entered(Before(t)) || Queued(Last(t)) }

  /** The highest rank in any queued reply, -1 before the first. */
  function MaxRank(t: Trace): int {
    if t == [] then -1
    else if Queued(Last(t)) then Max(MaxRank(Before(t)), Handed(Last(t)).value.queueRank)
    else MaxRank(Before(t))
  }

  /** The highest rank is one that a queued reply carried, and none carried a higher one. */
  lemma {:induction false} RankIsHighest(t: Trace)
    ensures forall i :: 0 <= i < |t| && Queued(t[i]) ==> Handed(t[i]).value.queueRank <= MaxRank(t)
    ensures MaxRank(t) == -1 || exists i :: 0 <= i < |t| && Queued(t[i]) && Handed(t[i]).value.queueRank == MaxRank(t)
    ensures Entered(t) <==> exists i :: 0 <= i < |t| && Queued(t[i])
  {
    if t != [] {
      RankIsHighest(Before(t));
      assert forall i :: 0 <= i < |t| - 1 ==> Before(t)[i] == t[i];
      assert Queued(Last(t)) ==> Queued(t[|t| - 1]);
      var before := Before(t);
      if i :| 0 <= i < |before| && Queued(before[i]) && Handed(before[i]).value.queueRank == MaxRank(before) {
        assert Queued(t[i]) && Handed(t[i]).value.queueRank == MaxRank(Before(t));
      }
      if i :| 0 <= i < |Before(t)| && Queued(Before(t)[i]) { assert Queued(t[i]); }
      if i :| 0 <= i < |t| && Queued(t[i]) { assert i < |t| - 1 ==> Queued(Before(t)[i]); }
    }
  }

  /** How often a held token was taken by a 410. */
  function TokensLost(initial: string, t: Trace): nat {
    if t == [] then 0 else TokensLost(initial, Before(t)) + if JustLostToken(initial, t) then 1 else 0
  }

  // ------------------------------------------------------------------ the end of a run

  /** A poll failed and the recovery request after it failed too. */
  predicate RecoveryGaveUp(t: Trace) {
    && |t| >= 2 && Last(t).AssignCall? && Last(t).outcome.Failed?
    && StatusFailed(Last(Before(t)))
  }

  /** What a run ends with, by its last event; the budget ends it only where the next event would have to wait or
      must not start any more. */
  predicate EndsWith(initial: string, deadline: nat, t: Trace, result: Result) {
    t != [] && match result
    case Admitted(reply) => Handed(Last(t)) == Some(reply) && reply.code == 0
    case Stopped(BudgetExceeded) =>
      Last(t).finish >= deadline && (Last(t).Waited? || StatusFailed(Last(t)) || JustLostToken(initial, t))
    case Stopped(TransportError) => Last(t).AssignCall? && Last(t).outcome.Failed? && !RecoveryGaveUp(t)
    case Stopped(RecoveryFailed) => RecoveryGaveUp(t)
    case Stopped(RateLimited) =>
      Handed(Last(t)).Some? && Handed(Last(t)).value.code == 429 && TokenAfter(initial, t) == ""
    case Stopped(ExpiredWithoutToken) =>
      Handed(Last(t)).Some? && Handed(Last(t)).value.code == 410 && TokenAfter(initial, Before(t)) == ""
    case Stopped(UnexpectedCode(code)) =>
      Handed(Last(t)).Some? && Handed(Last(t)).value.code == code && code !in {0, 100, 410, 429}
  }

  /** A whole run in a world. */
  ghost predicate Finished(
      world: World, initial: string, begun: nat, deadline: nat, t: Trace, result: Result)
  {
    && Legal(initial, deadline, t) && Lived(world, initial, begun, deadline, t)
    && EndsWith(initial, deadline, t, result)
  }

  /** An admission ends the run as one whenever it comes, be it after the deadline. */
  lemma AdmissionIsTaken(initial: string, deadline: nat, t: Trace, result: Result)
    requires EndsWith(initial, deadline, t, result)
    requires !Last(t).Waited? && Last(t).outcome.Answered? && Last(t).outcome.reply.code == 0
    ensures result == Admitted(Last(t).outcome.reply)
  {
  }

  /** After an end nothing may follow. */
  lemma EndIsFinal(initial: string, deadline: nat, t: Trace, result: Result, e: Event)
    requires EndsWith(initial, deadline, t, result)
    requires Last(t).Waited? ==> (Last(t).completed ==> Last(t).finish < deadline)
    ensures !MayFollow(initial, deadline, t, e)
  {
  }

  /** The world alone decides a run: its requests, its waits and how it ends. */
  lemma RunIsDetermined(
      world: World, initial: string, begun: nat, deadline: nat, t: Trace, r: Result, u: Trace, s: Result)
    requires Finished(world, initial, begun, deadline, t, r) && Finished(world, initial, begun, deadline, u, s)
    ensures t == u && r == s
  {
    if |t| <= |u| {
      SameRun(world, initial, begun, deadline, t, r, u, s);
    } else {
      SameRun(world, initial, begun, deadline, u, s, t, r);
    }
  }

  lemma SameRun(
      world: World, initial: string, begun: nat, deadline: nat, t: Trace, r: Result, u: Trace, s: Result)
    requires Finished(world, initial, begun, deadline, t, r) && Finished(world, initial, begun, deadline, u, s)
    requires |t| <= |u|
    ensures t == u && r == s
  {
    RunsAgree(world, initial, begun, deadline, t, u);
    LegalBefore(initial, deadline, t);
    if |t| < |u| { EndIsFinal(initial, deadline, t, r, u[|t|]); }
  }

  // ------------------------------------------------------------------ the client

  class Client {
    const world: World
    const deadline: nat
    ghost const initial: string
    ghost const begun: nat

    var now: nat
    var calls: nat
    var token: string
    var statusFailures: nat
    var enteredQueue: bool
    var maxRankSeen: int
    var expiredTokens: nat
    ghost var trace: Trace

    constructor (world: World, start: nat, deadline: nat, token: string)
      ensures Valid() && this.world == world && this.deadline == deadline && initial == token && begun == start
      ensures now == start && this.token == token && trace == []
      ensures statusFailures == 0 && !enteredQueue && maxRankSeen == -1 && expiredTokens == 0
    {
      this.world, this.deadline, this.initial, this.begun := world, deadline, token, start;
      now, calls, this.token, statusFailures := start, 0, token, 0;
      enteredQueue, maxRankSeen, expiredTokens := false, -1, 0;
      trace := [];
    }

    /** The trace so far keeps the rules and went as the world has it. */
    ghost predicate Following()
      reads this
    {
      && Legal(initial, deadline, trace) && Lived(world, initial, begun, deadline, trace)
      && calls == |trace| && now == Clock(begun, trace)
    }

    /** And the counter counts. */
    ghost predicate Valid()
      reads this
    {
      Following() && statusFailures == TrailingFailures(trace)
    }

    ghost predicate Counted(t: Trace)
      reads this
    {
      enteredQueue == Entered(t) && maxRankSeen == MaxRank(t) && expiredTokens == TokensLost(initial, t)
    }

    function Left(): nat
      reads this
    {
      if now < deadline then deadline - now else 0
    }

    method AssignGate() returns (outcome: Outcome)
      requires Following() && (trace != [] ==> now < deadline)
      requires token == TokenAfter(initial, trace)
      requires trace == [] || StatusFailed(Last(trace)) || JustLostToken(initial, trace)
            || (JustWaited(trace) && token == "")
      modifies `now, `calls, `trace
      ensures Following() && now == old(now) + world.latency(old(calls)) && outcome == world.outcome(old(calls))
      ensures trace != [] && Before(trace) == old(trace) && Last(trace) == AssignCall(token, old(now), now, outcome)
      ensures TrailingFailures(trace) == TrailingFailures(old(trace))
    {
      outcome := world.outcome(calls);
      ghost var event := AssignCall(token, now, now + world.latency(calls), outcome);
      LivedExtend(world, initial, begun, deadline, trace, event);
      now := now + world.latency(calls);
      calls := calls + 1;
      trace := trace + [event];
    }

    method QueueStatus() returns (outcome: Outcome)
      requires Valid() && JustWaited(trace) && now < deadline
      requires token == TokenAfter(initial, trace) && token != ""
      modifies `now, `calls, `trace
      ensures Following() && now == old(now) + world.latency(old(calls)) && outcome == world.outcome(old(calls))
      ensures trace != [] && Before(trace) == old(trace) && Last(trace) == StatusCall(token, old(now), now, outcome)
    {
      outcome := world.outcome(calls);
      ghost var event := StatusCall(token, now, now + world.latency(calls), outcome);
      LivedExtend(world, initial, begun, deadline, trace, event);
      now := now + world.latency(calls);
      calls := calls + 1;
      trace := trace + [event];
    }

    /** sleepCtx: a timer that may fire late, and a second look at the budget once it has fired. */
    method Sleep(length: nat) returns (completed: bool)
      requires Valid() && LastReply(trace).Some? && MustWait(initial, trace) && WaitLengthOk(initial, trace, length)
      requires TokenAfter(initial, trace) != "" ==>
        length == HeldWait(LastReply(trace).value.retryAfterMs, statusFailures, world.jitter(calls) as int)
      modifies `now, `calls, `trace
      ensures Valid()
      ensures completed <==> old(now) + length + world.lateness(old(calls)) < deadline
      ensures completed ==> old(now) + length <= now < deadline && JustWaited(trace)
      ensures !completed ==> now >= deadline && now >= old(now)
      ensures TokenAfter(initial, trace) == TokenAfter(initial, old(trace))
      ensures trace != [] && Before(trace) == old(trace) && Last(trace).Waited?
    {
      var fires := now + length + world.lateness(calls);
      completed := fires < deadline;
      ghost var event := WaitIn(world, deadline, trace, now, length);
      WaitHappens(world, initial, begun, deadline, trace, length);
      LivedExtend(world, initial, begun, deadline, trace, event);
      WaitTouchesNothing(initial, trace, event);
      calls := calls + 1;
      now := if completed then fires else Max(now, deadline);
      trace := trace + [event];
    }

    /** The request that follows a failed poll at once, with the same token, unless the budget is used up. */
    method Recover() returns (step: Step)
      requires Valid() && trace != [] && StatusFailed(Last(trace))
      requires token == TokenAfter(initial, trace) && Counted(trace)
      modifies `now, `calls, `trace
      ensures Valid() && now >= old(now) && trace != []
      ensures step.Continue? ==> AtReply(step.reply)
      ensures step.Stop? ==> step.result.Stopped? && Ended(step.result)
    {
      if now >= deadline {
        return Stop(Stopped(BudgetExceeded));
      }
      var reentry := AssignGate();
      if reentry.Failed? {
        return Stop(Stopped(RecoveryFailed));
      }
      return Continue(reentry.reply);
    }

    /** pollQueueStatus together with the counter update around it. */
    method PollHeld() returns (step: Step)
      requires Valid() && JustWaited(trace) && now < deadline
      requires token == TokenAfter(initial, trace) && token != "" && Counted(trace)
      modifies `now, `calls, `trace, `statusFailures
      ensures Valid() && now >= old(now) && trace != []
      ensures step.Continue? ==> AtReply(step.reply)
      ensures step.Stop? ==> step.result.Stopped? && Ended(step.result)
    {
      var status := QueueStatus();
      if status.Answered? && status.reply.code != 500 {
        statusFailures := 0;
        return Continue(status.reply);
      }
      statusFailures := statusFailures + 1;
      step := Recover();
    }

    ghost predicate Ended(result: Result)
      reads this
    {
      EndsWith(initial, deadline, trace, result)
    }

    /** Where the loop stands when it looks at a reply: counters and token lag one reply behind. */
    ghost predicate AtReply(reply: Reply)
      reads this
    {
      && Valid() && trace != [] && Handed(Last(trace)) == Some(reply)
      && token == TokenAfter(initial, Before(trace)) && Counted(Before(trace))
    }

    /** The wait before a poll. */
    method WaitHeld(reply: Reply) returns (slept: bool)
      requires Valid() && trace != [] && Handed(Last(trace)) == Some(reply) && MustWait(initial, trace)
      requires token == TokenAfter(initial, trace) && token != "" && Counted(trace)
      modifies `now, `calls, `trace
      ensures Valid() && token == TokenAfter(initial, trace) && Counted(trace)
      ensures slept ==> old(now) < now < deadline && JustWaited(trace)
      ensures !slept ==> Ended(Stopped(BudgetExceeded))
    {
      var wait := HeldTokenWait(reply.retryAfterMs, statusFailures, world.jitter(calls));
      FloorBounds(statusFailures);
      slept := Sleep(wait as int);
    }

    /** The wait and the poll after a reply that keeps the client queued. */
    method WaitAndPoll(reply: Reply) returns (step: Step)
      requires Valid() && trace != [] && Handed(Last(trace)) == Some(reply) && MustWait(initial, trace)
      requires token == TokenAfter(initial, trace) && token != "" && Counted(trace)
      modifies `now, `calls, `trace, `statusFailures
      ensures Valid()
      ensures step.Continue? ==> AtReply(step.reply) && Left() < old(Left())
      ensures step.Stop? ==> step.result.Stopped? && Ended(step.result)
    {
      var slept := WaitHeld(reply);
      if !slept {
        return Stop(Stopped(BudgetExceeded));
      }
      step := PollHeld();
    }

    /** Asking assign-gate again, after a wait or after the token was lost. */
    method AskAgain() returns (step: Step)
      requires Valid() && trace != [] && now < deadline && token == TokenAfter(initial, trace) && Counted(trace)
      requires JustLostToken(initial, trace) || (JustWaited(trace) && token == "")
      modifies `now, `calls, `trace
      ensures Valid() && now >= old(now)
      ensures step.Continue? ==> AtReply(step.reply)
      ensures step.Stop? ==> step.result.Stopped? && Ended(step.result)
    {
      var again := AssignGate();
      return if again.Failed? then Stop(Stopped(TransportError)) else Continue(again.reply);
    }

    /** The wait without a token and the request after it. */
    method WaitAndAsk(reply: Reply) returns (step: Step)
      requires Valid() && trace != [] && Handed(Last(trace)) == Some(reply) && MustWait(initial, trace)
      requires token == TokenAfter(initial, trace) && token == "" && Counted(trace)
      modifies `now, `calls, `trace
      ensures Valid()
      ensures step.Continue? ==> AtReply(step.reply) && Left() < old(Left())
      ensures step.Stop? ==> step.result.Stopped? && Ended(step.result)
    {
      var slept := Sleep(PollInterval(reply.retryAfterMs));
      if !slept {
        return Stop(Stopped(BudgetExceeded));
      }
      step := AskAgain();
    }

    method OnQueued(reply: Reply) returns (step: Step)
      requires AtReply(reply) && reply.code == 100
      modifies this
      ensures Valid()
      ensures step.Continue? ==> AtReply(step.reply) && Left() < old(Left())
      ensures step.Stop? ==> step.result.Stopped? && Ended(step.result)
    {
      enteredQueue := true;
      if reply.queueRank > maxRankSeen { maxRankSeen := reply.queueRank; }
      if reply.queueSource == "login" && reply.queueToken != "" {
        token := reply.queueToken;
      }
      if token != "" {
        step := WaitAndPoll(reply);
      } else {
        step := WaitAndAsk(reply);
      }
    }

    method OnExpired(reply: Reply) returns (step: Step)
      requires AtReply(reply) && reply.code == 410
      modifies this
      ensures Valid()
      ensures step.Continue? ==> AtReply(step.reply) && Left() <= old(Left()) && old(token) != "" && token == ""
      ensures step.Stop? ==> step.result.Stopped? && Ended(step.result)
    {
      if token == "" {
        return Stop(Stopped(ExpiredWithoutToken));
      }
      expiredTokens := expiredTokens + 1;
      token := "";
      if now >= deadline {
        return Stop(Stopped(BudgetExceeded));
      }
      step := AskAgain();
    }

    /** AssignGateWithQueue. It ends whatever the gateway answers, by the rules that determine its run, and its
        counters say what the trace says. */
    method Run() returns (result: Result)
      requires Valid() && trace == [] && token == initial
      requires !enteredQueue && maxRankSeen == -1 && expiredTokens == 0
      modifies this
      ensures Valid() && Finished(world, initial, begun, deadline, trace, result)
      ensures result.Admitted? ==> Counted(trace)
    {
      var first := AssignGate();
      if first.Failed? {
        return Stopped(TransportError);
      }
      var reply := first.reply;
      while true
        invariant AtReply(reply)
        decreases Left(), token != ""
      {
        var step: Step;
        if reply.code == 0 {
          return Admitted(reply);
        } else if reply.code == 100 {
          step := OnQueued(reply);
        } else if reply.code == 429 {
          if token == "" {
            return Stopped(RateLimited);
          }
          step := WaitAndPoll(reply);
        } else if reply.code == 410 {
          step := OnExpired(reply);
        } else {
          return Stopped(UnexpectedCode(reply.code));
        }
        if step.Stop? {
          return step.result;
        }
        reply := step.reply;
      }
    }
  }
}
