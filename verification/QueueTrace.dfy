/** What the login-queue client may do, as rules over the trace of its requests and waits
    (the contract above AssignGateWithQueue, robot/http_assign_gate.go:173-197), and what every
    trace that keeps the rules satisfies. */
module QueueTrace {
  import opened Ints

  const SECOND: int := 1_000_000_000
  const MILLISECOND: int := 1_000_000
  const POLL_FLOOR: int := 2 * SECOND
  const BACKOFF_CAP: int := 30 * SECOND
  const JITTER_PERCENT: int := 20

  // Durations are int64 nanoseconds; within this range of milliseconds no duration computed here overflows.
  const RETRY_BOUND: int := 400_000_000_000

  type RetryMs = x: int | -RETRY_BOUND <= x <= RETRY_BOUND

  datatype Reply = Reply(code: int, retryAfterMs: RetryMs, queueSource: string, queueToken: string, queueRank: int)

  /** A call fails (network error, HTTP status, bad body) or is answered. */
  datatype Outcome = Failed | Answered(reply: Reply)

  datatype Event =
    | AssignCall(token: string, start: nat, finish: nat, outcome: Outcome)
    | StatusCall(token: string, start: nat, finish: nat, outcome: Outcome)
    | Waited(length: nat, start: nat, finish: nat, completed: bool)

  type Trace = seq<Event>

  /** The n-th event's outcome and latency, or its timer's lateness and its drawn jitter: all arbitrary. */
  datatype World = World(outcome: nat -> Outcome, latency: nat -> nat, lateness: nat -> nat, jitter: nat -> int64)

  // ------------------------------------------------------------------ reading a trace

  /** queue-status itself failed: no answer, or code 500. */
  predicate StatusFailed(e: Event) {
    e.StatusCall? && (e.outcome.Failed? || e.outcome.reply.code == 500)
  }

  /** The reply an event hands to the state machine, if any. */
  function Handed(e: Event): Option<Reply> {
    if e.Waited? || e.outcome.Failed? || StatusFailed(e) then None else Some(e.outcome.reply)
  }

  function LastReply(t: Trace): Option<Reply> {
    if t == [] then None
    else if Handed(t[|t| - 1]).Some? then Handed(t[|t| - 1])
    else LastReply(t[..|t| - 1])
  }

  /** A queued reply brings a token, a 410 takes it away, nothing else touches it. */
  function TokenAfter(initial: string, t: Trace): string {
    if t == [] then initial
    else
      var held, handed := TokenAfter(initial, t[..|t| - 1]), Handed(t[|t| - 1]);
      if handed.None? then held
      else if handed.value.code == 410 then ""
      else if handed.value.code == 100 && handed.value.queueSource == "login" && handed.value.queueToken != ""
      then handed.value.queueToken
      else held
  }

  /** How many queue-status polls in a row failed, up to now. */
  function TrailingFailures(t: Trace): nat {
    if t == [] then 0
    else
      var last, before := t[|t| - 1], t[..|t| - 1];
      if !last.StatusCall? then TrailingFailures(before)
      else if StatusFailed(last) then TrailingFailures(before) + 1
      else 0
  }

  /** The least wait between polls: 2s, after n failures 2s * 2^(n-1), at most 30s. */
  function Floor(failures: nat): int {
    if failures == 0 then POLL_FLOOR else Min(POLL_FLOOR * Pow2(failures - 1), BACKOFF_CAP)
  }

  function HeldBase(retryAfterMs: RetryMs, failures: nat): int {
    Max(retryAfterMs * MILLISECOND, Floor(failures))
  }

  predicate IsHeldWait(length: int, retryAfterMs: RetryMs, failures: nat) {
    var base := HeldBase(retryAfterMs, failures);
    base <= length <= base + base * JITTER_PERCENT / 100
  }

  /** The wait for a drawn jitter, which is held between 0 and a fifth of the base. */
  function HeldWait(retryAfterMs: RetryMs, failures: nat, draw: int): int {
    var base := HeldBase(retryAfterMs, failures);
    base + Max(0, Min(draw, base * JITTER_PERCENT / 100))
  }

  function PollInterval(retryAfterMs: RetryMs): int {
    if retryAfterMs * MILLISECOND <= 0 then 2 * SECOND else retryAfterMs * MILLISECOND
  }

  // ------------------------------------------------------------------ the rules

  function Last(t: Trace): Event
    requires t != []
  {
    t[|t| - 1]
  }

  function Before(t: Trace): Trace
    requires t != []
  {
    t[..|t| - 1]
  }

  predicate JustWaited(t: Trace) {
    t != [] && Last(t).Waited? && Last(t).completed
  }

  /** The last event was answered 410 while a token was held. */
  predicate JustLostToken(initial: string, t: Trace) {
    t != [] && Handed(Last(t)).Some? && Handed(Last(t)).value.code == 410 && TokenAfter(initial, Before(t)) != ""
  }

  /** The last event was answered in a way that makes the client wait. */
  predicate MustWait(initial: string, t: Trace) {
    && t != [] && Handed(Last(t)).Some?
    && (Handed(Last(t)).value.code == 100 || (Handed(Last(t)).value.code == 429 && TokenAfter(initial, t) != ""))
  }

  predicate WaitLengthOk(initial: string, t: Trace, length: nat)
    requires LastReply(t).Some?
  {
    var retry := LastReply(t).value.retryAfterMs;
    if TokenAfter(initial, t) != "" then IsHeldWait(length, retry, TrailingFailures(t))
    else length == PollInterval(retry)
  }

  /** Whether an event may follow a trace. */
  predicate MayFollow(initial: string, deadline: nat, t: Trace, e: Event) {
    && e.start <= e.finish
    && (t != [] ==> Last(t).finish <= e.start)
    && match e
       case StatusCall(token, start, _, _) =>
         // with a token, after a wait, inside the budget
         token != "" && token == TokenAfter(initial, t) && JustWaited(t) && start < deadline
       case AssignCall(token, start, _, _) =>
         && token == TokenAfter(initial, t)
         && (t != [] ==> start < deadline)
         && (|| t == []
             || StatusFailed(Last(t))                 // recovery, with the same token
             || JustLostToken(initial, t)             // start over without a token
             || (JustWaited(t) && token == ""))       // rate-limited without a token
       case Waited(length, start, finish, completed) =>
         && LastReply(t).Some? && MustWait(initial, t) && WaitLengthOk(initial, t, length)
         && (completed ==> start + length <= finish < deadline)
  }

  ghost predicate Legal(initial: string, deadline: nat, t: Trace) {
    forall i :: 0 <= i < |t| ==> MayFollow(initial, deadline, t[..i], t[i])
  }

  lemma LegalBefore(initial: string, deadline: nat, t: Trace)
    requires Legal(initial, deadline, t) && t != []
    ensures Legal(initial, deadline, Before(t)) && MayFollow(initial, deadline, Before(t), Last(t))
  {
    forall i | 0 <= i < |Before(t)| ensures MayFollow(initial, deadline, Before(t)[..i], Before(t)[i]) {
      assert Before(t)[..i] == t[..i];
      assert MayFollow(initial, deadline, t[..i], t[i]);
    }
    assert MayFollow(initial, deadline, t[..|t| - 1], t[|t| - 1]);
  }

  lemma LegalExtend(initial: string, deadline: nat, t: Trace, e: Event)
    requires Legal(initial, deadline, t) && MayFollow(initial, deadline, t, e)
    ensures Legal(initial, deadline, t + [e])
    ensures Before(t + [e]) == t && Last(t + [e]) == e
  {
    assert (t + [e])[..|t|] == t;
    forall i | 0 <= i < |t + [e]| ensures MayFollow(initial, deadline, (t + [e])[..i], (t + [e])[i]) {
      if i < |t| {
        assert (t + [e])[..i] == t[..i];
        assert MayFollow(initial, deadline, t[..i], t[i]);
      }
    }
  }

  // ------------------------------------------------------------------ what the world decides

  function Clock(begun: nat, t: Trace): nat { if t == [] then begun else Last(t).finish }

  /** An event begins at once, and lasts and comes out as the world has it; a timer that fires at the deadline or
      later ends with the budget. */
  predicate Happens(world: World, initial: string, begun: nat, deadline: nat, t: Trace, e: Event) {
    && e.start == Clock(begun, t)
    && match e
       case Waited(length, start, finish, completed) =>
         var fires := start + length + world.lateness(|t|);
         && completed == (fires < deadline)
         && finish == (if completed then fires else Max(start, deadline))
         && (TokenAfter(initial, t) != "" && LastReply(t).Some? ==>
               length == HeldWait(LastReply(t).value.retryAfterMs, TrailingFailures(t), world.jitter(|t|) as int))
       case _ => e.outcome == world.outcome(|t|) && e.finish == e.start + world.latency(|t|)
  }

  /** A run so far in a world: each event is one that may follow and goes as the world has it. */
  ghost predicate Lived(world: World, initial: string, begun: nat, deadline: nat, t: Trace) {
    t != [] ==>
      && Lived(world, initial, begun, deadline, Before(t))
      && MayFollow(initial, deadline, Before(t), Last(t))
      && Happens(world, initial, begun, deadline, Before(t), Last(t))
  }

  lemma LivedExtend(world: World, initial: string, begun: nat, deadline: nat, t: Trace, e: Event)
    requires Legal(initial, deadline, t) && MayFollow(initial, deadline, t, e)
    requires Lived(world, initial, begun, deadline, t) && Happens(world, initial, begun, deadline, t, e)
    ensures Legal(initial, deadline, t + [e]) && Lived(world, initial, begun, deadline, t + [e])
    ensures Before(t + [e]) == t && Last(t + [e]) == e && Clock(begun, t + [e]) == e.finish
  {
    LegalExtend(initial, deadline, t, e);
  }

  lemma WaitTouchesNothing(initial: string, t: Trace, e: Event)
    requires e.Waited?
    ensures TokenAfter(initial, t + [e]) == TokenAfter(initial, t) && TrailingFailures(t + [e]) == TrailingFailures(t)
  {
    assert (t + [e])[..|t|] == t;
  }

  /** The wait the world makes of a length: whether it completes and when it ends. */
  function WaitIn(world: World, deadline: nat, t: Trace, now: nat, length: nat): Event {
    var fires := now + length + world.lateness(|t|);
    Waited(length, now, if fires < deadline then fires else Max(now, deadline), fires < deadline)
  }

  lemma WaitHappens(world: World, initial: string, begun: nat, deadline: nat, t: Trace, length: nat)
    requires LastReply(t).Some? && MustWait(initial, t) && WaitLengthOk(initial, t, length)
    requires TokenAfter(initial, t) != "" ==>
      length == HeldWait(LastReply(t).value.retryAfterMs, TrailingFailures(t), world.jitter(|t|) as int)
    ensures
      var e := WaitIn(world, deadline, t, Clock(begun, t), length);
      MayFollow(initial, deadline, t, e) && Happens(world, initial, begun, deadline, t, e)
  {
  }

  /** The rules leave the client no choice: the world decides which event is next. */
  lemma NextIsDetermined(world: World, initial: string, begun: nat, deadline: nat, t: Trace, d: Event, e: Event)
    requires MayFollow(initial, deadline, t, d) && Happens(world, initial, begun, deadline, t, d)
    requires MayFollow(initial, deadline, t, e) && Happens(world, initial, begun, deadline, t, e)
    ensures d == e
  {
  }

  lemma SameBefore(world: World, initial: string, begun: nat, deadline: nat, t: Trace, u: Trace)
    requires t != [] && u != [] && Before(t) == Before(u)
    requires Lived(world, initial, begun, deadline, t) && Lived(world, initial, begun, deadline, u)
    ensures t == u
  {
    NextIsDetermined(world, initial, begun, deadline, Before(t), Last(t), Last(u));
    assert t == Before(t) + [Last(t)] && u == Before(u) + [Last(u)];
  }

  /** Of two runs in one world the shorter is the beginning of the longer. */
  lemma {:induction false} RunsAgree(world: World, initial: string, begun: nat, deadline: nat, t: Trace, u: Trace)
    requires Lived(world, initial, begun, deadline, t) && Lived(world, initial, begun, deadline, u) && |t| <= |u|
    ensures t == u[..|t|]
  {
    if |t| < |u| {
      RunsAgree(world, initial, begun, deadline, t, Before(u));
      assert Before(u)[..|t|] == u[..|t|];
    } else if t != [] {
      RunsAgree(world, initial, begun, deadline, Before(t), Before(u));
      assert Before(u)[..|t| - 1] == Before(u);
      SameBefore(world, initial, begun, deadline, t, u);
    }
  }

  // ------------------------------------------------------------------ counting requests

  function Requests(t: Trace): nat {
    if t == [] then 0 else Requests(t[..|t| - 1]) + if t[|t| - 1].Waited? then 0 else 1
  }

  function CompletedWaits(t: Trace): nat {
    if t == [] then 0
    else CompletedWaits(t[..|t| - 1]) + if t[|t| - 1].Waited? && t[|t| - 1].completed then 1 else 0
  }

  function Polls(t: Trace): nat {
    if t == [] then 0 else Polls(t[..|t| - 1]) + if t[|t| - 1].StatusCall? then 1 else 0
  }

  /** How many more requests the rules allow before the next wait. */
  function Allowance(initial: string, t: Trace): nat {
    if t == [] then if initial == "" then 1 else 2
    else if JustWaited(t) then 3
    else if StatusFailed(Last(t)) then 2
    else if JustLostToken(initial, t) then 1
    else 0
  }

  lemma {:induction false} RequestsPlusAllowance(initial: string, deadline: nat, t: Trace)
    requires Legal(initial, deadline, t)
    ensures Requests(t) + Allowance(initial, t) <= 3 * CompletedWaits(t) + if initial == "" then 1 else 2
  {
    if t != [] {
      LegalBefore(initial, deadline, t);
      RequestsPlusAllowance(initial, deadline, Before(t));
      if JustLostToken(initial, Before(t)) {
        assert TokenAfter(initial, Before(t)) == "";
      }
    }
  }

  /** Started without a token, a client sends at most one request plus three per completed wait. */
  lemma RequestBound(initial: string, deadline: nat, t: Trace)
    requires Legal(initial, deadline, t)
    ensures Requests(t) <= 3 * CompletedWaits(t) + if initial == "" then 1 else 2
  {
    RequestsPlusAllowance(initial, deadline, t);
  }

  // ------------------------------------------------------------------ pace

  lemma FloorBounds(failures: nat)
    ensures POLL_FLOOR <= Floor(failures) <= BACKOFF_CAP
  {
    if failures > 0 {
      Pow2Positive(failures - 1);
      assert POLL_FLOOR * Pow2(failures - 1) >= POLL_FLOOR;
    }
  }

  lemma {:induction false} Pow2Monotone(m: nat, n: nat)
    requires m <= n
    ensures Pow2(m) <= Pow2(n)
  {
    if m < n { Pow2Monotone(m, n - 1); }
  }

  /** More failures in a row never shorten the wait. */
  lemma FloorMonotone(m: nat, n: nat)
    requires m <= n
    ensures Floor(m) <= Floor(n)
  {
    FloorBounds(n);
    if m > 0 {
      Pow2Monotone(m - 1, n - 1);
      assert POLL_FLOOR * Pow2(m - 1) <= POLL_FLOOR * Pow2(n - 1);
    }
  }

  function Elapsed(t: Trace): int { if t == [] then 0 else Last(t).finish - t[0].start }

  /** Every poll is paid for by at least two seconds, so a budget allows few of them. */
  lemma {:induction false} PollPace(initial: string, deadline: nat, t: Trace)
    requires Legal(initial, deadline, t)
    ensures Polls(t) * POLL_FLOOR <= Elapsed(t)
    ensures JustWaited(t) ==> (Polls(t) + 1) * POLL_FLOOR <= Elapsed(t) || TokenAfter(initial, t) == ""
  {
    if t != [] {
      LegalBefore(initial, deadline, t);
      PollPace(initial, deadline, Before(t));
      var e := Last(t);
      if e.Waited? && TokenAfter(initial, Before(t)) != "" {
        FloorBounds(TrailingFailures(Before(t)));
      }
      if |t| > 1 { assert Before(t)[0] == t[0]; }
    }
  }

  lemma PollsAdd(t: Trace)
    requires t != []
    ensures Polls(t) == Polls(Before(t)) + if Last(t).StatusCall? then 1 else 0
  {
  }

  lemma PollFollowsWait(initial: string, deadline: nat, t: Trace)
    requires Legal(initial, deadline, t) && t != [] && Last(t).StatusCall?
    ensures Legal(initial, deadline, Before(t)) && JustWaited(Before(t)) && TokenAfter(initial, Before(t)) != ""
    ensures Last(Before(t)).finish <= Last(t).start < deadline
  {
    LegalBefore(initial, deadline, t);
  }

  lemma LastPollInBudget(deadline: nat, t: Trace)
    requires t != [] && Before(t) != [] && Last(t).StatusCall?
    requires (Polls(Before(t)) + 1) * POLL_FLOOR <= Elapsed(Before(t))
    requires Last(Before(t)).finish <= Last(t).start < deadline
    ensures Polls(t) * POLL_FLOOR < deadline - t[0].start
  {
    PollsAdd(t);
    assert Before(t)[0] == t[0];
  }

  /** A budget allows fewer polls than its length divided by two seconds. */
  lemma {:induction false} PollBudget(initial: string, deadline: nat, t: Trace)
    requires Legal(initial, deadline, t) && Polls(t) > 0
    ensures Polls(t) * POLL_FLOOR < deadline - t[0].start
  {
    if Last(t).StatusCall? {
      PollFollowsWait(initial, deadline, t);
      PollPace(initial, deadline, Before(t));
      LastPollInBudget(deadline, t);
    } else {
      LegalBefore(initial, deadline, t);
      PollsAdd(t);
      PollBudget(initial, deadline, Before(t));
      assert Before(t)[0] == t[0];
    }
  }

  /** A request other than the first never starts after the budget is used up, and a poll always carries a token
      and directly follows a wait of the prescribed length. */
  lemma RequestsKeepContract(initial: string, deadline: nat, t: Trace, i: nat)
    requires Legal(initial, deadline, t) && 0 < i < |t| && !t[i].Waited?
    ensures t[i].start < deadline
    ensures t[i].StatusCall? ==>
      && t[i].token != "" && t[i].token == TokenAfter(initial, t[..i])
      && i >= 2 && t[i - 1].Waited? && t[i - 1].completed
      && LastReply(t[..i - 1]).Some?
      && IsHeldWait(t[i - 1].length, LastReply(t[..i - 1]).value.retryAfterMs, TrailingFailures(t[..i - 1]))
  {
    assert MayFollow(initial, deadline, t[..i], t[i]);
    if t[i].StatusCall? {
      assert t[..i][..i - 1] == t[..i - 1];
      assert MayFollow(initial, deadline, t[..i - 1], t[i - 1]);
    }
  }

  /** In figures: before every poll the client waited, at least as long as the reply before the wait asked for and at
      least 2 s, and at most 1.2 times the larger of what was asked for and 30 s. */
  lemma PollWaitInFigures(initial: string, deadline: nat, t: Trace, i: nat)
    requires Legal(initial, deadline, t) && i < |t| && t[i].StatusCall?
    ensures i >= 2 && t[i - 1].Waited? && !t[i - 2].Waited? && t[i - 2].outcome.Answered?
    ensures
      var asked, waited := t[i - 2].outcome.reply.retryAfterMs * 1_000_000, t[i - 1].length;
      && t[i - 1].finish - t[i - 1].start >= waited
      && waited >= asked && waited >= 2_000_000_000
      && 5 * waited <= 6 * Max(asked, 30_000_000_000)
  {
    assert MayFollow(initial, deadline, t[..i], t[i]);
    assert MayFollow(initial, deadline, t[..i - 1], t[i - 1]);
    assert t[..i][..i - 1] == t[..i - 1];
    FloorBounds(TrailingFailures(t[..i - 1]));
  }

  /** A wait without a token is exactly what the reply before it asked for, or 2 s when it asked for none. */
  lemma TokenlessWaitInFigures(initial: string, deadline: nat, t: Trace, i: nat)
    requires Legal(initial, deadline, t) && i < |t| && t[i].Waited? && TokenAfter(initial, t[..i]) == ""
    ensures i >= 1 && !t[i - 1].Waited? && t[i - 1].outcome.Answered?
    ensures
      var asked := t[i - 1].outcome.reply.retryAfterMs;
      t[i].length == if asked > 0 then asked * 1_000_000 else 2_000_000_000
  {
    assert MayFollow(initial, deadline, t[..i], t[i]);
    assert t[..i][i - 1] == t[i - 1];
  }

  /** The least wait after no failed poll or one, and after two, three, four and more in a row. */
  lemma FloorInFigures(failures: nat)
    ensures Floor(failures) ==
      if failures <= 1 then 2_000_000_000
      else if failures == 2 then 4_000_000_000
      else if failures == 3 then 8_000_000_000
      else if failures == 4 then 16_000_000_000
      else 30_000_000_000
  {
    if failures >= 5 {
      Pow2Monotone(4, failures - 1);
      assert Pow2(4) == 2 * Pow2(3) == 4 * Pow2(2) == 8 * Pow2(1) == 16;
    } else {
      assert Pow2(3) == 2 * Pow2(2) == 4 * Pow2(1) == 8;
    }
  }

  /** The polls of a trace, in order. */
  function PollsOf(t: Trace): Trace {
    if t == [] then [] else PollsOf(Before(t)) + if Last(t).StatusCall? then [Last(t)] else []
  }

  /** The counter is the number of polls at the end of all polls that were not answered or answered by 500. */
  lemma {:induction false} FailuresAreTrailing(t: Trace)
    ensures
      var polls, n := PollsOf(t), TrailingFailures(t);
      && n <= |polls|
      && (forall k :: |polls| - n <= k < |polls| ==>
            polls[k].StatusCall? && (polls[k].outcome.Failed? || polls[k].outcome.reply.code == 500))
      && (n < |polls| ==>
            && polls[|polls| - n - 1].StatusCall? && polls[|polls| - n - 1].outcome.Answered?
            && polls[|polls| - n - 1].outcome.reply.code != 500)
  {
    if t != [] { FailuresAreTrailing(Before(t)); }
  }

  /** A request to assign-gate directly behind a poll is the recovery of a failed poll, with its token, or the new
      start after a 410, without one. */
  lemma RecoveryOnlyAfterFailure(initial: string, deadline: nat, t: Trace, i: nat)
    requires Legal(initial, deadline, t) && 0 < i < |t| && t[i - 1].StatusCall? && t[i].AssignCall?
    ensures
      if t[i - 1].outcome.Failed? || t[i - 1].outcome.reply.code == 500 then t[i].token == t[i - 1].token
      else t[i - 1].outcome.reply.code == 410 && t[i].token == ""
  {
    assert MayFollow(initial, deadline, t[..i], t[i]) && MayFollow(initial, deadline, t[..i - 1], t[i - 1]);
    assert t[..i][..i - 1] == t[..i - 1] && t[..i][i - 1] == t[i - 1];
  }

  lemma {:induction false} WaitsKeepToken(initial: string, t: Trace, i: nat, j: nat)
    requires i <= j <= |t| && forall m :: i <= m < j ==> t[m].Waited?
    ensures TokenAfter(initial, t[..j]) == TokenAfter(initial, t[..i])
  {
    if i < j {
      WaitsKeepToken(initial, t, i, j - 1);
      assert t[..j][..j - 1] == t[..j - 1] && t[..j][j - 1] == t[j - 1];
    }
  }

  /** From one request to the next, whatever waits lie between them, a held token is dropped if and only if the
      reply in between was a 410; it changes only to the token of a queued login reply. */
  lemma TokenToNextRequest(initial: string, deadline: nat, t: Trace, i: nat, j: nat)
    requires Legal(initial, deadline, t) && i < j < |t|
    requires !t[i].Waited? && !t[j].Waited? && forall m :: i < m < j ==> t[m].Waited?
    ensures t[i].token != "" ==> (t[j].token == "" <==> Handed(t[i]).Some? && Handed(t[i]).value.code == 410)
    ensures t[j].token !in {t[i].token, ""} ==>
      && Handed(t[i]).Some? && Handed(t[i]).value.code == 100
      && Handed(t[i]).value.queueSource == "login" && t[j].token == Handed(t[i]).value.queueToken
  {
    assert MayFollow(initial, deadline, t[..i], t[i]) && MayFollow(initial, deadline, t[..j], t[j]);
    WaitsKeepToken(initial, t, i + 1, j);
    assert t[..i + 1][..i] == t[..i] && t[..i + 1][i] == t[i];
  }
}
