/** The retry loop of one robot (robot/main.go:358-420) and the token it carries across attempts. */
module Robot {
  import opened Ints

  const MAX_RETRIES: int := 5
  const MAX_TOKEN_EXPIRED: int := 20
  const FIRST_BACKOFF: int := 3000
  const MAX_BACKOFF: int := 30_000
  const EXPIRED_BACKOFF: int := 200

  datatype Snapshot = Snapshot(access: string, expire: int)

  /** What one connect, login and play cycle meets, with the access token the connection holds after the login
      and at the end. */
  datatype Session =
    | Unreachable | GateTokenExpired | LoginFailed
    | SceneTimeout(entered: Snapshot)
    | Played(entered: Snapshot, left: Snapshot)

  predicate Failed(s: Session) { s.Unreachable? || s.LoginFailed? || s.SceneTimeout? }

  /** The n-th cycle, and whether the stop signal is there before it or comes during the wait before it. */
  datatype World = World(session: nat -> Session, stopBefore: nat -> bool, stopInWait: nat -> bool)

  datatype Cycle = Cycle(waited: Option<int>, token: Snapshot, session: Session)

  type History = seq<Cycle>

  datatype End = PlayedOrStopped | GaveUpOnRetries | GaveUpOnExpiry

  // ------------------------------------------------------------------ what a history says

  function Before(h: History): History
    requires h != []
  {
    h[..|h| - 1]
  }

  function Last(h: History): Cycle
    requires h != []
  {
    h[|h| - 1]
  }

  function Failures(h: History): nat {
    if h == [] then 0 else Failures(Before(h)) + if Failed(Last(h).session) then 1 else 0
  }

  function Expiries(h: History): nat {
    if h == [] then 0 else Expiries(Before(h)) + if Last(h).session.GateTokenExpired? then 1 else 0
  }

  /** The waits taken since the last expiry, or since the start. */
  function WaitsSince(h: History): nat {
    if h == [] || Last(h).session.GateTokenExpired? then 0
    else WaitsSince(Before(h)) + if Last(h).waited.Some? then 1 else 0
  }

  /** The next wait, if there is one: doubling from 3 s, or from 200 ms after any expiry. */
  function Backoff(h: History): int {
    if Expiries(h) == 0 then FIRST_BACKOFF * Pow2(WaitsSince(h)) else EXPIRED_BACKOFF * Pow2(WaitsSince(h))
  }

  function Newer(s: Snapshot, held: Snapshot): Snapshot { if s.access != "" then s else held }

  /** The token handed out by a cycle that was given `held`. */
  function TokenOut(held: Snapshot, s: Session): Snapshot {
    match s
    case SceneTimeout(entered) => Newer(entered, held)
    case Played(entered, left) => Newer(left, Newer(entered, held))
    case _ => held
  }

  function TokenAfter(h: History): Snapshot {
    if h == [] then Snapshot("", 0) else TokenOut(Last(h).token, Last(h).session)
  }

  /** The loop goes on. */
  predicate Open(h: History) {
    Failures(h) < MAX_RETRIES && Expiries(h) <= MAX_TOKEN_EXPIRED && !(h != [] && Last(h).session.Played?)
  }

  /** The rule of every cycle: the loop had not ended, the cycle waits exactly when some earlier one failed - 3 s
      doubling from the start and 200 ms doubling from the last expiry - and it gets the token handed on to it. */
  predicate MayFollow(h: History, c: Cycle) {
    && Open(h)
    && c.waited == (if Failures(h) == 0 then None else Some(Backoff(h)))
    && c.token == TokenAfter(h)
  }

  predicate Legal(h: History) {
    h == [] || (Legal(Before(h)) && MayFollow(Before(h), Last(h)))
  }

  lemma LegalExtend(h: History, c: Cycle)
    requires Legal(h) && MayFollow(h, c)
    ensures Legal(h + [c]) && Last(h + [c]) == c && TokenAfter(h + [c]) == TokenOut(c.token, c.session)
    ensures Failures(h + [c]) == Failures(h) + if Failed(c.session) then 1 else 0
    ensures Expiries(h + [c]) == Expiries(h) + if c.session.GateTokenExpired? then 1 else 0
    ensures Backoff(h + [c]) ==
      if c.session.GateTokenExpired? then EXPIRED_BACKOFF
      else if c.waited.Some? then 2 * Backoff(h)
      else Backoff(h)
  {
    assert (h + [c])[..|h|] == h;
  }

  lemma {:induction false} LegalAt(h: History, k: nat)
    requires Legal(h) && k < |h|
    ensures Legal(h[..k]) && MayFollow(h[..k], h[k])
  {
    if k < |h| - 1 {
      LegalAt(Before(h), k);
      assert Before(h)[..k] == h[..k];
    } else {
      assert Before(h) == h[..k];
    }
  }

  lemma {:induction false} CyclesAreCounted(h: History)
    requires Legal(h)
    ensures |h| == Failures(h) + Expiries(h) + if h != [] && Last(h).session.Played? then 1 else 0
  {
    if h != [] {
      CyclesAreCounted(Before(h));
    }
  }

  /** An expiry takes its attempt back, and still no run has more than 25 cycles. */
  lemma AtMost25Cycles(h: History)
    requires Legal(h)
    ensures |h| <= 25
  {
    if h != [] {
      CyclesAreCounted(h);
      CyclesAreCounted(Before(h));
    }
  }

  lemma {:induction false} WaitsBehindFailures(h: History)
    requires Legal(h) && Open(h)
    ensures if Failures(h) > 0 then WaitsSince(h) < Failures(h) else WaitsSince(h) == 0
  {
    if h != [] && !Last(h).session.GateTokenExpired? {
      WaitsBehindFailures(Before(h));
    }
  }

  lemma BackoffIsUncapped(h: History)
    requires Legal(h) && Open(h)
    ensures Backoff(h) <= 24_000
  {
    WaitsBehindFailures(h);
    var n := WaitsSince(h);
    assert n <= 3;
    assert Pow2(n) == (if n == 0 then 1 else if n == 1 then 2 else if n == 2 then 4 else 8);
  }

  /** So every wait is at least 200 ms and at most 24 s: the cap of 30 s is never what bounds it. */
  lemma WaitsInRange(h: History, k: nat)
    requires Legal(h) && k < |h| && h[k].waited.Some?
    ensures 200 <= h[k].waited.value <= 24_000
  {
    LegalAt(h, k);
    BackoffIsUncapped(h[..k]);
    Pow2Positive(WaitsSince(h[..k]));
  }

  /** After an expired gate token the next cycle backs off by 200 ms if and only if some cycle had failed
      otherwise by then: before the first such failure it follows at once. */
  lemma ExpiryBackoff(h: History, k: nat)
    requires Legal(h) && 0 < k < |h| && h[k - 1].session.GateTokenExpired?
    ensures h[k].waited == if exists i :: 0 <= i < k && Failed(h[i].session) then Some(200) else None
  {
    LegalAt(h, k);
    assert Last(h[..k]) == h[k - 1];
    AnyFailure(h[..k]);
    assert forall i :: 0 <= i < k ==> h[..k][i] == h[i];
    if Failures(h[..k]) > 0 {
      var i :| 0 <= i < k && Failed(h[..k][i].session);
      assert Failed(h[i].session);
    }
  }

  lemma NextBackoff(h: History, c: Cycle, next: Cycle)
    requires Legal(h) && MayFollow(h, c) && !c.session.GateTokenExpired? && MayFollow(h + [c], next)
    ensures next.waited ==
      match c.waited
      case Some(ms) => Some(2 * ms)
      case None => Some(if Expiries(h) > 0 then 200 else 3000)
  {
    LegalExtend(h, c);
    if c.waited.None? { NoWaitsYet(h); }
  }

  lemma ExpiredBefore(h: History, k: nat)
    requires k < |h| && !h[k].session.GateTokenExpired?
    ensures Expiries(h[..k]) > 0 <==> exists i :: 0 <= i <= k && h[i].session.GateTokenExpired?
  {
    AnyExpiry(h[..k]);
    assert forall i :: 0 <= i < k ==> h[..k][i] == h[i];
  }

  /** Behind a cycle that failed otherwise the loop always waits: twice the wait before that cycle if it had one, and
      else 200 ms if any token had expired by then and 3 s if none had. */
  lemma FailureBackoff(h: History, k: nat)
    requires Legal(h) && k + 1 < |h| && !h[k].session.GateTokenExpired?
    ensures h[k + 1].waited ==
      match h[k].waited
      case Some(ms) => Some(2 * ms)
      case None => Some(if exists i :: 0 <= i <= k && h[i].session.GateTokenExpired? then 200 else 3000)
  {
    LegalAt(h, k);
    LegalAt(h, k + 1);
    assert h[..k + 1] == h[..k] + [h[k]];
    NextBackoff(h[..k], h[k], h[k + 1]);
    ExpiredBefore(h, k);
  }

  lemma {:induction false} NoWaitsYet(h: History)
    requires Legal(h) && Failures(h) == 0
    ensures WaitsSince(h) == 0
  {
    if h != [] { NoWaitsYet(Before(h)); }
  }

  lemma {:induction false} AnyExpiry(h: History)
    ensures Expiries(h) > 0 <==> exists i :: 0 <= i < |h| && h[i].session.GateTokenExpired?
  {
    if h != [] {
      AnyExpiry(Before(h));
      if Expiries(Before(h)) > 0 {
        var i :| 0 <= i < |Before(h)| && Before(h)[i].session.GateTokenExpired?;
        assert h[i].session.GateTokenExpired?;
      }
      if Last(h).session.GateTokenExpired? { assert h[|h| - 1].session.GateTokenExpired?; }
    }
  }

  /** The shortest such run: two expired gate tokens in a row and no pause between the cycles. */
  lemma ExpiryWithoutPause()
    ensures
      var c := Cycle(None, Snapshot("", 0), GateTokenExpired);
      Legal([c, c]) && [c, c][1].waited == None
  {
    var c := Cycle(None, Snapshot("", 0), GateTokenExpired);
    LegalExtend([], c);
    LegalExtend([c], c);
    assert [] + [c] == [c] && [c] + [c] == [c, c];
  }

  lemma {:induction false} AnyFailure(h: History)
    ensures Failures(h) > 0 <==> exists i :: 0 <= i < |h| && Failed(h[i].session)
  {
    if h != [] {
      AnyFailure(Before(h));
      if Failures(Before(h)) > 0 {
        var i :| 0 <= i < |Before(h)| && Failed(Before(h)[i].session);
        assert Failed(h[i].session);
      }
      if Failed(Last(h).session) { assert Failed(h[|h| - 1].session); }
    }
  }

  // ------------------------------------------------------------------ the token carried along

  /** The snapshots a cycle takes, in their order. */
  function Snapshots(s: Session): seq<Snapshot> {
    match s
    case SceneTimeout(entered) => [entered]
    case Played(entered, left) => [entered, left]
    case _ => []
  }

  function AllSnapshots(h: History): seq<Snapshot> {
    if h == [] then [] else AllSnapshots(Before(h)) + Snapshots(Last(h).session)
  }

  /** The last snapshot that holds a token. */
  function LastHeld(s: seq<Snapshot>): Snapshot {
    if s == [] then Snapshot("", 0)
    else if s[|s| - 1].access != "" then s[|s| - 1]
    else LastHeld(s[..|s| - 1])
  }

  lemma LastHeldExtend(s: seq<Snapshot>, x: Snapshot)
    ensures LastHeld(s + [x]) == Newer(x, LastHeld(s))
  {
    assert (s + [x])[..|s|] == s;
  }

  /** Every cycle is given the newest token any earlier cycle obtained: no failure in between loses it. */
  lemma {:induction false} TokenIsNewest(h: History)
    requires Legal(h)
    ensures TokenAfter(h) == LastHeld(AllSnapshots(h))
  {
    if h != [] {
      TokenIsNewest(Before(h));
      var earlier := AllSnapshots(Before(h));
      match Last(h).session
      case SceneTimeout(entered) =>
        LastHeldExtend(earlier, entered);
      case Played(entered, left) =>
        LastHeldExtend(earlier, entered);
        LastHeldExtend(earlier + [entered], left);
        assert earlier + [entered, left] == earlier + [entered] + [left];
      case _ =>
        assert earlier + [] == earlier;
    }
  }

  // ------------------------------------------------------------------ the loop

  /** The end of runRobotOnce: what it hands back beside the outcome. */
  method RunOnce(s: Session, held: Snapshot) returns (ok: bool, token: Snapshot, tokenExpired: bool)
    ensures ok <==> s.Played?
    ensures tokenExpired <==> s.GateTokenExpired?
    ensures token == TokenOut(held, s)
  {
    ok, token, tokenExpired := false, held, false;
    match s
    case Unreachable =>
    case GateTokenExpired =>
      tokenExpired := true;
    case LoginFailed =>
    case SceneTimeout(entered) =>
      if entered.access != "" { token := entered; }
    case Played(entered, left) =>
      if entered.access != "" { token := entered; }
      if left.access != "" { token := left; }
      ok := true;
  }

  /** The loop's variables follow the history. */
  predicate Tracks(h: History, attempt: int, expiries: int, backoff: int, cached: Snapshot) {
    && Legal(h) && attempt == 1 + Failures(h) && expiries == Expiries(h) && cached == TokenAfter(h)
    && Open(h) && backoff == Backoff(h)
  }

  function WaitedBy(attempt: int, backoff: int): Option<int> { if attempt > 1 then Some(backoff) else None }

  function Raised(attempt: int, backoff: int): int {
    if attempt > 1 then Min(backoff * 2, MAX_BACKOFF) else backoff
  }

  /** One cycle that does not end the loop by itself. */
  lemma Cycled(h: History, attempt: int, expiries: int, backoff: int, cached: Snapshot, s: Session)
    requires Tracks(h, attempt, expiries, backoff, cached)
    ensures
      var after := h + [Cycle(WaitedBy(attempt, backoff), cached, s)];
      && Legal(after) && Last(after).session == s
      && Failures(after) == Failures(h) + (if Failed(s) then 1 else 0)
      && Expiries(after) == Expiries(h) + (if s.GateTokenExpired? then 1 else 0)
      && (s.GateTokenExpired? && expiries < MAX_TOKEN_EXPIRED ==>
            Tracks(after, attempt, expiries + 1, EXPIRED_BACKOFF, TokenOut(cached, s)))
      && (Failed(s) && attempt < MAX_RETRIES ==>
            Tracks(after, attempt + 1, expiries, Raised(attempt, backoff), TokenOut(cached, s)))
  {
    var c := Cycle(WaitedBy(attempt, backoff), cached, s);
    LegalExtend(h, c);
    if Failed(s) && attempt < MAX_RETRIES { BackoffIsUncapped(h + [c]); }
  }

  /** Cycle `k` met the world's session, and no stop signal before it nor in the wait before it. */
  predicate RanUnstopped(world: World, c: Cycle, k: nat) {
    && c.session == world.session(k) && !world.stopBefore(k)
    && (c.waited.Some? ==> !world.stopInWait(k))
  }

  /** How a run of the loop ends: every cycle kept the rule, and the end says what the history says. */
  ghost predicate EndsWith(world: World, h: History, end: End) {
    && Legal(h) && (forall k :: 0 <= k < |h| ==> RanUnstopped(world, h[k], k))
    && match end
       case GaveUpOnRetries => Failures(h) == 5
       case GaveUpOnExpiry => Expiries(h) == 21
       case PlayedOrStopped =>
         && Failures(h) < 5 && Expiries(h) <= 20
         && (|| (h != [] && Last(h).session.Played?)
             || world.stopBefore(|h|) || (Failures(h) > 0 && world.stopInWait(|h|)))
  }

  /** runRobot: the loop counts attempts up and, on an expired gate token, down again. */
  method RunRobot(world: World) returns (end: End)
    ensures exists h :: EndsWith(world, h, end)
  {
    var backoff, expiries, n := FIRST_BACKOFF, 0, 0;
    var cached := Snapshot("", 0);
    var attempt := 1;
    ghost var history: History := [];
    while attempt <= MAX_RETRIES
      invariant n == |history|
      invariant forall k :: 0 <= k < n ==> RanUnstopped(world, history[k], k)
      invariant attempt <= MAX_RETRIES ==> Tracks(history, attempt, expiries, backoff, cached)
      invariant attempt > MAX_RETRIES ==>
        Legal(history) && Failures(history) == MAX_RETRIES && Expiries(history) <= MAX_TOKEN_EXPIRED
      decreases MAX_RETRIES - attempt, MAX_TOKEN_EXPIRED - expiries
    {
      if world.stopBefore(n) {
        assert EndsWith(world, history, PlayedOrStopped);
        return PlayedOrStopped;
      }
      Cycled(history, attempt, expiries, backoff, cached, world.session(n));
      ghost var cycle := Cycle(WaitedBy(attempt, backoff), cached, world.session(n));
      if attempt > 1 {
        if world.stopInWait(n) {
          assert EndsWith(world, history, PlayedOrStopped);
          return PlayedOrStopped;
        }
        backoff := Min(backoff * 2, MAX_BACKOFF);
      }
      var ok, token, tokenExpired := RunOnce(world.session(n), cached);
      history := history + [cycle];
      n := n + 1;
      cached := token;
      if ok {
        assert EndsWith(world, history, PlayedOrStopped);
        return PlayedOrStopped;
      }
      if tokenExpired {
        expiries := expiries + 1;
        if expiries > MAX_TOKEN_EXPIRED {
          assert EndsWith(world, history, GaveUpOnExpiry);
          return GaveUpOnExpiry;
        }
        attempt := attempt - 1;
        backoff := EXPIRED_BACKOFF;
      }
      attempt := attempt + 1;
    }
    assert EndsWith(world, history, GaveUpOnRetries);
    return GaveUpOnRetries;
  }
}
