/** Keeping the access token alive (robot/login.go:193-341, robot/pkg/client.go:129-162): refresh tokens
    are one-shot, so a token whose fate is unknown or settled must not be sent again. */
module Refresh {
  import opened Ints

  const SECOND: int := 1_000_000_000
  const REFRESH_LEAD: int := 600 * SECOND
  const SEND_COOLDOWN: int := 60 * SECOND
  const RETRY_BUDGET: int := 15 * SECOND
  const ATTEMPT_TIMEOUT: int := 5 * SECOND
  const MAX_ATTEMPTS: nat := 3

  datatype Reply = Reply(code: int, accessToken: string, refreshToken: string, accessExpire: int)

  /** What the network does: the answer of the n-th call if any, how long it wanted to take, how late the n-th
      timer fires, and whether the session ends during that timer. */
  datatype Network = Network(answer: nat -> Option<Reply>, wants: nat -> nat, late: nat -> nat, ends: nat -> bool)

  datatype Attempt = Attempt(token: string, start: int, finish: int, answered: bool)

  function Backoff(k: nat): int { if k == 0 then SECOND else 2 * Backoff(k - 1) }

  function TimeoutAt(start: int, now: int): int { Max(0, Min(ATTEMPT_TIMEOUT, start + RETRY_BUDGET - now)) }

  /** The n-th call, begun with a timeout: it takes what it wants up to the timeout, and is answered when the answer
      comes in time. A call begun with no time left is over at once. */
  function Took(net: Network, n: nat, timeout: int): int { Min(net.wants(n), Max(0, timeout)) }

  predicate Answers(net: Network, n: nat, timeout: int) {
    timeout > 0 && net.wants(n) <= timeout && net.answer(n).Some?
  }

  /** Attempt `k`: the same token, its timeout honoured, and - behind an unanswered attempt after which the backoff
      still fitted the budget and during which the session did not end - begun when the timer of that backoff fired,
      however late. */
  predicate AttemptOk(net: Network, attempts: seq<Attempt>, k: nat, token: string, start: int)
    requires k < |attempts|
  {
    var a := attempts[k];
    && a.token == token
    && a.finish == a.start + Took(net, k, TimeoutAt(start, a.start))
    && a.answered == Answers(net, k, TimeoutAt(start, a.start))
    && if k == 0 then a.start == start
       else
         && !attempts[k - 1].answered && attempts[k - 1].finish + Backoff(k - 1) < start + RETRY_BUDGET
         && !net.ends(k)
         && a.start == attempts[k - 1].finish + Backoff(k - 1) + net.late(k)
  }

  predicate Paced(net: Network, attempts: seq<Attempt>, token: string, start: int) {
    |attempts| <= MAX_ATTEMPTS && forall k :: 0 <= k < |attempts| ==> AttemptOk(net, attempts, k, token, start)
  }

  /** No more attempts follow: one was answered, three were made, the backoff no longer fits the budget or the
      session ended during it. */
  predicate Over(net: Network, attempts: seq<Attempt>, start: int) {
    && attempts != []
    && var last := attempts[|attempts| - 1];
    || last.answered || |attempts| == MAX_ATTEMPTS
    || last.finish + Backoff(|attempts| - 1) >= start + RETRY_BUDGET || net.ends(|attempts|)
  }

  lemma PacedExtend(net: Network, attempts: seq<Attempt>, a: Attempt, token: string, start: int)
    requires Paced(net, attempts, token, start) && |attempts| < MAX_ATTEMPTS
    requires AttemptOk(net, attempts + [a], |attempts|, token, start)
    ensures Paced(net, attempts + [a], token, start)
  {
    forall k | 0 <= k < |attempts| ensures AttemptOk(net, attempts + [a], k, token, start) {
      assert AttemptOk(net, attempts, k, token, start);
    }
  }

  /** Whatever the timers do, an attempt that begins inside the budget ends inside it, and one that begins later is
      over at once and unanswered: the token travels only inside the budget. */
  lemma InsideBudget(net: Network, attempts: seq<Attempt>, token: string, start: int, k: nat)
    requires Paced(net, attempts, token, start) && k < |attempts|
    ensures attempts[k].start < start + RETRY_BUDGET ==> attempts[k].finish <= start + RETRY_BUDGET
    ensures attempts[k].start >= start + RETRY_BUDGET ==>
      attempts[k].finish == attempts[k].start && !attempts[k].answered
  {
    assert AttemptOk(net, attempts, k, token, start);
  }

  /** An attempt begins after the budget if and only if its timer fired late by at least the budget that was left
      behind the backoff, which is more than nothing. */
  lemma BeginsLateIff(net: Network, attempts: seq<Attempt>, token: string, start: int, k: nat)
    requires Paced(net, attempts, token, start) && 0 < k < |attempts|
    ensures
      var left := start + RETRY_BUDGET - attempts[k - 1].finish - Backoff(k - 1);
      left > 0 && (attempts[k].start >= start + RETRY_BUDGET <==> net.late(k) >= left)
  {
    assert AttemptOk(net, attempts, k, token, start);
  }

  /** In figures: at most three attempts of at most 5 s each, the second at least 1 s and the third at least 2 s behind
      the end of the one before. */
  lemma AttemptsInFigures(net: Network, attempts: seq<Attempt>, token: string, start: int)
    requires Paced(net, attempts, token, start)
    ensures |attempts| <= 3
    ensures forall k :: 0 <= k < |attempts| ==>
      attempts[k].token == token && 0 <= attempts[k].finish - attempts[k].start <= 5_000_000_000
    ensures |attempts| > 1 ==> attempts[1].start - attempts[0].finish >= 1_000_000_000
    ensures |attempts| > 2 ==> attempts[2].start - attempts[1].finish >= 2_000_000_000
    ensures forall k :: 0 <= k < |attempts| && attempts[k].answered ==> attempts[k].finish <= start + 15_000_000_000
  {
    forall k | 0 <= k < |attempts|
      ensures attempts[k].token == token && 0 <= attempts[k].finish - attempts[k].start <= 5_000_000_000
      ensures attempts[k].answered ==> attempts[k].finish <= start + 15_000_000_000
    {
      assert AttemptOk(net, attempts, k, token, start);
    }
    assert |attempts| <= 1 || AttemptOk(net, attempts, 1, token, start);
    assert |attempts| <= 2 || AttemptOk(net, attempts, 2, token, start);
    assert Backoff(0) == SECOND && Backoff(1) == 2 * SECOND;
  }

  /** A first timer 14 s late: the second attempt begins as the budget ends. */
  lemma LateTimerBeginsAfterBudget() returns (net: Network, attempts: seq<Attempt>)
    ensures Paced(net, attempts, "t", 0) && |attempts| == 2 && attempts[1].start == RETRY_BUDGET
  {
    net := Network((n: nat) => None, (n: nat) => 0, (n: nat) => 14 * SECOND, (n: nat) => false);
    attempts := [Attempt("t", 0, 0, false), Attempt("t", RETRY_BUDGET, RETRY_BUDGET, false)];
    assert AttemptOk(net, attempts, 0, "t", 0) && AttemptOk(net, attempts, 1, "t", 0);
  }

  /** One call with a timeout: the context is over before the call when none is left. */
  method Call(net: Network, n: nat, timeout: int) returns (answer: Option<Reply>, took: int)
    ensures took == Took(net, n, timeout)
    ensures answer == if Answers(net, n, timeout) then net.answer(n) else None
  {
    if timeout <= 0 { return None, 0; }
    if net.wants(n) <= timeout {
      return net.answer(n), net.wants(n);
    }
    return None, timeout;
  }

  /** The attempts keep the rule, no more would follow, and the reply is the answer of the last one. */
  predicate Concluded(net: Network, attempts: seq<Attempt>, token: string, start: int, reply: Option<Reply>) {
    && Paced(net, attempts, token, start) && Over(net, attempts, start)
    && reply == if attempts[|attempts| - 1].answered then net.answer(|attempts| - 1) else None
  }

  /** httpRefreshWithinGrace. */
  method RefreshWithinGrace(net: Network, token: string, start: int) returns (reply: Option<Reply>)
    ensures exists attempts :: Concluded(net, attempts, token, start, reply)
  {
    var deadline := start + RETRY_BUDGET;
    var backoff := SECOND;
    var tries := 0;
    var now := start;
    ghost var attempts: seq<Attempt> := [];
    while tries < MAX_ATTEMPTS
      invariant 0 <= tries < MAX_ATTEMPTS && |attempts| == tries
      invariant Paced(net, attempts, token, start)
      invariant backoff == Backoff(tries)
      invariant tries == 0 ==> now == start
      invariant tries > 0 ==>
        && !attempts[tries - 1].answered && attempts[tries - 1].finish + Backoff(tries - 1) < deadline
        && !net.ends(tries)
        && now == attempts[tries - 1].finish + Backoff(tries - 1) + net.late(tries)
    {
      var answer, took := Call(net, tries, Min(ATTEMPT_TIMEOUT, deadline - now));
      PacedExtend(net, attempts, Attempt(token, now, now + took, answer.Some?), token, start);
      attempts := attempts + [Attempt(token, now, now + took, answer.Some?)];
      now := now + took;
      tries := tries + 1;
      if answer.Some? {
        assert Concluded(net, attempts, token, start, answer);
        return answer;
      }
      if tries == MAX_ATTEMPTS || deadline - now <= backoff {
        break;
      }
      if net.ends(tries) {
        assert Concluded(net, attempts, token, start, None);
        return None;
      }
      now := now + backoff + net.late(tries);
      backoff := backoff * 2;
    }
    assert Concluded(net, attempts, token, start, None);
    return None;
  }

  // ------------------------------------------------------------------ the refresher

  datatype Verdict = Rejected | Unknown | Rotated | KeptToken | LegacySent | LegacySendFailed

  datatype Sent = Sent(token: string, at: int, verdict: Verdict)

  /** After these outcomes the token must never be sent again. */
  predicate Spent(s: Sent) { s.verdict != KeptToken && s.verdict != LegacySendFailed }

  predicate NeverAgain(log: seq<Sent>) {
    forall i, j :: 0 <= i < j < |log| && Spent(log[i]) ==> log[j].token != log[i].token
  }

  predicate CooledDown(log: seq<Sent>) {
    forall i :: 0 < i < |log| ==> log[i].at >= log[i - 1].at + SEND_COOLDOWN
  }

  predicate SpentToken(log: seq<Sent>, token: string) {
    exists i :: 0 <= i < |log| && Spent(log[i]) && log[i].token == token
  }

  /** A token the server has not handed out before: none that was ever sent. */
  predicate NewToken(log: seq<Sent>, token: string) {
    forall i :: 0 <= i < |log| ==> log[i].token != token
  }

  function VerdictOf(reply: Option<Reply>): Verdict {
    if reply.None? then Unknown
    else if reply.value.code != 0 then Rejected
    else if reply.value.refreshToken != "" then Rotated
    else KeptToken
  }

  /** Over the whole session: no spent token is sent again, sends are a cool-down apart, and a spent token still
      held is the one in flight on the legacy path. */
  ghost predicate Sound(log: seq<Sent>, lastSent: Option<int>, refresh: string, inflight: string) {
    && NeverAgain(log) && CooledDown(log)
    && lastSent == (if log == [] then None else Some(log[|log| - 1].at))
    && (forall i :: 0 <= i < |log| ==> log[i].token != "")
    && (refresh != "" && SpentToken(log, refresh) ==> refresh == inflight)
  }

  datatype Tokens = Tokens(access: string, refresh: string, expire: int)

  /** The tokens after an HTTP refresh of `held`, when the refresh token `swapped`, if any, took its place meanwhile:
      a success replaces what it brings and leaves the rest, everything else drops the token that was sent. */
  function Settled(reply: Option<Reply>, held: Tokens, swapped: string): Tokens {
    if reply.Some? && reply.value.code == 0 then
      var r, current := reply.value, if swapped != "" then swapped else held.refresh;
      Tokens(if r.accessToken != "" then r.accessToken else held.access,
             if r.refreshToken != "" then r.refreshToken else current,
             if r.accessToken != "" then r.accessExpire else held.expire)
    else Tokens(held.access, swapped, held.expire)
  }

  /** What an HTTP refresh has done: one entry in the log, its verdict from a concluded series of attempts with the
      held token, and the tokens that follow from it. */
  ghost predicate HttpDone(
      before: seq<Sent>, held: Tokens, now: int, net: Network, swapped: string, log: seq<Sent>, after: Tokens)
  {
    exists attempts, reply ::
      && Concluded(net, attempts, held.refresh, now, reply)
      && log == before + [Sent(held.refresh, now, VerdictOf(reply))]
      && after == Settled(reply, held, swapped)
  }

  /** The access token and its expiry always come from one reply: a success that brings one, or the reply they came
      from before. The refresh token that was sent does not survive a refusal or an unknown outcome. */
  lemma TokensComeTogether(
      before: seq<Sent>, held: Tokens, now: int, net: Network, swapped: string, log: seq<Sent>, after: Tokens)
    requires HttpDone(before, held, now, net, swapped, log, after)
    ensures
      || (after.access == held.access && after.expire == held.expire)
      || (exists k: nat ::
            && net.answer(k).Some? && net.answer(k).value.code == 0 && net.answer(k).value.accessToken != ""
            && after.access == net.answer(k).value.accessToken && after.expire == net.answer(k).value.accessExpire)
    ensures (forall k: nat :: net.answer(k).Some? ==> net.answer(k).value.code != 0) ==>
      after == Tokens(held.access, swapped, held.expire)
  {
    var attempts, reply :| Concluded(net, attempts, held.refresh, now, reply) && after == Settled(reply, held, swapped);
    if reply.Some? { assert net.answer(|attempts| - 1) == reply; }
  }

  /** A success that arrives within 5 s and brings both tokens is what the session goes on with. */
  lemma PromptSuccessIsStored(
      before: seq<Sent>, held: Tokens, now: int, net: Network, swapped: string, log: seq<Sent>, after: Tokens)
    requires HttpDone(before, held, now, net, swapped, log, after)
    requires net.answer(0).Some? && net.wants(0) <= 5_000_000_000 && net.answer(0).value.code == 0
    requires net.answer(0).value.accessToken != "" && net.answer(0).value.refreshToken != ""
    ensures
      var r := net.answer(0).value;
      after == Tokens(r.accessToken, r.refreshToken, r.accessExpire)
  {
    var attempts, reply :| Concluded(net, attempts, held.refresh, now, reply) && after == Settled(reply, held, swapped);
    FirstAnswerCounts(net, attempts, held.refresh, now, reply);
    assert reply.Some? && reply.value == net.answer(0).value;
    assert Settled(reply, held, swapped).access == reply.value.accessToken;
  }

  /** An answer to the first attempt within 5 s ends the series. */
  lemma FirstAnswerCounts(net: Network, attempts: seq<Attempt>, token: string, start: int, reply: Option<Reply>)
    requires Concluded(net, attempts, token, start, reply)
    requires net.answer(0).Some? && net.wants(0) <= 5_000_000_000
    ensures reply == net.answer(0)
  {
    assert AttemptOk(net, attempts, 0, token, start);
    assert |attempts| <= 1 || AttemptOk(net, attempts, 1, token, start);
  }

  /** The server hands out no token that was sent before, nor the one it is asked to refresh. */
  predicate FreshTokens(net: Network, log: seq<Sent>, held: string, reply: Option<Reply>) {
    reply.Some? && reply.value.refreshToken != "" ==>
      NewToken(log, reply.value.refreshToken) && reply.value.refreshToken != held
  }

  /** The token that was sent is held afterwards if and only if the reply was a success without a new token
      and no other token came meanwhile. */
  lemma HeldIff(
      before: seq<Sent>, held: Tokens, now: int, net: Network, swapped: string, log: seq<Sent>, after: Tokens)
    requires HttpDone(before, held, now, net, swapped, log, after)
    requires held.refresh != "" && swapped != held.refresh
    requires forall k :: FreshTokens(net, before, held.refresh, net.answer(k))
    ensures after.refresh == held.refresh <==> log[|before|].verdict == KeptToken && swapped == ""
  {
    var attempts, reply :| Concluded(net, attempts, held.refresh, now, reply)
      && log == before + [Sent(held.refresh, now, VerdictOf(reply))] && after == Settled(reply, held, swapped);
    if reply.Some? { assert FreshTokens(net, before, held.refresh, net.answer(|attempts| - 1)); }
  }

  /** Of two successive refreshes over HTTP the second sends the same token if and only if the first was answered
      by a success without a new one and no other token came meanwhile. */
  lemma SentTwiceIff(
      before: seq<Sent>, held: Tokens, now: int, net: Network, swapped: string, log: seq<Sent>, held2: Tokens,
      now2: int, net2: Network, swapped2: string, log2: seq<Sent>, held3: Tokens)
    requires HttpDone(before, held, now, net, swapped, log, held2)
    requires HttpDone(log, held2, now2, net2, swapped2, log2, held3)
    requires held.refresh != "" && swapped != held.refresh
    requires forall k :: FreshTokens(net, before, held.refresh, net.answer(k))
    ensures |log2| == |before| + 2 && log2[|before|].token == held.refresh
    ensures log2[|before| + 1].token == log2[|before|].token <==>
      log2[|before|].verdict == KeptToken && swapped == ""
  {
    HeldIff(before, held, now, net, swapped, log, held2);
  }

  lemma SpentAfter(log: seq<Sent>, s: Sent, t: string)
    ensures SpentToken(log + [s], t) <==> SpentToken(log, t) || (Spent(s) && s.token == t)
  {
    var after := log + [s];
    if SpentToken(log, t) {
      var i :| 0 <= i < |log| && Spent(log[i]) && log[i].token == t;
      assert after[i] == log[i];
    }
    if Spent(s) && s.token == t { assert after[|log|] == s; }
  }

  lemma NewIsUnspent(log: seq<Sent>, s: Sent, t: string)
    requires NewToken(log, t) && t != s.token
    ensures !SpentToken(log + [s], t)
  {
    SpentAfter(log, s, t);
  }

  /** Sending an unspent token after the cool-down keeps the session sound, whatever is held afterwards, as long
      as that is unspent or in flight. */
  lemma SoundAfterSend(
      log: seq<Sent>, lastSent: Option<int>, refresh: string, inflight: string, s: Sent, held: string, flying: string)
    requires Sound(log, lastSent, refresh, inflight) && !SpentToken(log, s.token) && s.token != ""
    requires lastSent.Some? ==> s.at >= lastSent.value + SEND_COOLDOWN
    requires held != "" && SpentToken(log + [s], held) ==> held == flying
    ensures Sound(log + [s], Some(s.at), held, flying)
  {
    var after := log + [s];
    forall i, j | 0 <= i < j < |after| && Spent(after[i]) ensures after[j].token != after[i].token {
      assert after[i] == log[i];
    }
  }

  class Refresher {
    const viaHttp: bool
    var access: string
    var refresh: string
    var accessExpire: int
    var lastSent: Option<int>
    var legacyInflight: string
    ghost var log: seq<Sent>

    constructor (viaHttp: bool, access: string, refresh: string, accessExpire: int)
      ensures Valid() && log == [] && this.viaHttp == viaHttp && legacyInflight == ""
      ensures this.access == access && this.refresh == refresh && this.accessExpire == accessExpire
    {
      this.viaHttp, this.access, this.refresh, this.accessExpire := viaHttp, access, refresh, accessExpire;
      lastSent, legacyInflight, log := None, "", [];
    }

    ghost predicate Valid()
      reads this
    {
      Sound(log, lastSent, refresh, legacyInflight)
    }

    /** The tokens the session holds. */
    function Held(): Tokens
      reads this
    {
      Tokens(access, refresh, accessExpire)
    }

    /** SetTokens: empty values leave the fields alone. */
    method SetTokens(newAccess: string, newRefresh: string, newExpire: int)
      modifies `access, `refresh, `accessExpire
      ensures access == (if newAccess != "" then newAccess else old(access))
      ensures accessExpire == (if newAccess != "" then newExpire else old(accessExpire))
      ensures refresh == (if newRefresh != "" then newRefresh else old(refresh))
    {
      if newAccess != "" { access, accessExpire := newAccess, newExpire; }
      if newRefresh != "" { refresh := newRefresh; }
    }

    /** A token pair that arrives from elsewhere, such as the reply on the legacy path. */
    method Deliver(newAccess: string, newRefresh: string, newExpire: int)
      requires Valid() && (newRefresh != "" ==> NewToken(log, newRefresh))
      modifies `access, `refresh, `accessExpire
      ensures Valid()
      ensures Held() == Tokens(if newAccess != "" then newAccess else old(access),
                               if newRefresh != "" then newRefresh else old(refresh),
                               if newAccess != "" then newExpire else old(accessExpire))
    {
      SetTokens(newAccess, newRefresh, newExpire);
    }

    /** DropRefreshToken: forgets the token unless another one has taken its place. */
    method DropRefreshToken(stale: string)
      modifies `refresh
      ensures refresh == if stale != "" && old(refresh) == stale then "" else old(refresh)
    {
      if stale != "" && refresh == stale { refresh := ""; }
    }

    predicate Due(now: int)
      reads this
    {
      && refresh != "" && accessExpire != 0 && refresh != legacyInflight
      && accessExpire - now <= REFRESH_LEAD
      && (lastSent.Some? ==> now - lastSent.value >= SEND_COOLDOWN)
    }

    /** The refresh over HTTP. `swapped` is a token that took the place of ours while the call was under way. */
    method SendHttp(now: int, net: Network, swapped: string)
      requires Valid() && viaHttp && Due(now)
      requires swapped != "" ==> NewToken(log, swapped) && swapped != refresh
      requires forall k :: FreshTokens(net, log, refresh, net.answer(k))
      modifies this
      ensures Valid()
      ensures HttpDone(old(log), old(Held()), now, net, swapped, log, Held())
      ensures legacyInflight == old(legacyInflight) && lastSent == Some(now)
    {
      var sent := refresh;
      lastSent := Some(now);
      var reply := RefreshWithinGrace(net, sent, now);
      ghost var attempts :| Concluded(net, attempts, sent, now, reply);
      if swapped != "" { refresh := swapped; }
      Settle(reply, sent);
      assert FreshTokens(net, log, sent, net.answer(|attempts| - 1));
      assert Held() == Settled(reply, old(Held()), swapped);
      ghost var entry := Sent(sent, now, VerdictOf(reply));
      SpentAfter(log, entry, sent);
      if refresh != sent && refresh != "" { NewIsUnspent(log, entry, refresh); }
      SoundAfterSend(log, old(lastSent), old(refresh), legacyInflight, entry, refresh, legacyInflight);
      log := log + [entry];
    }

    /** What the outcome does to the tokens held. */
    method Settle(reply: Option<Reply>, sent: string)
      requires sent != ""
      modifies `access, `refresh, `accessExpire
      ensures Held() == Settled(reply, old(Held()), if old(refresh) == sent then "" else old(refresh))
    {
      if reply.None? {
        DropRefreshToken(sent);
      } else if reply.value.code != 0 {
        DropRefreshToken(sent);
      } else {
        SetTokens(reply.value.accessToken, reply.value.refreshToken, reply.value.accessExpire);
      }
    }

    /** The refresh over the gate connection; the reply, if any, arrives as a SetTokens. */
    method SendLegacy(now: int, sendOk: bool)
      requires Valid() && !viaHttp && Due(now)
      modifies this
      ensures Valid() && Held() == old(Held())
      ensures log == old(log) + [Sent(refresh, now, if sendOk then LegacySent else LegacySendFailed)]
      ensures legacyInflight == if sendOk then refresh else old(legacyInflight)
      ensures lastSent == Some(now)
    {
      ghost var entry := Sent(refresh, now, if sendOk then LegacySent else LegacySendFailed);
      SpentAfter(log, entry, refresh);
      ghost var flying := if sendOk then refresh else legacyInflight;
      SoundAfterSend(log, lastSent, refresh, legacyInflight, entry, refresh, flying);
      lastSent := Some(now);
      log := log + [entry];
      if sendOk { legacyInflight := refresh; }
    }

    /** One tick of runTokenRefresher. */
    method Tick(now: int, net: Network, swapped: string, sendOk: bool)
      requires Valid()
      requires swapped != "" ==> NewToken(log, swapped) && swapped != refresh
      requires forall k :: FreshTokens(net, log, refresh, net.answer(k))
      modifies this
      ensures Valid()
      ensures log != old(log) <==>
        && old(refresh) != "" && old(accessExpire) != 0 && old(refresh) != old(legacyInflight)
        && old(accessExpire) - now <= 600_000_000_000
        && (old(lastSent).Some? ==> now - old(lastSent).value >= 60_000_000_000)
      ensures log == old(log) ==>
        access == old(access) && accessExpire == old(accessExpire) && lastSent == old(lastSent)
      ensures log == old(log) ==>
        refresh == if old(refresh) == old(legacyInflight) && old(accessExpire) != 0 then "" else old(refresh)
      ensures log == old(log) ==>
        legacyInflight == if refresh == old(refresh) then old(legacyInflight) else ""
      ensures log != old(log) && viaHttp ==>
        && HttpDone(old(log), old(Held()), now, net, swapped, log, Held())
        && legacyInflight == old(legacyInflight) && lastSent == Some(now)
      ensures log != old(log) && !viaHttp ==>
        && log == old(log) + [Sent(old(refresh), now, if sendOk then LegacySent else LegacySendFailed)]
        && Held() == old(Held()) && legacyInflight == (if sendOk then refresh else old(legacyInflight))
        && lastSent == Some(now)
      ensures old(refresh) != "" && old(accessExpire) != 0 && old(refresh) == old(legacyInflight) ==>
        refresh == "" && legacyInflight == ""
    {
      if refresh == "" || accessExpire == 0 { return; }
      if refresh == legacyInflight {
        DropRefreshToken(refresh);
        legacyInflight := "";
        return;
      }
      if accessExpire - now > REFRESH_LEAD { return; }
      if lastSent.Some? && now - lastSent.value < SEND_COOLDOWN { return; }
      if viaHttp {
        SendHttp(now, net, swapped);
      } else {
        SendLegacy(now, sendOk);
      }
    }
  }

  /** A gateway that answers every call at once with a success that brings no tokens. */
  function EmptySuccess(): Network {
    Network((n: nat) => Some(Reply(0, "", "", 0)), (n: nat) => 0, (n: nat) => 0, (n: nat) => false)
  }

  /** Against it two ticks a minute apart send the same token. */
  method ResendAfterKeptToken() returns (ghost log: seq<Sent>)
    ensures |log| == 2 && log[0].token == log[1].token != "" && log[0].verdict == KeptToken
  {
    var net := EmptySuccess();
    var r := new Refresher(true, "access", "token", 100);
    r.Tick(0, net, "", true);
    ghost var held := Tokens("access", "token", 100);
    assert HttpDone([], held, 0, net, "", r.log, r.Held());
    ghost var a, first :| Concluded(net, a, "token", 0, first)
      && r.log == [] + [Sent("token", 0, VerdictOf(first))] && r.Held() == Settled(first, held, "");
    FirstAnswerCounts(net, a, "token", 0, first);
    r.Tick(60 * SECOND, net, "", true);
    log := r.log;
  }
}
