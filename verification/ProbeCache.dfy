/** One network probe and the cache of its results (robot/network_probe.go:148-188, 302-351). */
module ProbeCache {
  import opened Ints

  const MS: int := 1_000_000
  /** The battle start budget of 30 s and 10 s on top. */
  const MARGIN: int := 40_000 * MS

  // ------------------------------------------------------------------ one probe

  datatype Receipt = Receipt(rttMs: uint32, measuredMs: uint64)
  datatype Plan = Plan(tip: uint32, planId: string, regions: seq<uint32>)
  datatype Commit = Commit(tip: uint32, expiresMs: uint64)

  /** What the lobby and the sampled endpoints answer; None is a failed call. */
  datatype Lobby = Lobby(plan: Option<Plan>, sample: nat -> Option<Receipt>, commit: seq<Receipt> -> Option<Commit>)

  datatype ProbeError =
    | PlanFailed | PlanRejected | PlanUnusable | SampleFailed(target: nat)
    | CommitFailed | CommitRejected | ExpiresTooSoon

  /** A committed probe: the plan, when it expires and when its last sample was measured, by the servers' clock. */
  datatype Probe = Probe(planId: string, latestMs: uint64, expiresMs: uint64)

  datatype ProbeResult = Probed(probe: Probe, rttByRegion: map<uint32, uint32>) | Failed(error: ProbeError)

  /** time.Duration(expires - latest) * time.Millisecond: an unsigned difference read as int64, times 10^6. */
  function Remaining(p: Probe): int64v {
    ToInt64(ToInt64(ToUint64(p.expiresMs - p.latestMs)) * MS)
  }

  predicate AllSampled(lobby: Lobby, receipts: seq<Receipt>) {
    forall i :: 0 <= i < |receipts| ==> lobby.sample(i) == Some(receipts[i])
  }

  /** The largest measuring time, 0 when there is none. */
  predicate IsLatest(receipts: seq<Receipt>, latest: uint64) {
    && (forall i :: 0 <= i < |receipts| ==> receipts[i].measuredMs <= latest)
    && (latest == 0 || exists i :: 0 <= i < |receipts| && receipts[i].measuredMs == latest)
  }

  /** Each region's round trip is the one of its last target. */
  ghost predicate RttsOf(regions: seq<uint32>, receipts: seq<Receipt>, rtts: map<uint32, uint32>)
    requires |receipts| <= |regions|
  {
    && (forall i :: 0 <= i < |receipts| ==> regions[i] in rtts)
    && (forall r :: r in rtts ==> exists i :: LastOf(regions, |receipts|, r, i) && rtts[r] == receipts[i].rttMs)
  }

  predicate LastOf(regions: seq<uint32>, n: nat, r: uint32, i: int)
    requires n <= |regions|
  {
    0 <= i < n && regions[i] == r && forall j :: i < j < n ==> regions[j] != r
  }

  lemma LastOfGrows(regions: seq<uint32>, n: nat, r: uint32, i: int)
    requires n < |regions| && regions[n] != r && LastOf(regions, n, r, i)
    ensures LastOf(regions, n + 1, r, i)
  {
  }

  /** The probe is the plan the lobby gave, committed with exactly these receipts of all its targets. */
  predicate ProbedBy(lobby: Lobby, receipts: seq<Receipt>, p: Probe) {
    && lobby.plan.Some? && p.planId == lobby.plan.value.planId != ""
    && |receipts| == |lobby.plan.value.regions| && AllSampled(lobby, receipts)
    && lobby.commit(receipts) == Some(Commit(0, p.expiresMs))
    && IsLatest(receipts, p.latestMs) && p.latestMs < p.expiresMs
  }

  /** The lobby gives a usable plan. */
  predicate Planned(lobby: Lobby) {
    lobby.plan.Some? && lobby.plan.value.tip == 0 && lobby.plan.value.planId != "" && |lobby.plan.value.regions| > 0
  }

  /** The first `n` targets answer. */
  ghost predicate Respond(lobby: Lobby, n: nat) { forall i: nat :: i < n ==> lobby.sample(i).Some? }

  /** There is a usable plan and all its targets answer, with these receipts. */
  ghost predicate Sampled(lobby: Lobby, receipts: seq<Receipt>) {
    && Planned(lobby) && |receipts| == |lobby.plan.value.regions| && AllSampled(lobby, receipts)
  }

  /** What must be so for a probe to fail in a certain way, each after everything before it went well. */
  ghost predicate FailsWith(lobby: Lobby, e: ProbeError) {
    match e
    case PlanFailed => lobby.plan.None?
    case PlanRejected => lobby.plan.Some? && lobby.plan.value.tip != 0
    case PlanUnusable => lobby.plan.Some? && lobby.plan.value.tip == 0 && !Planned(lobby)
    case SampleFailed(n) =>
      Planned(lobby) && n < |lobby.plan.value.regions| && Respond(lobby, n) && lobby.sample(n).None?
    case CommitFailed => exists receipts :: Sampled(lobby, receipts) && lobby.commit(receipts).None?
    case CommitRejected =>
      exists receipts ::
        Sampled(lobby, receipts) && lobby.commit(receipts).Some? && lobby.commit(receipts).value.tip != 0
    case ExpiresTooSoon =>
      exists receipts :: Sampled(lobby, receipts) && CommitsWell(lobby, receipts) && !ExpiresAfter(lobby, receipts)
  }

  predicate CommitsWell(lobby: Lobby, receipts: seq<Receipt>) {
    lobby.commit(receipts).Some? && lobby.commit(receipts).value.tip == 0
  }

  /** The commit expires after every measurement. */
  predicate ExpiresAfter(lobby: Lobby, receipts: seq<Receipt>)
    requires CommitsWell(lobby, receipts)
  {
    forall i :: 0 <= i < |receipts| ==> receipts[i].measuredMs < lobby.commit(receipts).value.expiresMs
  }

  /** What must be so for a probe to succeed: the plan, every sample, the commit and its expiry. */
  ghost predicate Succeeds(lobby: Lobby) {
    exists receipts :: Sampled(lobby, receipts) && CommitsWell(lobby, receipts) && ExpiresAfter(lobby, receipts)
  }

  lemma SampledOnce(lobby: Lobby, a: seq<Receipt>, b: seq<Receipt>)
    requires Sampled(lobby, a) && Sampled(lobby, b)
    ensures a == b && Respond(lobby, |lobby.plan.value.regions|)
  {
    forall i | 0 <= i < |a| ensures a[i] == b[i] && lobby.sample(i).Some? {
      assert lobby.sample(i) == Some(a[i]) == Some(b[i]);
    }
  }

  /** No two of these happen together, so each of them is both what a result needs and what it takes. */
  lemma OneOutcome(lobby: Lobby, e: ProbeError, f: ProbeError)
    requires FailsWith(lobby, e)
    ensures !Succeeds(lobby)
    ensures FailsWith(lobby, f) ==> e == f
  {
    forall a, b | Sampled(lobby, a) && Sampled(lobby, b) ensures a == b && Respond(lobby, |lobby.plan.value.regions|) {
      SampledOnce(lobby, a, b);
    }
    if e.SampleFailed? && f.SampleFailed? && FailsWith(lobby, f) {
      var m, n := e.target, f.target;
      assert m < n ==> lobby.sample(m).Some?;
      assert n < m ==> lobby.sample(n).Some?;
    }
  }

  /** runNetworkProbe. Receipts are committed only when every target was sampled, and a commit is believed exactly
      when its expiry lies after every measurement. Every other outcome has its own cause, the first in the order
      of the calls. */
  method RunProbe(lobby: Lobby) returns (result: ProbeResult, committed: Option<seq<Receipt>>)
    ensures result.Probed? <==> Succeeds(lobby)
    ensures forall e :: result == Failed(e) <==> FailsWith(lobby, e)
    ensures committed.Some? <==> exists receipts :: Sampled(lobby, receipts)
    ensures committed.Some? ==> Sampled(lobby, committed.value)
    ensures result.Probed? ==>
      && committed.Some? && ProbedBy(lobby, committed.value, result.probe)
      && RttsOf(lobby.plan.value.regions, committed.value, result.rttByRegion)
  {
    committed := None;
    if lobby.plan.None? {
      result := Failed(PlanFailed);
      OnlyThat(lobby, PlanFailed);
      return;
    }
    var plan := lobby.plan.value;
    if plan.tip != 0 {
      result := Failed(PlanRejected);
      OnlyThat(lobby, PlanRejected);
      return;
    }
    if plan.planId == "" || |plan.regions| == 0 {
      result := Failed(PlanUnusable);
      OnlyThat(lobby, PlanUnusable);
      return;
    }

    var receipts: seq<Receipt>, latest: uint64, rtts: map<uint32, uint32> := [], 0, map[];
    for n := 0 to |plan.regions|
      invariant |receipts| == n && AllSampled(lobby, receipts) && IsLatest(receipts, latest)
      invariant RttsOf(plan.regions, receipts, rtts)
    {
      var sample := lobby.sample(n);
      if sample.None? {
        assert forall i: nat :: i < n ==> lobby.sample(i) == Some(receipts[i]);
        result := Failed(SampleFailed(n));
        OnlyThat(lobby, SampleFailed(n));
        return;
      }
      var receipt := sample.value;
      RttsGrow(plan.regions, receipts, rtts, receipt);
      LatestGrows(receipts, latest, receipt);
      receipts := receipts + [receipt];
      rtts := rtts[plan.regions[n] := receipt.rttMs];
      latest := Max(latest, receipt.measuredMs);
    }

    assert Sampled(lobby, receipts);
    committed := Some(receipts);
    var answer := lobby.commit(receipts);
    if answer.None? {
      result := Failed(CommitFailed);
      OnlyThat(lobby, CommitFailed);
      return;
    }
    if answer.value.tip != 0 {
      result := Failed(CommitRejected);
      OnlyThat(lobby, CommitRejected);
      return;
    }
    LatestDecides(lobby, receipts, latest);
    if answer.value.expiresMs <= latest {
      result := Failed(ExpiresTooSoon);
      OnlyThat(lobby, ExpiresTooSoon);
      return;
    }
    result := Probed(Probe(plan.planId, latest, answer.value.expiresMs), rtts);
    forall e ensures !FailsWith(lobby, e) {
      if FailsWith(lobby, e) { OneOutcome(lobby, e, e); }
    }
  }

  lemma OnlyThat(lobby: Lobby, e: ProbeError)
    requires FailsWith(lobby, e)
    ensures !Succeeds(lobby) && forall f :: FailsWith(lobby, f) <==> f == e
    ensures e in {CommitFailed, CommitRejected, ExpiresTooSoon} <==> exists receipts :: Sampled(lobby, receipts)
  {
    OneOutcome(lobby, e, e);
    forall f | FailsWith(lobby, f) ensures f == e { OneOutcome(lobby, e, f); }
    if receipts :| Sampled(lobby, receipts) {
      SampledOnce(lobby, receipts, receipts);
    }
  }

  lemma LatestDecides(lobby: Lobby, receipts: seq<Receipt>, latest: uint64)
    requires IsLatest(receipts, latest) && receipts != [] && CommitsWell(lobby, receipts)
    ensures ExpiresAfter(lobby, receipts) <==> lobby.commit(receipts).value.expiresMs > latest
  {
    if latest == 0 { assert receipts[0].measuredMs == 0; }
  }

  lemma LatestGrows(receipts: seq<Receipt>, latest: uint64, receipt: Receipt)
    requires IsLatest(receipts, latest)
    ensures IsLatest(receipts + [receipt], Max(latest, receipt.measuredMs))
  {
    var more := receipts + [receipt];
    if latest <= receipt.measuredMs {
      assert more[|receipts|].measuredMs == receipt.measuredMs;
    } else {
      var i :| 0 <= i < |receipts| && receipts[i].measuredMs == latest;
      assert more[i].measuredMs == latest;
    }
  }

  lemma RttsGrow(regions: seq<uint32>, receipts: seq<Receipt>, rtts: map<uint32, uint32>, receipt: Receipt)
    requires |receipts| < |regions| && RttsOf(regions, receipts, rtts)
    ensures RttsOf(regions, receipts + [receipt], rtts[regions[|receipts|] := receipt.rttMs])
  {
    var n, more := |receipts|, receipts + [receipt];
    var after := rtts[regions[n] := receipt.rttMs];
    forall r | r in after ensures exists i :: LastOf(regions, n + 1, r, i) && after[r] == more[i].rttMs {
      if r == regions[n] {
        assert LastOf(regions, n + 1, r, n) && after[r] == more[n].rttMs;
      } else {
        var i :| LastOf(regions, n, r, i) && rtts[r] == receipts[i].rttMs;
        LastOfGrows(regions, n, r, i);
        assert after[r] == more[i].rttMs;
      }
    }
  }

  // ------------------------------------------------------------------ deadlines

  /** started.Add(result.remaining - networkProbeRefreshMargin). */
  function DeadlineOf(started: int, p: Probe): int {
    started + ToInt64(Remaining(p) - MARGIN)
  }

  /** The deadline is never later than the exact one, for every expiry whatever: where the 64-bit arithmetic
      wraps, it wraps downwards. It is the exact one while the validity stays below 2^63 ns. */
  lemma DeadlineIsConservative(started: int, p: Probe)
    requires p.latestMs < p.expiresMs
    ensures DeadlineOf(started, p) <= started + (p.expiresMs - p.latestMs) * MS - MARGIN
    ensures (p.expiresMs - p.latestMs) * MS < INT64_BOUND ==>
      DeadlineOf(started, p) == started + (p.expiresMs - p.latestMs) * MS - MARGIN
  {
    var diff := p.expiresMs - p.latestMs;
    assert ToUint64(diff) == diff;
    Residue64(diff);
    var turns := Turns(diff);
    Residue64(ToInt64(diff) * MS);
    Residue64(Remaining(p) - MARGIN);
  }

  // ------------------------------------------------------------------ the log of the cache

  /** Equal only for the same connection object on the same gate. */
  datatype Session = Session(client: nat, host: string, port: int)

  datatype Entry = Entry(session: Session, planId: string, deadline: int)

  /** What the critical sections of the cache do, in their order, whichever callers run them. */
  datatype Event =
    | Hit(player: uint64, session: Session, planId: string, now: int)
    | Stored(player: uint64, session: Session, started: int, probe: Probe)

  type Log = seq<Event>

  /** The entries that a log leaves behind. */
  function EntriesOf(log: Log): map<uint64, Entry> {
    if log == [] then map[]
    else
      var before := EntriesOf(log[..|log| - 1]);
      match log[|log| - 1]
      case Hit(_, _, _, _) => before
      case Stored(player, session, started, probe) =>
        before[player := Entry(session, probe.planId, DeadlineOf(started, probe))]
  }

  predicate Usable(entries: map<uint64, Entry>, player: uint64, session: Session, now: int) {
    player in entries && entries[player].session == session && now < entries[player].deadline
  }

  predicate MayFollow(log: Log, e: Event) {
    match e
    case Hit(player, session, planId, now) =>
      Usable(EntriesOf(log), player, session, now) && planId == EntriesOf(log)[player].planId
    case Stored(_, _, _, probe) => probe.latestMs < probe.expiresMs
  }

  predicate Legal(log: Log) {
    log == [] || (Legal(log[..|log| - 1]) && MayFollow(log[..|log| - 1], log[|log| - 1]))
  }

  /** Event `j` is the player's last successful probe before event `k`. */
  predicate LastStored(log: Log, k: nat, player: uint64, j: int)
    requires k <= |log|
  {
    && 0 <= j < k && log[j].Stored? && log[j].player == player
    && forall i :: j < i < k ==> !(log[i].Stored? && log[i].player == player)
  }

  lemma {:induction false} EntryIsLastStored(log: Log, player: uint64) returns (j: int)
    requires player in EntriesOf(log)
    ensures LastStored(log, |log|, player, j)
    ensures EntriesOf(log)[player] ==
      Entry(log[j].session, log[j].probe.planId, DeadlineOf(log[j].started, log[j].probe))
  {
    var n := |log| - 1;
    if log[n].Stored? && log[n].player == player {
      j := n;
    } else {
      j := EntryIsLastStored(log[..n], player);
    }
  }

  lemma {:induction false} LegalAt(log: Log, k: nat)
    requires Legal(log) && k < |log|
    ensures MayFollow(log[..k], log[k])
  {
    var n := |log| - 1;
    if k < n {
      LegalAt(log[..n], k);
      assert log[..n][..k] == log[..k];
    }
  }

  lemma LastStoredUnique(log: Log, k: nat, player: uint64, i: int, j: int)
    requires k <= |log| && LastStored(log, k, player, i) && LastStored(log, k, player, j)
    ensures i == j
  {
  }

  /** A hit returns the plan of the player's last successful probe, and only to the session that probe was for. */
  lemma HitIsLastProbe(log: Log, k: nat) returns (j: int)
    requires Legal(log) && k < |log| && log[k].Hit?
    ensures LastStored(log, k, log[k].player, j)
    ensures log[j].session == log[k].session && log[j].probe.planId == log[k].planId
    ensures log[k].now < DeadlineOf(log[j].started, log[j].probe)
  {
    LegalAt(log, k);
    j := EntryIsLastStored(log[..k], log[k].player);
    assert forall i :: 0 <= i < k ==> log[..k][i] == log[i];
  }

  /** The local instant at which the servers' clock, `offset` ahead of the local one, reads the expiry. */
  function ExpiryInstant(p: Probe, offset: int): int { p.expiresMs * MS - offset }

  /** When the last sample was measured at local instant `at`, after the probe began, a hit leaves the margin
      before the true expiry, short of it at most by what the measuring stamp cut off below a millisecond. */
  lemma HitLeavesMargin(log: Log, k: nat, j: int, offset: int, at: int)
    requires Legal(log) && k < |log| && log[k].Hit? && LastStored(log, k, log[k].player, j)
    requires log[j].started <= at && (at + offset) / MS == log[j].probe.latestMs
    ensures
      var left := ExpiryInstant(log[j].probe, offset) - log[k].now;
      && left > 40_000_000_000 + (at - log[j].started) - (at + offset) % MS > 39_999_000_000
      && (at - log[j].started >= (at + offset) % MS ==> left > 40_000_000_000)
    ensures log[k].now >= log[j].started ==> log[j].probe.expiresMs - log[j].probe.latestMs > 40_000
  {
    var last := HitIsLastProbe(log, k);
    LastStoredUnique(log, k, log[k].player, j, last);
    LegalAt(log, j);
    DeadlineIsConservative(log[j].started, log[j].probe);
  }

  predicate LeavesMargin(p: Probe, offset: int, now: int) { ExpiryInstant(p, offset) - now > MARGIN }

  /** Every instant from the probe on and before the deadline leaves the margin before the true expiry. */
  ghost predicate KeepsMargin(started: int, p: Probe, offset: int) {
    forall now :: started <= now < DeadlineOf(started, p) ==> LeavesMargin(p, offset, now)
  }

  /** A stored probe keeps the margin for every later hit if and only if it is valid too briefly to be hit at all,
      or its last sample was measured after the beginning by at least the fraction of a millisecond that its stamp
      cut off. */
  lemma MarginKeptIff(started: int, p: Probe, offset: int, at: int)
    requires p.latestMs < p.expiresMs && (p.expiresMs - p.latestMs) * MS < INT64_BOUND
    requires (at + offset) / MS == p.latestMs
    ensures KeepsMargin(started, p, offset) <==>
      p.expiresMs - p.latestMs <= 40_000 || at - started >= (at + offset) % MS
  {
    DeadlineIsConservative(started, p);
    var last := DeadlineOf(started, p) - 1;
    assert ExpiryInstant(p, offset) - last == MARGIN + 1 + (at - started) - (at + offset) % MS;
    assert KeepsMargin(started, p, offset) && started <= last ==> LeavesMargin(p, offset, last);
  }

  /** A sample measured 500 000 ns into a probe, of whose stamp 999 999 ns are cut off, leaves the margin short. */
  lemma MarginMayFallShort(at: int) returns (log: Log)
    requires at == 999_999
    ensures Legal(log) && |log| == 2 && LastStored(log, 1, 7, 0) && log[1].Hit? && log[1].player == 7
    ensures log[0].started == 499_999 < at && at / MS == log[0].probe.latestMs
    ensures ExpiryInstant(log[0].probe, 0) - log[1].now < MARGIN
  {
    var session, probe := Session(1, "gate", 1), Probe("plan", 0, 100_000);
    DeadlineIsConservative(499_999, probe);
    var stored := Stored(7, session, 499_999, probe);
    var hit := Hit(7, session, "plan", DeadlineOf(499_999, probe) - 1);
    log := [stored, hit];
    assert log[..1] == [stored] && [stored][..0] == [];
    assert EntriesOf([stored]) == map[7 := Entry(session, "plan", DeadlineOf(499_999, probe))];
    assert Legal([stored]);
  }

  // ------------------------------------------------------------------ the cache

  datatype Answer = PlanId(id: string) | ProbeFailed(error: ProbeError)

  class Cache {
    var entries: map<uint64, Entry>
    ghost var log: Log

    constructor ()
      ensures Valid() && log == [] && entries == map[]
    {
      entries, log := map[], [];
    }

    ghost predicate Valid()
      reads this
    {
      Legal(log) && entries == EntriesOf(log)
    }

    /** The first critical section and the freshness test. */
    method Lookup(player: uint64, session: Session, now: int) returns (found: Option<string>)
      requires Valid()
      modifies `log
      ensures Valid()
      ensures found.Some? <==> Usable(entries, player, session, now)
      ensures log == old(log) + if found.Some? then [Hit(player, session, found.value, now)] else []
    {
      if player in entries && entries[player].session == session && now < entries[player].deadline {
        found := Some(entries[player].planId);
        ghost var hit := Hit(player, session, found.value, now);
        assert (log + [hit])[..|log|] == log;
        log := log + [hit];
      } else {
        found := None;
      }
    }

    /** The second critical section: it replaces the player's entry and leaves every other. */
    method Store(player: uint64, session: Session, started: int, probe: Probe)
      requires Valid() && probe.latestMs < probe.expiresMs
      modifies this
      ensures Valid() && log == old(log) + [Stored(player, session, started, probe)]
      ensures entries.Keys == old(entries).Keys + {player}
      ensures forall p :: p in old(entries) && p != player ==> entries[p] == old(entries)[p]
    {
      entries := entries[player := Entry(session, probe.planId, DeadlineOf(started, probe))];
      ghost var stored := Stored(player, session, started, probe);
      assert (log + [stored])[..|log|] == log;
      log := log + [stored];
    }

    /** ensure: `now` and `started` are the two readings of the clock. A failed probe changes nothing. */
    method Ensure(player: uint64, session: Session, now: int, started: int, lobby: Lobby) returns (answer: Answer)
      requires Valid()
      modifies this
      ensures Valid()
      ensures old(Usable(entries, player, session, now)) ==>
        && answer == PlanId(old(entries)[player].planId) && entries == old(entries)
        && log == old(log) + [Hit(player, session, answer.id, now)]
      ensures !old(Usable(entries, player, session, now)) && answer.PlanId? ==>
        exists receipts, probe: Probe :: ProbedBy(lobby, receipts, probe) && probe.planId == answer.id
          && log == old(log) + [Stored(player, session, started, probe)]
      ensures answer.PlanId? <==> old(Usable(entries, player, session, now)) || Succeeds(lobby)
      ensures answer.ProbeFailed? ==>
        && FailsWith(lobby, answer.error) && !old(Usable(entries, player, session, now))
        && entries == old(entries) && log == old(log)
    {
      var found := Lookup(player, session, now);
      if found.Some? { return PlanId(found.value); }
      var result, committed := RunProbe(lobby);
      match result
      case Failed(error) =>
        return ProbeFailed(error);
      case Probed(probe, _) =>
        Store(player, session, started, probe);
        return PlanId(probe.planId);
    }
  }
}
