/** The mailbox of one player as the mail server keeps it (go/mail/internal/data/inbox.go:80-140,
    go/mail/internal/data/claim.go:70, go/mail/internal/data/sweep.go:18-22): what is visible, in which
    order, and which steps change it between two listings. */
module Mailbox {
  import opened Ints

  datatype Claim = NoClaim | Unclaimed | Pending | Claimed | Manual

  datatype Mail = Mail(sentMs: uint64, expireMs: uint64, read: bool, claim: Claim)

  type Box = map<uint64, Mail>

  /** A mail whose claim is under way or needs a hand stays visible after it has expired. */
  predicate Retained(m: Mail) { m.claim.Pending? || m.claim.Manual? }

  predicate Visible(m: Mail, now: uint64) { m.expireMs > now || Retained(m) }

  /** The order of listings is by sending time, then by id. */
  predicate Older(a: uint64, x: Mail, b: uint64, y: Mail) {
    x.sentMs < y.sentMs || (x.sentMs == y.sentMs && a < b)
  }

  ghost function UnreadIds(box: Box, now: uint64): set<uint64> {
    set id | id in box && Visible(box[id], now) && !box[id].read
  }

  /** Starting a claim marks the mail read, so whatever outlives its expiry is read. */
  predicate ClaimsAreRead(box: Box) {
    forall id :: id in box && Retained(box[id]) ==> box[id].read
  }

  datatype Step =
    | Arrive(id: uint64, mail: Mail)
    | Read(id: uint64)
    | BeginClaim(id: uint64)
    | EndClaim(id: uint64, outcome: Claim)
    | Sweep(id: uint64, cutoff: uint64)

  /** When the server takes a step; new mail starts unread and unclaimed, under an id of its own but not 0. */
  predicate Enabled(box: Box, step: Step) {
    match step
    case Arrive(id, m) => id !in box && id != 0 && !m.read && (m.claim.NoClaim? || m.claim.Unclaimed?)
    case Read(id) => id in box
    case BeginClaim(id) => id in box && box[id].claim.Unclaimed?
    case EndClaim(id, outcome) => id in box && box[id].claim.Pending? && !outcome.Pending?
    case Sweep(id, cutoff) => id in box && box[id].expireMs < cutoff && !Retained(box[id])
  }

  function Apply(box: Box, step: Step): Box {
    match step
    case Arrive(id, m) => box[id := m]
    case Read(id) => if id in box then box[id := box[id].(read := true)] else box
    case BeginClaim(id) => if id in box then box[id := box[id].(claim := Pending, read := true)] else box
    case EndClaim(id, outcome) => if id in box then box[id := box[id].(claim := outcome)] else box
    case Sweep(id, cutoff) => box - {id}
  }

  /** Every server step keeps retained mails read. */
  lemma StepKeepsClaimsRead(box: Box, step: Step)
    requires ClaimsAreRead(box) && Enabled(box, step)
    ensures ClaimsAreRead(Apply(box, step))
  {
  }

  // ------------------------------------------------------------------ runs

  /** A run of server steps. */
  ghost predicate Runs(boxes: seq<Box>, steps: seq<Step>) {
    && |boxes| == |steps| + 1
    && forall i :: 0 <= i < |steps| ==> Enabled(boxes[i], steps[i]) && boxes[i + 1] == Apply(boxes[i], steps[i])
  }

  lemma {:induction false} ClaimsStayRead(boxes: seq<Box>, steps: seq<Step>, i: nat)
    requires Runs(boxes, steps) && ClaimsAreRead(boxes[0]) && i < |boxes|
    ensures ClaimsAreRead(boxes[i])
  {
    if i > 0 {
      ClaimsStayRead(boxes, steps, i - 1);
      assert Enabled(boxes[i - 1], steps[i - 1]) && boxes[i] == Apply(boxes[i - 1], steps[i - 1]);
      StepKeepsClaimsRead(boxes[i - 1], steps[i - 1]);
    }
  }

  /** A mail id, once swept, is not handed out again. */
  ghost predicate FreshIds(boxes: seq<Box>, steps: seq<Step>) {
    forall i, j :: 0 <= i < |steps| && 0 <= j <= i < |boxes| && steps[i].Arrive? ==> steps[i].id !in boxes[j]
  }

  /** A step that reads, or claims, no mail but the named one, and sweeps none before its time. */
  predicate QuietBut(step: Step, readId: uint64, now: uint64) {
    && (step.Read? ==> step.id == readId)
    && (step.BeginClaim? ==> step.id == readId)
    && (step.Sweep? ==> step.cutoff <= now)
  }

  /** What quiet steps preserve. */
  ghost predicate Follows(was: Box, now: Box, readId: uint64, at: uint64) {
    && (forall id :: id in was && id in now ==>
          now[id].expireMs == was[id].expireMs && now[id].sentMs == was[id].sentMs
          && (was[id].read ==> now[id].read) && (now[id].read && id != readId ==> was[id].read))
    && forall id :: id in was && id !in now ==> was[id].expireMs <= at
  }

  lemma StepFollows(was: Box, box: Box, step: Step, readId: uint64, at: uint64)
    requires Follows(was, box, readId, at) && Enabled(box, step) && QuietBut(step, readId, at)
    requires step.Arrive? ==> step.id !in was
    ensures Follows(was, Apply(box, step), readId, at)
  {
  }

  /** Between any two moments of a run of quiet steps the later box follows the earlier one, and retained mails
      stay read. */
  lemma {:induction false} RunFollows(boxes: seq<Box>, steps: seq<Step>, i: nat, j: nat, readId: uint64, at: uint64)
    requires Runs(boxes, steps) && FreshIds(boxes, steps) && i <= j < |boxes| && ClaimsAreRead(boxes[i])
    requires forall s :: i <= s < j ==> QuietBut(steps[s], readId, at)
    ensures Follows(boxes[i], boxes[j], readId, at) && ClaimsAreRead(boxes[j])
  {
    if i < j {
      var n := j - 1;
      RunFollows(boxes, steps, i, n, readId, at);
      assert Enabled(boxes[n], steps[n]) && boxes[n + 1] == Apply(boxes[n], steps[n]) && QuietBut(steps[n], readId, at);
      StepKeepsClaimsRead(boxes[n], steps[n]);
      StepFollows(boxes[i], boxes[n], steps[n], readId, at);
    }
  }

  /** A mail that was read stays read as long as it is there. */
  lemma {:induction false} ReadIsKept(boxes: seq<Box>, steps: seq<Step>, r: nat, j: nat)
    requires Runs(boxes, steps) && FreshIds(boxes, steps)
    requires r < j < |boxes| && steps[r].Read?
    ensures steps[r].id in boxes[j] ==> boxes[j][steps[r].id].read
  {
    var n, id := j - 1, steps[r].id;
    assert Enabled(boxes[r], steps[r]) && id in boxes[r];
    assert boxes[n + 1] == Apply(boxes[n], steps[n]);
    if r < n {
      ReadIsKept(boxes, steps, r, n);
      assert steps[n].Arrive? ==> steps[n].id !in boxes[r];
    }
  }

  // ------------------------------------------------------------------ the order of arrivals

  /** What arrived between two moments sorts above all that was there. */
  ghost predicate NewestFirst(was: Box, now: Box) {
    forall id, other :: id in now && id !in was && other in was ==> Older(other, was[other], id, now[id])
  }

  /** Every mail arrives above everything that was ever there: a clock that advances between arrivals. */
  ghost predicate NewestArrives(boxes: seq<Box>, steps: seq<Step>) {
    forall i, j, other :: 0 <= j <= i < |steps| && j < |boxes| && steps[i].Arrive? && other in boxes[j] ==>
      Older(other, boxes[j][other], steps[i].id, steps[i].mail)
  }

  lemma {:induction false} ArrivalsNewest(boxes: seq<Box>, steps: seq<Step>, i: nat, j: nat)
    requires Runs(boxes, steps) && NewestArrives(boxes, steps) && i <= j < |boxes|
    ensures NewestFirst(boxes[i], boxes[j])
  {
    if i < j {
      var n := j - 1;
      ArrivalsNewest(boxes, steps, i, n);
      assert Enabled(boxes[n], steps[n]) && boxes[n + 1] == Apply(boxes[n], steps[n]);
      forall id, other | id in boxes[j] && id !in boxes[i] && other in boxes[i]
        ensures Older(other, boxes[i][other], id, boxes[j][id])
      {
        if id in boxes[n] { assert Older(other, boxes[i][other], id, boxes[n][id]); }
      }
    }
  }
}
