/** The client's accounting of unread mail between two listings (robot/mail_smoke_scenario.go:673-749). */
module MailCheck {
  import opened Ints
  import opened Sorting
  import opened Mailbox
  import opened MailServer

  datatype Listing = Listing(mails: seq<View>, unread: uint32, serverNow: uint64, singlePage: bool)

  /** A view seen unread in the first listing that expires between the two. */
  predicate CountsExpired(v: View, readId: uint64, from: uint64, to: uint64) {
    v.mailId != readId && !v.isRead && from < v.expireMs <= to
  }

  function ExpiredCount(mails: seq<View>, readId: uint64, from: uint64, to: uint64): nat {
    if mails == [] then 0
    else ExpiredCount(mails[1..], readId, from, to) + if CountsExpired(mails[0], readId, from, to) then 1 else 0
  }

  function ArrivedCount(mails: seq<View>, seen: set<uint64>): nat {
    if mails == [] then 0
    else ArrivedCount(mails[1..], seen) + if mails[0].mailId !in seen && !mails[0].isRead then 1 else 0
  }

  function Expected(before: Listing, after: Listing, readId: uint64): int {
    before.unread - 1 - ExpiredCount(before.mails, readId, before.serverNow, after.serverNow)
      + ArrivedCount(after.mails, SeenIds(before.mails))
  }

  predicate Exact(before: Listing, after: Listing) { before.singlePage && after.singlePage }

  /** Exact listings must meet the expectation; over several pages the count may stay below it. */
  predicate Accepts(before: Listing, after: Listing, readId: uint64) {
    || after.unread == Expected(before, after, readId)
    || (!Exact(before, after) && after.unread < Expected(before, after, readId))
  }

  /** mailSmokeCheckUnreadAfterRead. */
  method CheckUnreadAfterRead(before: Listing, after: Listing, readId: uint64) returns (exact: bool, ok: bool)
    ensures exact <==> Exact(before, after)
    ensures ok <==> Accepts(before, after, readId)
  {
    var seen: set<uint64> := {};
    var expired, arrived := 0, 0;
    for n := 0 to |before.mails|
      invariant seen == SeenIds(before.mails[..n])
      invariant expired + ExpiredCount(before.mails[n..], readId, before.serverNow, after.serverNow)
             == ExpiredCount(before.mails, readId, before.serverNow, after.serverNow)
    {
      var m := before.mails[n];
      assert before.mails[..n + 1] == before.mails[..n] + [m];
      assert before.mails[n..][1..] == before.mails[n + 1..];
      seen := seen + {m.mailId};
      if m.mailId == readId || m.isRead { continue; }
      if m.expireMs > before.serverNow && m.expireMs <= after.serverNow {
        expired := expired + 1;
      }
    }
    assert before.mails[..|before.mails|] == before.mails;
    for n := 0 to |after.mails|
      invariant arrived + ArrivedCount(after.mails[n..], seen) == ArrivedCount(after.mails, seen)
    {
      var m := after.mails[n];
      assert after.mails[n..][1..] == after.mails[n + 1..];
      if m.mailId !in seen && !m.isRead {
        arrived := arrived + 1;
      }
    }
    var expected := before.unread - 1 - expired + arrived;
    exact := before.singlePage && after.singlePage;
    ok := after.unread == expected || (!exact && after.unread < expected);
  }

  // ------------------------------------------------------------------ counts are cardinalities

  ghost function ExpiredIds(mails: seq<View>, readId: uint64, from: uint64, to: uint64): set<uint64> {
    set v | v in mails && CountsExpired(v, readId, from, to) :: v.mailId
  }

  ghost function ArrivedIds(mails: seq<View>, seen: set<uint64>): set<uint64> {
    set v | v in mails && v.mailId !in seen && !v.isRead :: v.mailId
  }

  lemma {:induction false} ExpiredIsCardinality(mails: seq<View>, readId: uint64, from: uint64, to: uint64)
    requires DistinctBy(mails, ViewKey())
    ensures ExpiredCount(mails, readId, from, to) == |ExpiredIds(mails, readId, from, to)|
  {
    if mails != [] {
      TailKeeps(mails, ViewKey());
      ExpiredIsCardinality(mails[1..], readId, from, to);
      HeadIsNew(mails);
      var rest := ExpiredIds(mails[1..], readId, from, to);
      if CountsExpired(mails[0], readId, from, to) {
        assert ExpiredIds(mails, readId, from, to) == rest + {mails[0].mailId};
      } else {
        assert ExpiredIds(mails, readId, from, to) == rest;
      }
    }
  }

  lemma ArrivedStep(mails: seq<View>, seen: set<uint64>)
    requires mails != [] && DistinctBy(mails, ViewKey())
    ensures mails[0].mailId !in ArrivedIds(mails[1..], seen)
    ensures ArrivedIds(mails, seen) ==
      ArrivedIds(mails[1..], seen) + if mails[0].mailId !in seen && !mails[0].isRead then {mails[0].mailId} else {}
  {
    HeadIsNew(mails);
  }

  lemma {:induction false} ArrivedIsCardinality(mails: seq<View>, seen: set<uint64>)
    requires DistinctBy(mails, ViewKey())
    ensures ArrivedCount(mails, seen) == |ArrivedIds(mails, seen)|
  {
    if mails != [] {
      TailKeeps(mails, ViewKey());
      ArrivedIsCardinality(mails[1..], seen);
      ArrivedStep(mails, seen);
    }
  }

  // ------------------------------------------------------------------ honest listings

  /** A single-page listing shows exactly the visible mails of one moment; its unread count is not constrained. */
  ghost predicate ListsAll(l: Listing, box: Box, now: uint64) {
    && l.serverNow == now && l.singlePage && DistinctBy(l.mails, ViewKey())
    && (forall v :: v in l.mails ==> ShowsMail(v, box) && Visible(box[v.mailId], now))
    && forall id :: id in box && Visible(box[id], now) ==> exists v :: v in l.mails && v.mailId == id
  }

  /** The mails whose unread bit the account loses, and those it gains. */
  ghost function Lapsed(box: Box, readId: uint64, from: uint64, to: uint64): set<uint64> {
    set id | id in UnreadIds(box, from) && id != readId && box[id].expireMs <= to
  }

  ghost function Gained(was: Box, now: Box, from: uint64, to: uint64): set<uint64> {
    set id | id in UnreadIds(now, to) && !(id in was && Visible(was[id], from))
  }

  /** The unread set of the second moment: the first one without the read and the lapsed mails, plus the gained ones. */
  lemma UnreadBalance(was: Box, now: Box, readId: uint64, from: uint64, to: uint64)
    requires ClaimsAreRead(was) && ClaimsAreRead(now)
    requires Follows(was, now, readId, to)
    requires readId in UnreadIds(was, from) && (readId in now ==> now[readId].read)
    ensures UnreadIds(now, to)
         == UnreadIds(was, from) - {readId} - Lapsed(was, readId, from, to) + Gained(was, now, from, to)
    ensures |UnreadIds(now, to)|
         == |UnreadIds(was, from)| - 1 - |Lapsed(was, readId, from, to)| + |Gained(was, now, from, to)|
  {
    var u0, u1 := UnreadIds(was, from), UnreadIds(now, to);
    var lapsed, gained := Lapsed(was, readId, from, to), Gained(was, now, from, to);
    forall id ensures id in u1 <==> id in u0 - {readId} - lapsed + gained {
      if id in u1 && id !in gained {
        assert id in was && now[id].expireMs > to;
      }
    }
    assert u1 == (u0 - {readId} - lapsed) + gained;
    assert (u0 - {readId} - lapsed) !! gained;
    assert |u0 - {readId}| == |u0| - 1;
    assert lapsed <= u0 - {readId};
    assert |u0 - {readId} - lapsed| == |u0| - 1 - |lapsed|;
  }

  lemma SinglePageSets(
      before: Listing, after: Listing, was: Box, now: Box, readId: uint64, from: uint64, to: uint64)
    requires ClaimsAreRead(was) && ClaimsAreRead(now)
    requires ListsAll(before, was, from) && ListsAll(after, now, to)
    ensures ExpiredIds(before.mails, readId, from, to) == Lapsed(was, readId, from, to)
    ensures ArrivedIds(after.mails, SeenIds(before.mails)) == Gained(was, now, from, to)
  {
    forall id ensures id in ExpiredIds(before.mails, readId, from, to) <==> id in Lapsed(was, readId, from, to) {
      if id in Lapsed(was, readId, from, to) {
        var v :| v in before.mails && v.mailId == id;
        assert ShowsMail(v, was) && CountsExpired(v, readId, from, to);
      }
    }
    forall id: uint64 ensures id in SeenIds(before.mails) <==> id in was && Visible(was[id], from) {
    }
    forall id ensures id in ArrivedIds(after.mails, SeenIds(before.mails)) <==> id in Gained(was, now, from, to) {
      if id in Gained(was, now, from, to) {
        var v :| v in after.mails && v.mailId == id;
        assert ShowsMail(v, now);
      }
    }
  }

  /** Between two single-page listings the check accepts exactly the true count. */
  lemma SinglePageIsExact(
      before: Listing, after: Listing, was: Box, now: Box, readId: uint64, from: uint64, to: uint64)
    requires ClaimsAreRead(was) && ClaimsAreRead(now)
    requires Follows(was, now, readId, to)
    requires readId in UnreadIds(was, from) && (readId in now ==> now[readId].read)
    requires ListsAll(before, was, from) && ListsAll(after, now, to)
    requires before.unread == |UnreadIds(was, from)|
    ensures Accepts(before, after, readId) <==> after.unread == |UnreadIds(now, to)|
  {
    ExpiredIsCardinality(before.mails, readId, from, to);
    ArrivedIsCardinality(after.mails, SeenIds(before.mails));
    SinglePageSets(before, after, was, now, readId, from, to);
    UnreadBalance(was, now, readId, from, to);
  }

  /** The same over every run of server steps in which the named mail, and no other, is read: whatever arrives,
      expires, is claimed or swept in between, the second count is accepted exactly when it is true. */
  lemma RunIsJudgedExactly(
      boxes: seq<Box>, steps: seq<Step>, i: nat, r: nat, j: nat, before: Listing, after: Listing,
      readId: uint64, from: uint64, to: uint64)
    requires Runs(boxes, steps) && FreshIds(boxes, steps) && ClaimsAreRead(boxes[0])
    requires i <= r < j < |boxes| && steps[r] == Read(readId)
    requires forall s :: i <= s < j ==> QuietBut(steps[s], readId, to)
    requires readId in UnreadIds(boxes[i], from)
    requires ListsAll(before, boxes[i], from) && ListsAll(after, boxes[j], to)
    requires before.unread == |UnreadIds(boxes[i], from)|
    ensures Accepts(before, after, readId) <==> after.unread == |UnreadIds(boxes[j], to)|
  {
    ClaimsStayRead(boxes, steps, i);
    RunFollows(boxes, steps, i, j, readId, to);
    ReadIsKept(boxes, steps, r, j);
    SinglePageIsExact(before, after, boxes[i], boxes[j], readId, from, to);
  }

  // ------------------------------------------------------------------ several pages

  /** The first page of a listing: up to `limit` of the newest visible mails. */
  ghost predicate FirstPage(page: seq<View>, box: Box, now: uint64, limit: nat) {
    && DistinctBy(page, ViewKey()) && |page| <= limit
    && (forall v :: v in page ==> ShowsMail(v, box) && Visible(box[v.mailId], now))
    && forall id :: id in box && Visible(box[id], now) && id !in SeenIds(page) ==>
         && |page| == limit
         && forall v :: v in page ==> Older(id, box[id], v.mailId, box[v.mailId])
  }

  /** A listing over several pages: the first page of one moment, then views of older mails of that moment
      as some later moment shows them. */
  ghost predicate ListsPaged(l: Listing, first: seq<View>, box: Box, now: uint64, readId: uint64, limit: nat) {
    && l.serverNow == now && DistinctBy(l.mails, ViewKey())
    && first <= l.mails && FirstPage(first, box, now, limit)
    && forall v :: v in l.mails ==>
         && v.mailId in box && v.expireMs == box[v.mailId].expireMs
         && (v.mailId != readId ==> v.isRead == box[v.mailId].read)
  }

  /** A later page asks for mails older than one already listed, so it shows no mail that arrived since. */
  lemma LaterPageShowsOldMail(was: Box, later: Box, readId: uint64, at: uint64, cursor: uint64, id: uint64)
    requires Follows(was, later, readId, at) && NewestFirst(was, later)
    requires cursor in was && id in later && Older(id, later[id], cursor, was[cursor])
    ensures id in was
    ensures later[id].expireMs == was[id].expireMs
    ensures id != readId ==> later[id].read == was[id].read
  {
  }

  ghost function NewIds(was: Box, now: Box, to: uint64): set<uint64> {
    set id | id in now && id !in was && Visible(now[id], to)
  }

  /** A page that misses a new mail is full of newer, hence new, mails. */
  lemma NewMailOnFirstPage(first: seq<View>, was: Box, now: Box, readId: uint64, to: uint64, limit: nat, id: uint64)
    requires Follows(was, now, readId, to) && NewestFirst(was, now) && FirstPage(first, now, to, limit)
    requires |NewIds(was, now, to)| <= limit && id in NewIds(was, now, to)
    ensures id in SeenIds(first)
  {
    if id !in SeenIds(first) {
      forall v | v in first ensures v.mailId in NewIds(was, now, to) - {id} {
        assert ShowsMail(v, now) && Older(id, now[id], v.mailId, now[v.mailId]);
      }
      SeenIdsSize(first);
      SubsetSize(SeenIds(first), NewIds(was, now, to) - {id});
    }
  }

  /** The mails shown expiring and the mails gained are together no more than the mails lapsed and the mails shown
      arriving. */
  ghost predicate Covers(
      before: Listing, after: Listing, was: Box, now: Box, readId: uint64, from: uint64, to: uint64)
  {
    |ExpiredIds(before.mails, readId, from, to)| + |Gained(was, now, from, to)|
      <= |Lapsed(was, readId, from, to)| + |ArrivedIds(after.mails, SeenIds(before.mails))|
  }

  /** Whatever two listings without repeats show, the expectation misses the truth by what they hide and add: so a
      true count is accepted over several pages if and only if the account covers. */
  lemma TruthAcceptedIff(
      before: Listing, after: Listing, was: Box, now: Box, readId: uint64, from: uint64, to: uint64)
    requires ClaimsAreRead(was) && ClaimsAreRead(now) && Follows(was, now, readId, to)
    requires readId in UnreadIds(was, from) && (readId in now ==> now[readId].read)
    requires before.serverNow == from && after.serverNow == to
    requires DistinctBy(before.mails, ViewKey()) && DistinctBy(after.mails, ViewKey())
    requires before.unread == |UnreadIds(was, from)| && after.unread == |UnreadIds(now, to)|
    requires !Exact(before, after)
    ensures Accepts(before, after, readId) <==> Covers(before, after, was, now, readId, from, to)
  {
    ExpiredIsCardinality(before.mails, readId, from, to);
    ArrivedIsCardinality(after.mails, SeenIds(before.mails));
    UnreadBalance(was, now, readId, from, to);
  }

  /** Over several pages, with at most one page of new mail, which sorts first, the account covers: the check raises
      no false alarm. */
  lemma PagedNeverAlarms(
      before: Listing, after: Listing, firstBefore: seq<View>, firstAfter: seq<View>,
      was: Box, now: Box, readId: uint64, from: uint64, to: uint64, limit: nat)
    requires ClaimsAreRead(was) && ClaimsAreRead(now)
    requires Follows(was, now, readId, to) && NewestFirst(was, now) && from <= to
    requires readId in UnreadIds(was, from) && (readId in now ==> now[readId].read)
    requires ListsPaged(before, firstBefore, was, from, readId, limit)
    requires ListsPaged(after, firstAfter, now, to, readId, limit)
    requires |NewIds(was, now, to)| <= limit
    requires before.unread == |UnreadIds(was, from)|
    ensures Covers(before, after, was, now, readId, from, to)
    ensures !Exact(before, after) && after.unread == |UnreadIds(now, to)| ==> Accepts(before, after, readId)
  {
    assert ExpiredIds(before.mails, readId, from, to) <= Lapsed(was, readId, from, to);
    SubsetSize(ExpiredIds(before.mails, readId, from, to), Lapsed(was, readId, from, to));
    assert Gained(was, now, from, to) <= ArrivedIds(after.mails, SeenIds(before.mails)) by {
      forall id | id in Gained(was, now, from, to) ensures id in ArrivedIds(after.mails, SeenIds(before.mails)) {
        assert id !in was;
        NewMailOnFirstPage(firstAfter, was, now, readId, to, limit, id);
        var v :| v in firstAfter && v.mailId == id;
        assert v in after.mails && ShowsMail(v, now);
      }
    }
    SubsetSize(Gained(was, now, from, to), ArrivedIds(after.mails, SeenIds(before.mails)));
    if !Exact(before, after) && after.unread == |UnreadIds(now, to)| {
      TruthAcceptedIff(before, after, was, now, readId, from, to);
    }
  }
}
