/** The unread account over runs of the server: each page of a listing is served from the mailbox of its own
    moment, while mails arrive, expire, are claimed and swept. */
module MailRuns {
  import opened Ints
  import opened Sorting
  import opened Mailbox
  import opened MailServer
  import opened MailCheck
  import opened MailPages

  /** A listing under way: the answers, where in the run each page was served, and at which time. */
  datatype Reading = Reading(answer: Answers, at: nat -> nat, now: nat -> uint64)

  ghost predicate Served(r: Reading, boxes: seq<Box>) {
    && (forall k: nat {:trigger r.at(k)} :: r.at(0) <= r.at(k) < |boxes|)
    && forall k: nat {:trigger Asked(r.answer, k)} :: Asked(r.answer, k) ==>
         Serves(r.answer(k), boxes[r.at(k)], r.now(k), CursorAt(r.answer, k), PAGE_SIZE)
  }

  const END_OF_TIME: uint64 := UINT64_BOUND - 1

  // ------------------------------------------------------------------ gathering pages

  /** Views, newest first, of mails that were there at the first page, unchanged but for the mail read. */
  ghost predicate Gathered(mails: seq<View>, box: Box, readId: uint64) {
    && Descending(mails)
    && forall v :: v in mails ==> ShowsOld(v, box, readId)
  }

  predicate ShowsOld(v: View, box: Box, readId: uint64) {
    && v.mailId in box && v.sentMs == box[v.mailId].sentMs && v.expireMs == box[v.mailId].expireMs
    && (v.mailId != readId ==> v.isRead == box[v.mailId].read)
  }

  lemma GatheredDistinct(mails: seq<View>, box: Box, readId: uint64)
    requires Gathered(mails, box, readId)
    ensures DistinctBy(mails, ViewKey())
  {
    forall i, j | 0 <= i < j < |mails| ensures mails[i].mailId != mails[j].mailId {
      assert mails[i] in mails && mails[j] in mails && OlderView(mails[j], mails[i]);
      assert ShowsOld(mails[i], box, readId) && ShowsOld(mails[j], box, readId);
    }
  }

  lemma DescendingAppend(a: seq<View>, b: seq<View>)
    requires Descending(a) && Descending(b)
    requires a != [] && forall v :: v in b ==> OlderView(v, a[|a| - 1])
    ensures Descending(a + b)
  {
    var c := a + b;
    forall i, j | 0 <= i < j < |c| ensures OlderView(c[j], c[i]) {
      if i < |a| <= j {
        assert c[j] in b && OlderView(c[j], a[|a| - 1]);
        if i < |a| - 1 { assert OlderView(a[|a| - 1], a[i]); }
      }
    }
  }

  /** The mails of a page are a beginning of its rows, and its cursor is its last mail. */
  lemma PageOfRows(page: Response, rows: seq<View>)
    requires page.Page? && IsPageOf(page, rows, PAGE_SIZE) && Descending(rows)
    ensures Descending(page.mails) && forall v :: v in page.mails ==> v in rows
    ensures page.next != 0 ==> page.mails != [] && page.mails[|page.mails| - 1].mailId == page.next
  {
  }

  /** A page behind the last mail gathered adds only mails that were there at the first page. */
  lemma PageExtends(
      mails: seq<View>, page: Response, was: Box, later: Box, now: uint64, readId: uint64)
    requires Gathered(mails, was, readId) && mails != [] && 0 !in was
    requires Follows(was, later, readId, END_OF_TIME) && NewestFirst(was, later)
    requires Serves(page, later, now, mails[|mails| - 1].mailId, PAGE_SIZE)
    ensures Gathered(mails + page.mails, was, readId)
    ensures page.next != 0 ==> page.mails != [] && page.mails[|page.mails| - 1].mailId == page.next
  {
    var last := mails[|mails| - 1];
    var cursor := last.mailId;
    assert last in mails && ShowsOld(last, was, readId);
    if cursor !in later {
      assert mails + page.mails == mails;
    } else {
      var rows :| Rows(rows, later, now, cursor) && IsPageOf(page, rows, PAGE_SIZE);
      PageOfRows(page, rows);
      forall v | v in page.mails ensures ShowsOld(v, was, readId) && OlderView(v, last) {
        assert v in rows && ShowsMail(v, later) && BehindCursor(later, cursor, v.mailId);
        LaterPageShowsOldMail(was, later, readId, END_OF_TIME, cursor, v.mailId);
      }
      DescendingAppend(mails, page.mails);
    }
  }

  lemma MissedIsOlder(page: Response, rows: seq<View>, box: Box, now: uint64, id: uint64)
    requires Rows(rows, box, now, 0) && page.Page? && IsPageOf(page, rows, PAGE_SIZE)
    requires id in box && Visible(box[id], now) && id !in SeenIds(page.mails)
    ensures |page.mails| == PAGE_SIZE && forall v :: v in page.mails ==> Older(id, box[id], v.mailId, box[v.mailId])
  {
    assert BehindCursor(box, 0, id);
    var w: View :| w in rows && w.mailId == id;
    assert w !in page.mails;
    var k :| 0 <= k < |rows| && rows[k] == w;
    forall v | v in page.mails ensures Older(id, box[id], v.mailId, box[v.mailId]) {
      var m :| 0 <= m < |page.mails| && page.mails[m] == v;
      assert rows[m] == v && ShowsMail(rows[m], box) && ShowsMail(rows[k], box);
      assert OlderView(rows[k], rows[m]);
    }
  }

  /** The first page: gathered, a page of the newest, and everything when no cursor follows. */
  lemma FirstPageGathers(page: Response, box: Box, now: uint64, readId: uint64)
    requires Serves(page, box, now, 0, PAGE_SIZE) && 0 !in box
    ensures Gathered(page.mails, box, readId) && FirstPage(page.mails, box, now, PAGE_SIZE)
    ensures page.next != 0 ==> page.mails != [] && page.mails[|page.mails| - 1].mailId == page.next
    ensures page.next == 0 ==> Rows(page.mails, box, now, 0)
  {
    var rows :| Rows(rows, box, now, 0) && IsPageOf(page, rows, PAGE_SIZE);
    PageOfRows(page, rows);
    forall v | v in page.mails ensures ShowsOld(v, box, readId) { assert v in rows && ShowsMail(v, box); }
    GatheredDistinct(page.mails, box, readId);
    forall id | id in box && Visible(box[id], now) && id !in SeenIds(page.mails)
      ensures |page.mails| == PAGE_SIZE && forall v :: v in page.mails ==> Older(id, box[id], v.mailId, box[v.mailId])
    {
      MissedIsOlder(page, rows, box, now, id);
    }
    if |rows| > PAGE_SIZE {
      assert rows[PAGE_SIZE - 1] in rows && ShowsMail(rows[PAGE_SIZE - 1], box);
    }
  }

  // ------------------------------------------------------------------ pages of any run

  /** A mail keeps its sending time as long as it is there, and its id is not handed out again. */
  lemma {:induction false} SentOnce(boxes: seq<Box>, steps: seq<Step>, i: nat, j: nat, id: uint64)
    requires Runs(boxes, steps) && FreshIds(boxes, steps) && i <= j < |boxes|
    requires id in boxes[i] && id in boxes[j]
    ensures boxes[i][id].sentMs == boxes[j][id].sentMs
  {
    if i < j {
      assert Enabled(boxes[j - 1], steps[j - 1]) && boxes[j] == Apply(boxes[j - 1], steps[j - 1]);
      assert steps[j - 1].Arrive? ==> steps[j - 1].id !in boxes[i];
      SentOnce(boxes, steps, i, j - 1, id);
    }
  }

  predicate ShowsAt(v: View, box: Box) { v.mailId in box && v.sentMs == box[v.mailId].sentMs }

  /** Every view shows the sending time that its mail has at some moment of the run, and so at all. */
  ghost predicate Placed(mails: seq<View>, boxes: seq<Box>) {
    forall v :: v in mails ==> exists i :: 0 <= i < |boxes| && ShowsAt(v, boxes[i])
  }

  lemma SameSending(boxes: seq<Box>, steps: seq<Step>, v: View, w: View, mails: seq<View>, others: seq<View>)
    requires Runs(boxes, steps) && FreshIds(boxes, steps) && Placed(mails, boxes) && Placed(others, boxes)
    requires v in mails && w in others && v.mailId == w.mailId
    ensures v.sentMs == w.sentMs
  {
    var i :| 0 <= i < |boxes| && ShowsAt(v, boxes[i]);
    var j :| 0 <= j < |boxes| && ShowsAt(w, boxes[j]);
    if i <= j { SentOnce(boxes, steps, i, j, v.mailId); } else { SentOnce(boxes, steps, j, i, v.mailId); }
  }

  lemma PlacedDistinct(boxes: seq<Box>, steps: seq<Step>, mails: seq<View>)
    requires Runs(boxes, steps) && FreshIds(boxes, steps) && Placed(mails, boxes) && Descending(mails)
    ensures DistinctBy(mails, ViewKey())
  {
    forall i, j | 0 <= i < j < |mails| ensures mails[i].mailId != mails[j].mailId {
      assert OlderView(mails[j], mails[i]) && mails[i] in mails && mails[j] in mails;
      if mails[i].mailId == mails[j].mailId { SameSending(boxes, steps, mails[i], mails[j], mails, mails); }
    }
  }

  /** Whatever happens to the mailbox between pages, a page behind the last mail gathered adds older mails only. */
  lemma PageAppends(
      mails: seq<View>, page: Response, boxes: seq<Box>, steps: seq<Step>, at: nat, now: uint64)
    requires Runs(boxes, steps) && FreshIds(boxes, steps) && Placed(mails, boxes) && Descending(mails)
    requires mails != [] && at < |boxes|
    requires Serves(page, boxes[at], now, mails[|mails| - 1].mailId, PAGE_SIZE) && mails[|mails| - 1].mailId != 0
    ensures Placed(mails + page.mails, boxes) && Descending(mails + page.mails)
    ensures page.next != 0 ==> page.mails != [] && page.mails[|page.mails| - 1].mailId == page.next
  {
    var last, box := mails[|mails| - 1], boxes[at];
    assert last in mails;
    if last.mailId !in box {
      assert mails + page.mails == mails;
    } else {
      var rows :| Rows(rows, box, now, last.mailId) && IsPageOf(page, rows, PAGE_SIZE);
      PageOfRows(page, rows);
      var i :| 0 <= i < |boxes| && ShowsAt(last, boxes[i]);
      if i <= at { SentOnce(boxes, steps, i, at, last.mailId); } else { SentOnce(boxes, steps, at, i, last.mailId); }
      forall v | v in page.mails ensures ShowsAt(v, box) && OlderView(v, last) {
        assert v in rows && ShowsMail(v, box) && BehindCursor(box, last.mailId, v.mailId);
      }
      DescendingAppend(mails, page.mails);
    }
  }

  lemma StartPlaces(page: Response, boxes: seq<Box>, at: nat, now: uint64)
    requires at < |boxes| && Serves(page, boxes[at], now, 0, PAGE_SIZE)
    ensures Placed(page.mails, boxes) && Descending(page.mails)
    ensures page.next != 0 ==> page.mails != [] && page.mails[|page.mails| - 1].mailId == page.next
  {
    var rows :| Rows(rows, boxes[at], now, 0) && IsPageOf(page, rows, PAGE_SIZE);
    PageOfRows(page, rows);
    forall v | v in page.mails ensures ShowsAt(v, boxes[at]) { assert v in rows && ShowsMail(v, boxes[at]); }
  }

  lemma PlacesPage(r: Reading, boxes: seq<Box>, steps: seq<Step>, k: nat)
    requires Runs(boxes, steps) && FreshIds(boxes, steps) && Served(r, boxes) && Asked(r.answer, k)
    requires Placed(Concat(r.answer, k), boxes) && Descending(Concat(r.answer, k))
    requires k > 0 ==>
      && Concat(r.answer, k) != [] && CursorAt(r.answer, k) == Concat(r.answer, k)[|Concat(r.answer, k)| - 1].mailId
    ensures r.answer(k).Page? && Concat(r.answer, k + 1) == Concat(r.answer, k) + r.answer(k).mails
    ensures Placed(Concat(r.answer, k + 1), boxes) && Descending(Concat(r.answer, k + 1))
    ensures r.answer(k).next != 0 ==>
      && r.answer(k).mails != [] && r.answer(k).mails[|r.answer(k).mails| - 1].mailId == r.answer(k).next
  {
    assert 0 <= r.at(k) < |boxes|;
    if k == 0 {
      StartPlaces(r.answer(0), boxes, r.at(0), r.now(0));
      assert Concat(r.answer, 1) == r.answer(0).mails;
    } else {
      PageAppends(Concat(r.answer, k), r.answer(k), boxes, steps, r.at(k), r.now(k));
    }
  }

  lemma {:induction false} PagesPlace(r: Reading, boxes: seq<Box>, steps: seq<Step>, n: nat)
    requires Runs(boxes, steps) && FreshIds(boxes, steps) && Served(r, boxes) && ReadsTo(r.answer, n)
    ensures Asked(r.answer, n) && Placed(Concat(r.answer, n), boxes) && Descending(Concat(r.answer, n))
    ensures n > 0 ==>
      && Concat(r.answer, n) != [] && CursorAt(r.answer, n) == Concat(r.answer, n)[|Concat(r.answer, n)| - 1].mailId
  {
    if n > 0 {
      assert LeadsOn(r.answer, n - 1);
      PagesPlace(r, boxes, steps, n - 1);
      PlacesPage(r, boxes, steps, n - 1);
    }
  }

  /** How many pages a listing took. */
  function PagesRead(n: nat): nat { if n == MAX_PAGES then n else n + 1 }

  /** Over any run a finished listing shows no mail twice. */
  lemma ReadingIsDistinct(r: Reading, boxes: seq<Box>, steps: seq<Step>, n: nat, l: Listing)
    requires Runs(boxes, steps) && FreshIds(boxes, steps) && Served(r, boxes)
    requires EndsAt(r.answer, n, Listed(l))
    ensures DistinctBy(l.mails, ViewKey())
    ensures r.answer(0).Page? && l.serverNow == r.now(0) && l.unread == r.answer(0).unread
  {
    PagesPlace(r, boxes, steps, n);
    if n < MAX_PAGES { PlacesPage(r, boxes, steps, n); }
    assert l.mails == Concat(r.answer, PagesRead(n));
    PlacedDistinct(boxes, steps, l.mails);
    assert Asked(r.answer, 0);
  }

  /** Over every run in which, between the first pages, only the named mail is read, and in whatever order new mail
      sorts: a true count is accepted over several pages if and only if the account covers. */
  lemma TrueCountAcceptedIff(
      boxes: seq<Box>, steps: seq<Step>, first: Reading, second: Reading, m: nat, n: nat,
      before: Listing, after: Listing, readId: uint64, read: nat)
    requires Runs(boxes, steps) && FreshIds(boxes, steps) && ClaimsAreRead(boxes[0])
    requires Served(first, boxes) && Served(second, boxes)
    requires first.at(0) <= read < second.at(0) && steps[read] == Read(readId)
    requires forall s :: first.at(0) <= s < second.at(0) ==> QuietBut(steps[s], readId, second.now(0))
    requires readId in UnreadIds(boxes[first.at(0)], first.now(0))
    requires CountsTruly(first.answer(0), boxes[first.at(0)], first.now(0))
    requires CountsTruly(second.answer(0), boxes[second.at(0)], second.now(0))
    requires EndsAt(first.answer, m, Listed(before)) && EndsAt(second.answer, n, Listed(after))
    requires !Exact(before, after)
    ensures Accepts(before, after, readId) <==>
      Covers(before, after, boxes[first.at(0)], boxes[second.at(0)], readId, first.now(0), second.now(0))
  {
    var i, j := first.at(0), second.at(0);
    ReadingIsDistinct(first, boxes, steps, m, before);
    ReadingIsDistinct(second, boxes, steps, n, after);
    ClaimsStayRead(boxes, steps, i);
    RunFollows(boxes, steps, i, j, readId, second.now(0));
    ReadIsKept(boxes, steps, read, j);
    TruthAcceptedIff(before, after, boxes[i], boxes[j], readId, first.now(0), second.now(0));
  }

  // ------------------------------------------------------------------ a whole reading

  lemma {:induction false} ZeroIsNoId(boxes: seq<Box>, steps: seq<Step>, i: nat)
    requires Runs(boxes, steps) && 0 !in boxes[0] && i < |boxes|
    ensures 0 !in boxes[i]
  {
    if i > 0 {
      ZeroIsNoId(boxes, steps, i - 1);
      assert Enabled(boxes[i - 1], steps[i - 1]) && boxes[i] == Apply(boxes[i - 1], steps[i - 1]);
    }
  }

  /** A run that keeps ids fresh, sorts new mail first and starts with claims read. */
  ghost predicate Orderly(boxes: seq<Box>, steps: seq<Step>) {
    && Runs(boxes, steps) && FreshIds(boxes, steps) && NewestArrives(boxes, steps)
    && ClaimsAreRead(boxes[0]) && 0 !in boxes[0]
  }

  /** No mail but the named one is read from moment `i` to the end. */
  predicate OnlyReads(steps: seq<Step>, i: nat, readId: uint64) {
    forall s :: i <= s < |steps| ==> QuietBut(steps[s], readId, END_OF_TIME)
  }

  lemma LaterFollows(boxes: seq<Box>, steps: seq<Step>, i: nat, j: nat, readId: uint64)
    requires Orderly(boxes, steps) && i <= j < |boxes| && OnlyReads(steps, i, readId)
    ensures Follows(boxes[i], boxes[j], readId, END_OF_TIME) && NewestFirst(boxes[i], boxes[j]) && 0 !in boxes[i]
  {
    ClaimsStayRead(boxes, steps, i);
    RunFollows(boxes, steps, i, j, readId, END_OF_TIME);
    ArrivalsNewest(boxes, steps, i, j);
    ZeroIsNoId(boxes, steps, i);
  }

  /** After the pages that led on, everything gathered was there at the first page, and the next cursor is the
      last mail gathered. */
  lemma {:induction false} PagesGather(r: Reading, boxes: seq<Box>, steps: seq<Step>, readId: uint64, n: nat)
    requires Orderly(boxes, steps) && Served(r, boxes) && OnlyReads(steps, r.at(0), readId)
    requires ReadsTo(r.answer, n)
    ensures Asked(r.answer, n) && Gathered(Concat(r.answer, n), boxes[r.at(0)], readId)
    ensures n > 0 ==>
      && Concat(r.answer, n) != [] && CursorAt(r.answer, n) == Concat(r.answer, n)[|Concat(r.answer, n)| - 1].mailId
  {
    if n > 0 {
      assert LeadsOn(r.answer, n - 1);
      PagesGather(r, boxes, steps, readId, n - 1);
      PageGathers(r, boxes, steps, readId, n - 1);
    }
  }

  lemma PageGathers(r: Reading, boxes: seq<Box>, steps: seq<Step>, readId: uint64, k: nat)
    requires Orderly(boxes, steps) && Served(r, boxes) && OnlyReads(steps, r.at(0), readId)
    requires Asked(r.answer, k) && Gathered(Concat(r.answer, k), boxes[r.at(0)], readId)
    requires k > 0 ==>
      && Concat(r.answer, k) != [] && CursorAt(r.answer, k) == Concat(r.answer, k)[|Concat(r.answer, k)| - 1].mailId
    ensures r.answer(k).Page? && Gathered(Concat(r.answer, k + 1), boxes[r.at(0)], readId)
    ensures Concat(r.answer, k + 1) == Concat(r.answer, k) + r.answer(k).mails
    ensures r.answer(k).next != 0 ==>
      && r.answer(k).mails != [] && r.answer(k).mails[|r.answer(k).mails| - 1].mailId == r.answer(k).next
  {
    var was, later := boxes[r.at(0)], boxes[r.at(k)];
    LaterFollows(boxes, steps, r.at(0), r.at(k), readId);
    if k == 0 {
      FirstPageGathers(r.answer(0), was, r.now(0), readId);
      assert Concat(r.answer, 1) == r.answer(0).mails;
    } else {
      PageExtends(Concat(r.answer, k), r.answer(k), was, later, r.now(k), readId);
    }
  }

  lemma {:induction false} FirstPagePrefix(answer: Answers, n: nat)
    requires n > 0 && answer(0).Page?
    ensures answer(0).mails <= Concat(answer, n)
  {
    if n > 1 {
      FirstPagePrefix(answer, n - 1);
    } else {
      assert Concat(answer, 0) == [];
    }
  }

  lemma ReadingGathers(r: Reading, boxes: seq<Box>, steps: seq<Step>, readId: uint64, n: nat, l: Listing)
    requires Orderly(boxes, steps) && Served(r, boxes) && OnlyReads(steps, r.at(0), readId)
    requires EndsAt(r.answer, n, Listed(l))
    ensures l.mails == Concat(r.answer, PagesRead(n)) && Gathered(l.mails, boxes[r.at(0)], readId)
  {
    PagesGather(r, boxes, steps, readId, n);
    if n < MAX_PAGES { PageGathers(r, boxes, steps, readId, n); }
  }

  lemma OnlyPage(answer: Answers, n: nat, l: Listing)
    requires EndsAt(answer, n, Listed(l)) && l.singlePage
    ensures answer(0).Page? && answer(0).next == 0 && l.mails == answer(0).mails
  {
    assert n > 0 ==> LeadsOn(answer, 0);
    assert Concat(answer, 1) == Concat(answer, 0) + answer(0).mails == answer(0).mails;
  }

  /** However the mailbox changes between its pages, a finished listing is one of its first page's moment, and it
      is complete when that page was the only one. */
  lemma ReadingIsPaged(r: Reading, boxes: seq<Box>, steps: seq<Step>, readId: uint64, n: nat, l: Listing)
    requires Orderly(boxes, steps) && Served(r, boxes) && OnlyReads(steps, r.at(0), readId)
    requires EndsAt(r.answer, n, Listed(l))
    ensures r.answer(0).Page? && l.unread == r.answer(0).unread
    ensures ListsPaged(l, r.answer(0).mails, boxes[r.at(0)], r.now(0), readId, PAGE_SIZE)
    ensures l.singlePage ==> ListsAll(l, boxes[r.at(0)], r.now(0))
  {
    var was := boxes[r.at(0)];
    assert Asked(r.answer, 0);
    LaterFollows(boxes, steps, r.at(0), r.at(0), readId);
    FirstPageGathers(r.answer(0), was, r.now(0), readId);
    ReadingGathers(r, boxes, steps, readId, n, l);
    FirstPagePrefix(r.answer, PagesRead(n));
    PagedFrom(l, r.answer(0).mails, was, r.now(0), readId);
    if l.singlePage {
      OnlyPage(r.answer, n, l);
      AllFrom(l, was, r.now(0));
    }
  }

  lemma PagedFrom(l: Listing, first: seq<View>, box: Box, now: uint64, readId: uint64)
    requires Gathered(l.mails, box, readId) && FirstPage(first, box, now, PAGE_SIZE)
    requires first <= l.mails && l.serverNow == now
    ensures ListsPaged(l, first, box, now, readId, PAGE_SIZE)
  {
    GatheredDistinct(l.mails, box, readId);
    assert forall v :: v in l.mails ==> ShowsOld(v, box, readId);
  }

  lemma AllFrom(l: Listing, box: Box, now: uint64)
    requires Rows(l.mails, box, now, 0) && l.singlePage && l.serverNow == now
    ensures ListsAll(l, box, now)
  {
    RowsDistinct(l.mails, box, now, 0);
    forall id | id in box && Visible(box[id], now) ensures exists v :: v in l.mails && v.mailId == id {
      assert BehindCursor(box, 0, id);
    }
  }

  /** Over every run in which, from the first listing on, only the named mail is read - once, between the listings -
      and in which new mail sorts first and at most a page of it arrives: whatever else happens between any two
      requests, the true count is accepted; and when both listings are single pages no other count is. */
  lemma HonestServerIsAccepted(
      boxes: seq<Box>, steps: seq<Step>, first: Reading, second: Reading, m: nat, n: nat,
      before: Listing, after: Listing, readId: uint64, read: nat)
    requires Orderly(boxes, steps) && Served(first, boxes) && Served(second, boxes)
    requires first.at(0) <= read < second.at(0) && steps[read] == Read(readId)
    requires OnlyReads(steps, first.at(0), readId)
    requires forall s :: first.at(0) <= s < second.at(0) ==> QuietBut(steps[s], readId, second.now(0))
    requires first.now(0) <= second.now(0)
    requires readId in UnreadIds(boxes[first.at(0)], first.now(0))
    requires |NewIds(boxes[first.at(0)], boxes[second.at(0)], second.now(0))| <= PAGE_SIZE
    requires CountsTruly(first.answer(0), boxes[first.at(0)], first.now(0))
    requires EndsAt(first.answer, m, Listed(before)) && EndsAt(second.answer, n, Listed(after))
    ensures after.unread == |UnreadIds(boxes[second.at(0)], second.now(0))| ==> Accepts(before, after, readId)
    ensures Exact(before, after) && Accepts(before, after, readId) ==>
      after.unread == |UnreadIds(boxes[second.at(0)], second.now(0))|
  {
    var i, j := first.at(0), second.at(0);
    ReadingIsPaged(first, boxes, steps, readId, m, before);
    ReadingIsPaged(second, boxes, steps, readId, n, after);
    ClaimsStayRead(boxes, steps, i);
    RunFollows(boxes, steps, i, j, readId, second.now(0));
    ArrivalsNewest(boxes, steps, i, j);
    ReadIsKept(boxes, steps, read, j);
    if Exact(before, after) {
      SinglePageIsExact(before, after, boxes[i], boxes[j], readId, first.now(0), second.now(0));
    } else {
      PagedNeverAlarms(before, after, first.answer(0).mails, second.answer(0).mails, boxes[i], boxes[j], readId,
                       first.now(0), second.now(0), PAGE_SIZE);
      if CountsTruly(second.answer(0), boxes[j], second.now(0)) {
        TrueCountAcceptedIff(boxes, steps, first, second, m, n, before, after, readId, read);
      }
    }
  }
}
