/** Collecting a listing page by page (robot/mail_smoke_scenario.go:683-712). */
module MailPages {
  import opened Ints
  import opened Mailbox
  import opened MailServer
  import opened MailCheck

  const PAGE_SIZE: nat := 50
  const MAX_PAGES: nat := 10

  datatype ListResult = Listed(listing: Listing) | CallRefused | CursorStuck

  /** The answer to the k-th page request. */
  type Answers = nat -> Response

  predicate LastPage(p: Response) { p.Page? && (p.next == 0 || p.mails == []) }

  /** The cursor of a page does not lie below the one before it. */
  predicate Stuck(answer: Answers, k: nat) {
    k > 0 && answer(k).Page? && answer(k - 1).Page? && answer(k - 1).next != 0 && answer(k).next >= answer(k - 1).next
  }

  predicate LeadsOn(answer: Answers, k: nat) {
    answer(k).Page? && !LastPage(answer(k)) && !Stuck(answer, k)
  }

  /** Pages 0..n-1 were read and each led on to the next. */
  predicate ReadsTo(answer: Answers, n: nat) {
    forall k :: 0 <= k < n ==> LeadsOn(answer, k)
  }

  function Concat(answer: Answers, n: nat): seq<View> {
    if n == 0 then [] else Concat(answer, n - 1) + if answer(n - 1).Page? then answer(n - 1).mails else []
  }

  /** The listing made of the first `n` pages; the numbers are those of the first one. */
  function ListingOf(answer: Answers, n: nat): Listing
    requires answer(0).Page?
  {
    Listing(Concat(answer, n), answer(0).unread, answer(0).serverNow, answer(0).next == 0)
  }

  /** How a collection ends: after the last page or after ten, at a refusal, or at a cursor that does not descend. */
  predicate EndsAt(answer: Answers, n: nat, result: ListResult) {
    n <= MAX_PAGES && ReadsTo(answer, n) && match result
    case Listed(l) =>
      && answer(0).Page?
      && if n == MAX_PAGES then l == ListingOf(answer, n) else LastPage(answer(n)) && l == ListingOf(answer, n + 1)
    case CallRefused => n < MAX_PAGES && answer(n).Refused?
    case CursorStuck => n < MAX_PAGES && !LastPage(answer(n)) && Stuck(answer, n)
  }

  /** The loop's state before page `page`. */
  predicate Collected(answer: Answers, page: nat, out: Listing, before: uint64) {
    && ReadsTo(answer, page) && out.mails == Concat(answer, page)
    && if page == 0 then before == 0
       else
         && LeadsOn(answer, page - 1) && answer(0).Page?
         && before == answer(page - 1).next && out == ListingOf(answer, page)
  }

  function AddPage(out: Listing, page: nat, response: Response): Listing
    requires response.Page?
  {
    var first := if page > 0 then out
                 else Listing(out.mails, response.unread, response.serverNow, response.next == 0);
    first.(mails := first.mails + response.mails)
  }

  /** What page `page` leads to, after its mails were added. */
  lemma EndHere(answer: Answers, page: nat, out: Listing, before: uint64, result: ListResult)
    requires page <= MAX_PAGES && Collected(answer, page, out, before)
    requires match result
             case Listed(l) =>
               if page == MAX_PAGES then l == out
               else answer(page).Page? && LastPage(answer(page)) && l == AddPage(out, page, answer(page))
             case CallRefused => page < MAX_PAGES && answer(page).Refused?
             case CursorStuck =>
               && page < MAX_PAGES && answer(page).Page? && !LastPage(answer(page))
               && before != 0 && answer(page).next >= before
    ensures EndsAt(answer, page, result)
  {
    if page < MAX_PAGES && answer(page).Page? { PageAdded(answer, page, out, before); }
  }

  lemma PageAdded(answer: Answers, page: nat, out: Listing, before: uint64)
    requires Collected(answer, page, out, before) && answer(page).Page?
    ensures AddPage(out, page, answer(page)) == ListingOf(answer, page + 1)
    ensures !LastPage(answer(page)) && !Stuck(answer, page) ==>
      Collected(answer, page + 1, ListingOf(answer, page + 1), answer(page).next)
    ensures !LastPage(answer(page)) ==> (Stuck(answer, page) <==> before != 0 && answer(page).next >= before)
  {
    if page > 0 { assert LeadsOn(answer, page - 1); }
  }

  /** The cursor loop of listAll. */
  method ListAll(answer: Answers) returns (result: ListResult)
    ensures exists n: nat :: EndsAt(answer, n, result)
  {
    var out := Listing([], 0, 0, false);
    var before: uint64 := 0;
    for page := 0 to MAX_PAGES
      invariant Collected(answer, page, out, before)
    {
      var response := answer(page);
      if response.Refused? {
        EndHere(answer, page, out, before, CallRefused);
        return CallRefused;
      }
      ghost var was := out;
      PageAdded(answer, page, out, before);
      if page == 0 {
        out := out.(unread := response.unread, serverNow := response.serverNow, singlePage := response.next == 0);
      }
      out := out.(mails := out.mails + response.mails);
      if response.next == 0 || response.mails == [] {
        EndHere(answer, page, was, before, Listed(out));
        return Listed(out);
      }
      if before != 0 && response.next >= before {
        EndHere(answer, page, was, before, CursorStuck);
        return CursorStuck;
      }
      before := response.next;
    }
    EndHere(answer, MAX_PAGES, out, before, Listed(out));
    return Listed(out);
  }

  lemma EndsBefore(answer: Answers, m: nat, r: ListResult, n: nat)
    requires EndsAt(answer, m, r) && ReadsTo(answer, n) && n <= MAX_PAGES
    ensures n <= m
  {
    assert m < n ==> LeadsOn(answer, m);
  }

  /** The answers determine where and how the collection ends. */
  lemma EndIsUnique(answer: Answers, m: nat, r: ListResult, n: nat, s: ListResult)
    requires EndsAt(answer, m, r) && EndsAt(answer, n, s)
    ensures m == n && r == s
  {
    EndsBefore(answer, m, r, n);
    EndsBefore(answer, n, s, m);
  }

  // ------------------------------------------------------------------ against a mailbox at rest

  /** Request `k` is made: the first, or behind a page that names a cursor. */
  predicate Asked(answer: Answers, k: nat) {
    k == 0 || (answer(k - 1).Page? && answer(k - 1).next != 0)
  }

  function CursorAt(answer: Answers, k: nat): uint64 {
    if k == 0 || !answer(k - 1).Page? then 0 else answer(k - 1).next
  }

  /** The server answers every request from a mailbox that does not change. */
  ghost predicate Honest(answer: Answers, box: Box, now: uint64) {
    forall k: nat {:trigger Asked(answer, k)} :: Asked(answer, k) ==>
      Serves(answer(k), box, now, CursorAt(answer, k), PAGE_SIZE) && CountsTruly(answer(k), box, now)
  }

  /** Page `k` stands in the order at position 50 k. */
  predicate IsPageAt(page: Response, order: seq<View>, k: nat)
    requires PAGE_SIZE * k <= |order|
  {
    page.Page? && IsPageOf(page, order[PAGE_SIZE * k..], PAGE_SIZE)
  }

  predicate Within(order: seq<View>, k: nat) { k == 0 || PAGE_SIZE * k < |order| }

  /** Page after page the answers walk down the order, fifty mails at a time. */
  ghost predicate Walks(answer: Answers, order: seq<View>) {
    && (forall v :: v in order ==> v.mailId != 0)
    && forall k: nat {:trigger Within(order, k)} :: Within(order, k) ==> IsPageAt(answer(k), order, k)
  }

  lemma NextAt(page: Response, order: seq<View>, k: nat)
    requires Within(order, k) && IsPageAt(page, order, k)
    ensures page.next == if |order| > PAGE_SIZE * (k + 1) then order[PAGE_SIZE * (k + 1) - 1].mailId else 0
    ensures page.mails == order[PAGE_SIZE * k..Min(PAGE_SIZE * (k + 1), |order|)]
  {
    assert order[PAGE_SIZE * k..][..Min(PAGE_SIZE, |order| - PAGE_SIZE * k)]
        == order[PAGE_SIZE * k..Min(PAGE_SIZE * (k + 1), |order|)];
  }

  lemma ServedAtStart(page: Response, order: seq<View>, box: Box, now: uint64)
    requires Rows(order, box, now, 0) && Serves(page, box, now, 0, PAGE_SIZE)
    ensures IsPageAt(page, order, 0)
  {
    var rows :| Rows(rows, box, now, 0) && IsPageOf(page, rows, PAGE_SIZE);
    RowsUnique(rows, order, box, now, 0);
    assert order[0..] == order;
  }

  lemma ServedBehind(page: Response, order: seq<View>, box: Box, now: uint64, done: nat)
    requires Rows(order, box, now, 0) && 0 !in box && 0 < done < |order|
    requires Serves(page, box, now, order[done - 1].mailId, PAGE_SIZE)
    ensures page.Page? && IsPageOf(page, order[done..], PAGE_SIZE)
  {
    var cursor := order[done - 1].mailId;
    assert order[done - 1] in order && ShowsMail(order[done - 1], box);
    RowsBehind(order, box, now, done - 1);
    var rows :| Rows(rows, box, now, cursor) && IsPageOf(page, rows, PAGE_SIZE);
    RowsUnique(rows, order[done..], box, now, cursor);
  }

  lemma ServedAt(page: Response, previous: Response, order: seq<View>, box: Box, now: uint64, k: nat)
    requires Rows(order, box, now, 0) && 0 !in box && Within(order, k) && k > 0
    requires IsPageAt(previous, order, k - 1)
    requires previous.next != 0 ==> Serves(page, box, now, previous.next, PAGE_SIZE)
    ensures IsPageAt(page, order, k)
  {
    NextAt(previous, order, k - 1);
    var v := order[PAGE_SIZE * k - 1];
    assert v in order && ShowsMail(v, box);
    ServedBehind(page, order, box, now, PAGE_SIZE * k);
  }

  lemma {:induction false} HonestPageAt(answer: Answers, order: seq<View>, box: Box, now: uint64, k: nat)
    requires Honest(answer, box, now) && Rows(order, box, now, 0) && 0 !in box && Within(order, k)
    ensures IsPageAt(answer(k), order, k)
  {
    if k == 0 {
      assert Asked(answer, 0);
      ServedAtStart(answer(0), order, box, now);
    } else {
      HonestPageAt(answer, order, box, now, k - 1);
      assert answer(k - 1).next != 0 ==> Asked(answer, k);
      ServedAt(answer(k), answer(k - 1), order, box, now, k);
    }
  }

  /** A server that follows its own cursors page by page walks down its order. */
  lemma HonestWalks(answer: Answers, order: seq<View>, box: Box, now: uint64)
    requires Honest(answer, box, now) && Rows(order, box, now, 0) && 0 !in box
    ensures Walks(answer, order)
  {
    forall v | v in order ensures v.mailId != 0 { assert ShowsMail(v, box); }
    forall k: nat | Within(order, k) ensures IsPageAt(answer(k), order, k) {
      HonestPageAt(answer, order, box, now, k);
    }
  }

  /** From page n-1 to page n the id of the last mail rises; more mails follow. */
  predicate Rises(order: seq<View>, n: nat) {
    && n >= 1 && PAGE_SIZE * (n + 1) < |order|
    && order[PAGE_SIZE * (n + 1) - 1].mailId >= order[PAGE_SIZE * n - 1].mailId
  }

  lemma PageKinds(answer: Answers, order: seq<View>, k: nat)
    requires Walks(answer, order) && Within(order, k)
    ensures answer(k).Page? && (LastPage(answer(k)) <==> |order| <= PAGE_SIZE * (k + 1))
    ensures !LastPage(answer(k)) ==> (Stuck(answer, k) <==> Rises(order, k))
  {
    assert IsPageAt(answer(k), order, k);
    NextAt(answer(k), order, k);
    if |order| > PAGE_SIZE * (k + 1) { assert order[PAGE_SIZE * (k + 1) - 1] in order; }
    if k > 0 {
      assert Within(order, k - 1) && IsPageAt(answer(k - 1), order, k - 1);
      NextAt(answer(k - 1), order, k - 1);
      assert order[PAGE_SIZE * k - 1] in order;
    }
  }

  lemma ReadsOn(answer: Answers, n: nat)
    ensures ReadsTo(answer, n + 1) <==>
      ReadsTo(answer, n) && LeadsOn(answer, n)
  {
  }

  /** The collection gets past the first `n` pages if and only if there are more mails and no id rose among them. */
  lemma ReadsToStep(answer: Answers, order: seq<View>, n: nat)
    requires ReadsTo(answer, n) <==>
      (n == 0 || PAGE_SIZE * n < |order|) && forall j :: 0 < j < n ==> !Rises(order, j)
    requires Within(order, n) ==>
      && answer(n).Page? && (LastPage(answer(n)) <==> |order| <= PAGE_SIZE * (n + 1))
      && (!LastPage(answer(n)) ==> (Stuck(answer, n) <==> Rises(order, n)))
    ensures ReadsTo(answer, n + 1) <==>
      PAGE_SIZE * (n + 1) < |order| && forall j :: 0 < j < n + 1 ==> !Rises(order, j)
  {
    ReadsOn(answer, n);
  }

  lemma {:induction false} ReadsToIff(answer: Answers, order: seq<View>, n: nat)
    requires Walks(answer, order)
    ensures ReadsTo(answer, n) <==>
      (n == 0 || PAGE_SIZE * n < |order|) && forall j :: 0 < j < n ==> !Rises(order, j)
  {
    if n > 0 {
      ReadsToIff(answer, order, n - 1);
      if Within(order, n - 1) { PageKinds(answer, order, n - 1); }
      ReadsToStep(answer, order, n - 1);
    }
  }

  /** The client gives up on an unchanging mailbox at page `n` if and only if that is the first page whose last mail
      carries a larger id than the last mail before: the server orders by sending time, so it may. */
  lemma SticksIff(answer: Answers, order: seq<View>, box: Box, now: uint64, n: nat)
    requires Honest(answer, box, now) && Rows(order, box, now, 0) && 0 !in box && n < MAX_PAGES
    ensures EndsAt(answer, n, CursorStuck) <==> Rises(order, n) && forall j :: 0 < j < n ==> !Rises(order, j)
  {
    HonestWalks(answer, order, box, now);
    ReadsToIff(answer, order, n);
    if Within(order, n) { PageKinds(answer, order, n); }
  }

  lemma {:induction false} ConcatIsOrder(answer: Answers, order: seq<View>, n: nat)
    requires Walks(answer, order) && (n == 0 || Within(order, n - 1))
    ensures Concat(answer, n) == order[..Min(PAGE_SIZE * n, |order|)]
  {
    if n > 0 {
      ConcatIsOrder(answer, order, n - 1);
      NextAt(answer(n - 1), order, n - 1);
      var done, end := PAGE_SIZE * (n - 1), Min(PAGE_SIZE * n, |order|);
      assert order[..done] + order[done..end] == order[..end];
    }
  }

  /** Otherwise it returns the mailbox in its order, up to ten pages of it, with the true count. */
  lemma ReadsWholeOrder(answer: Answers, order: seq<View>, box: Box, now: uint64, n: nat, result: ListResult)
    requires Honest(answer, box, now) && Rows(order, box, now, 0) && 0 !in box && EndsAt(answer, n, result)
    ensures result.Listed? <==> forall j :: 0 < j < MAX_PAGES ==> !Rises(order, j)
    ensures result.Listed? ==>
      && result.listing.mails == order[..Min(PAGE_SIZE * MAX_PAGES, |order|)]
      && result.listing.unread == |UnreadIds(box, now)|
      && (result.listing.singlePage <==> |order| <= PAGE_SIZE)
  {
    HonestWalks(answer, order, box, now);
    ReadsToIff(answer, order, n);
    PageKinds(answer, order, 0);
    if n < MAX_PAGES { PageKinds(answer, order, n); }
    assert Asked(answer, 0) && Within(order, 0);
    NextAt(answer(0), order, 0);
    if result.Listed? { ConcatIsOrder(answer, order, if n == MAX_PAGES then n else n + 1); }
  }

  // ------------------------------------------------------------------ a mailbox that is refused

  /** The pages of an order, fifty mails each. */
  function PagesOf(order: seq<View>, unread: uint32, now: uint64): Answers {
    (k: nat) =>
      if !Within(order, k) then Page([], 0, unread, now)
      else
        var end := Min(PAGE_SIZE * (k + 1), |order|);
        Page(order[PAGE_SIZE * k..end], if end < |order| then order[end - 1].mailId else 0, unread, now)
  }

  lemma PageOfOrder(order: seq<View>, unread: uint32, now: uint64, k: nat)
    requires Within(order, k)
    ensures
      var page := PagesOf(order, unread, now)(k);
      && page.Page? && page.serverNow == now && page.unread == unread
      && IsPageAt(page, order, k)
  {
    var done := PAGE_SIZE * k;
    if |order| - done > PAGE_SIZE { assert order[done..][..PAGE_SIZE] == order[done..done + PAGE_SIZE]; }
  }

  lemma PageServes(page: Response, order: seq<View>, box: Box, now: uint64, k: nat)
    requires Rows(order, box, now, 0) && 0 !in box && Within(order, k)
    requires IsPageAt(page, order, k) && page.serverNow == now
    ensures Serves(page, box, now, if k == 0 then 0 else order[PAGE_SIZE * k - 1].mailId, PAGE_SIZE)
  {
    var done := PAGE_SIZE * k;
    var rows := order[done..];
    if k == 0 {
      assert rows == order;
    } else {
      assert order[done - 1] in order && ShowsMail(order[done - 1], box);
      RowsBehind(order, box, now, done - 1);
    }
  }

  lemma PagesAreHonest(order: seq<View>, unread: uint32, box: Box, now: uint64)
    requires Rows(order, box, now, 0) && 0 !in box && unread == |UnreadIds(box, now)|
    ensures Honest(PagesOf(order, unread, now), box, now)
  {
    var answer := PagesOf(order, unread, now);
    forall k: nat | Asked(answer, k)
      ensures Serves(answer(k), box, now, CursorAt(answer, k), PAGE_SIZE) && CountsTruly(answer(k), box, now)
    {
      assert Within(order, k);
      PageOfOrder(order, unread, now, k);
      if k > 0 {
        PageOfOrder(order, unread, now, k - 1);
        NextAt(answer(k - 1), order, k - 1);
      }
      PageServes(answer(k), order, box, now, k);
    }
  }

  const RISING: nat := 101
  const LISTED_AT: uint64 := 1000

  /** 101 mails sent before the listing and not yet expired, the older the larger the id. */
  function RisingBox(): Box {
    map id: uint64 | 1 <= id <= RISING :: RisingMail(id)
  }

  function RisingMail(id: uint64): Mail
    requires id <= RISING
  {
    Mail(LISTED_AT - id, 5000, false, NoClaim)
  }

  function RisingOrder(): seq<View> {
    seq(RISING, i requires 0 <= i < RISING => View(i + 1, LISTED_AT - 1 - i, false, 5000))
  }

  lemma RisingRows()
    ensures Rows(RisingOrder(), RisingBox(), LISTED_AT, 0) && 0 !in RisingBox()
    ensures |UnreadIds(RisingBox(), LISTED_AT)| == RISING
  {
    var order, box := RisingOrder(), RisingBox();
    forall id | id in box ensures id in SeenIds(order) {
      assert order[id - 1].mailId == id && order[id - 1] in order;
    }
    RowsDistinct(order, box, LISTED_AT, 0);
    SeenIdsSize(order);
    assert UnreadIds(box, LISTED_AT) == SeenIds(order);
  }

  /** An honest server with that mailbox answers page by page, and the client refuses its second page. */
  lemma RisingMailboxIsRefused()
    ensures Honest(PagesOf(RisingOrder(), RISING, LISTED_AT), RisingBox(), LISTED_AT)
    ensures EndsAt(PagesOf(RisingOrder(), RISING, LISTED_AT), 1, CursorStuck)
  {
    RisingRows();
    PagesAreHonest(RisingOrder(), RISING, RisingBox(), LISTED_AT);
    assert Rises(RisingOrder(), 1);
    SticksIff(PagesOf(RisingOrder(), RISING, LISTED_AT), RisingOrder(), RisingBox(), LISTED_AT, 1);
  }
}
