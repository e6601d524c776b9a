/** Why the account over several pages relies on new mail sorting first: a run of an honest server in which one
    mail arrives behind the cursor, and whose true count is refused. */
module MailLateArrival {
  import opened Ints
  import opened Mailbox
  import opened MailServer
  import opened MailCheck
  import opened MailPages
  import opened MailRuns

  /** The millisecond in which all the mails are sent and both listings are made. */
  const NOW: uint64 := 1000

  /** A mail of the shelf; 52 is the one that is read. */
  function ShelfMail(id: uint64, wasRead: bool): Mail { Mail(NOW, 5000, wasRead && id == 52, NoClaim) }

  /** The mails `bottom` to 52. */
  function Shelf(bottom: uint64, wasRead: bool): Box {
    map id: uint64 | bottom <= id <= 52 :: ShelfMail(id, wasRead)
  }

  function ShelfOrder(bottom: uint64, wasRead: bool): seq<View>
    requires 1 <= bottom <= 52
  {
    seq(53 - bottom, i requires 0 <= i < 53 - bottom => View(52 - i, NOW, wasRead && i == 0, 5000))
  }

  lemma ShelfIds(bottom: uint64, wasRead: bool)
    requires 1 <= bottom <= 52
    ensures SeenIds(ShelfOrder(bottom, wasRead)) == Shelf(bottom, wasRead).Keys
  {
    var order, box := ShelfOrder(bottom, wasRead), Shelf(bottom, wasRead);
    forall id | id in box ensures id in SeenIds(order) {
      assert order[52 - id].mailId == id && order[52 - id] in order;
    }
  }

  lemma ShelfRows(bottom: uint64, wasRead: bool)
    requires 1 <= bottom <= 52
    ensures Rows(ShelfOrder(bottom, wasRead), Shelf(bottom, wasRead), NOW, 0) && 0 !in Shelf(bottom, wasRead)
  {
    ShelfIds(bottom, wasRead);
  }

  lemma ShelfUnread(bottom: uint64, wasRead: bool)
    requires 1 <= bottom <= 52
    ensures |UnreadIds(Shelf(bottom, wasRead), NOW)| == 53 - bottom - if wasRead then 1 else 0
  {
    var order, box := ShelfOrder(bottom, wasRead), Shelf(bottom, wasRead);
    ShelfRows(bottom, wasRead);
    ShelfIds(bottom, wasRead);
    RowsDistinct(order, box, NOW, 0);
    SeenIdsSize(order);
    if wasRead {
      assert UnreadIds(box, NOW) == box.Keys - {52};
    } else {
      assert UnreadIds(box, NOW) == box.Keys;
    }
  }

  function Pages(bottom: uint64, wasRead: bool): Answers
    requires 1 <= bottom <= 52
  {
    PagesOf(ShelfOrder(bottom, wasRead), 51, NOW)
  }

  /** Two pages of 52 mails are collected whole. */
  lemma TwoPages(wasRead: bool)
    ensures EndsAt(Pages(1, wasRead), 1, Listed(Listing(ShelfOrder(1, wasRead), 51, NOW, false)))
  {
    var order, answer := ShelfOrder(1, wasRead), Pages(1, wasRead);
    assert LeadsOn(answer, 0) && LastPage(answer(1));
    assert Concat(answer, 1) == Concat(answer, 0) + answer(0).mails == order[0..50];
    assert Concat(answer, 2) == order[0..50] + order[50..52] == order;
    assert ListingOf(answer, 2) == Listing(order, 51, NOW, false);
  }

  lemma ShelfServed(bottom: uint64, wasRead: bool, k: nat)
    requires 1 <= bottom <= 52 && Within(ShelfOrder(bottom, wasRead), k)
    ensures
      var order := ShelfOrder(bottom, wasRead);
      Serves(Pages(bottom, wasRead)(k), Shelf(bottom, wasRead), NOW,
             if k == 0 then 0 else order[PAGE_SIZE * k - 1].mailId, PAGE_SIZE)
  {
    var order := ShelfOrder(bottom, wasRead);
    ShelfRows(bottom, wasRead);
    PageOfOrder(order, 51, NOW, k);
    PageServes(Pages(bottom, wasRead)(k), order, Shelf(bottom, wasRead), NOW, k);
  }

  /** The first page of the 51 mails without mail 1 is that of the 52. */
  lemma SameFirstPage()
    ensures Pages(1, false)(0) == Pages(2, false)(0)
  {
    assert ShelfOrder(1, false)[0..50] == ShelfOrder(2, false)[0..50];
  }

  /** The first listing: its first page without mail 1, the others with it. */
  function First(): Reading { Reading(Pages(1, false), (k: nat) => if k == 0 then 0 else 1, (k: nat) => NOW) }

  function Second(): Reading { Reading(Pages(1, true), (k: nat) => 2, (k: nat) => NOW) }

  function Boxes(): seq<Box> { [Shelf(2, false), Shelf(1, false), Shelf(1, true)] }

  lemma AskedTwice(wasRead: bool, k: nat)
    requires Asked(Pages(1, wasRead), k)
    ensures k <= 1 && CursorAt(Pages(1, wasRead), k) == if k == 0 then 0 else ShelfOrder(1, wasRead)[49].mailId
  {
  }

  lemma FirstIsServed()
    ensures Served(First(), Boxes())
  {
    var r, boxes := First(), Boxes();
    forall k: nat | Asked(r.answer, k)
      ensures Serves(r.answer(k), boxes[r.at(k)], r.now(k), CursorAt(r.answer, k), PAGE_SIZE)
    {
      AskedTwice(false, k);
      if k == 0 {
        SameFirstPage();
        ShelfServed(2, false, 0);
      } else {
        ShelfServed(1, false, 1);
      }
    }
  }

  lemma SecondIsServed()
    ensures Served(Second(), Boxes())
  {
    var r, boxes := Second(), Boxes();
    forall k: nat | Asked(r.answer, k)
      ensures Serves(r.answer(k), boxes[r.at(k)], r.now(k), CursorAt(r.answer, k), PAGE_SIZE)
    {
      AskedTwice(true, k);
      ShelfServed(1, true, k);
    }
  }

  lemma Expectation()
    ensures
      Expected(Listing(ShelfOrder(1, false), 51, NOW, false), Listing(ShelfOrder(1, true), 51, NOW, false), 52) == 50
  {
    var before, after := ShelfOrder(1, false), ShelfOrder(1, true);
    ShelfRows(1, false);
    ShelfRows(1, true);
    ShelfIds(1, false);
    ShelfIds(1, true);
    RowsDistinct(before, Shelf(1, false), NOW, 0);
    RowsDistinct(after, Shelf(1, true), NOW, 0);
    ExpiredIsCardinality(before, 52, NOW, NOW);
    ArrivedIsCardinality(after, SeenIds(before));
    assert ExpiredIds(before, 52, NOW, NOW) == {};
    assert SeenIds(before) == SeenIds(after);
    assert ArrivedIds(after, SeenIds(before)) == {};
  }

  lemma ExpectationMissed()
    ensures !Accepts(Listing(ShelfOrder(1, false), 51, NOW, false), Listing(ShelfOrder(1, true), 51, NOW, false), 52)
  {
    Expectation();
  }

  lemma CountsAreTrue()
    ensures CountsTruly(First().answer(0), Boxes()[0], NOW) && CountsTruly(Second().answer(0), Boxes()[2], NOW)
  {
    ShelfUnread(2, false);
    ShelfUnread(1, true);
  }

  lemma StartIsSound()
    ensures ClaimsAreRead(Boxes()[0]) && 0 !in Boxes()[0] && 52 in UnreadIds(Boxes()[0], NOW)
  {
  }

  lemma ShelfRuns()
    ensures Runs(Boxes(), [Arrive(1, ShelfMail(1, false)), Read(52)])
    ensures FreshIds(Boxes(), [Arrive(1, ShelfMail(1, false)), Read(52)])
  {
    assert Shelf(1, false) == Shelf(2, false)[1 := ShelfMail(1, false)];
    assert Shelf(1, true) == Shelf(1, false)[52 := ShelfMail(52, false).(read := true)];
  }

  /** When new mail does not sort first, an honest server is refused. Mail 1 arrives after the first page was read, in
      the millisecond in which all the others were sent; it stands on the second page, so the account takes it for an
      old mail although the first count did not include it. */
  lemma TrueCountIsRefused() returns (
      boxes: seq<Box>, steps: seq<Step>, first: Reading, second: Reading, before: Listing, after: Listing)
    ensures Runs(boxes, steps) && FreshIds(boxes, steps) && ClaimsAreRead(boxes[0]) && 0 !in boxes[0]
    ensures steps == [Arrive(1, ShelfMail(1, false)), Read(52)] && 52 in UnreadIds(boxes[0], NOW)
    ensures first.at(0) == 0 && second.at(0) == 2 && first.now(0) == second.now(0) == NOW
    ensures Served(first, boxes) && CountsTruly(first.answer(0), boxes[0], NOW)
    ensures Served(second, boxes) && CountsTruly(second.answer(0), boxes[2], NOW)
    ensures EndsAt(first.answer, 1, Listed(before)) && EndsAt(second.answer, 1, Listed(after))
    ensures !Exact(before, after) && !Accepts(before, after, 52)
  {
    boxes, steps, first, second := Boxes(), [Arrive(1, ShelfMail(1, false)), Read(52)], First(), Second();
    before, after := Listing(ShelfOrder(1, false), 51, NOW, false), Listing(ShelfOrder(1, true), 51, NOW, false);
    ShelfRuns();
    FirstIsServed();
    SecondIsServed();
    StartIsSound();
    CountsAreTrue();
    TwoPages(false);
    TwoPages(true);
    ExpectationMissed();
  }

  /** The run is one of those that MailRuns.TrueCountAcceptedIff is about: its account does not cover. */
  lemma AccountDoesNotCover() returns (boxes: seq<Box>, before: Listing, after: Listing)
    ensures |boxes| == 3 && !Covers(before, after, boxes[0], boxes[2], 52, NOW, NOW)
  {
    var steps, first, second;
    boxes, steps, first, second, before, after := TrueCountIsRefused();
    TrueCountAcceptedIff(boxes, steps, first, second, 1, 1, before, after, 52, 1);
  }
}
