/** The pages of a mailbox (go/mail/internal/data/inbox.go:80-140): the rows behind a cursor in the order of
    listings, at most a page of them, and the next cursor when more remain. */
module MailServer {
  import opened Ints
  import opened Sorting
  import opened Mailbox

  datatype View = View(mailId: uint64, sentMs: uint64, isRead: bool, expireMs: uint64)

  /** The answer to a page request; `next` 0 means there are no more pages. */
  datatype Response = Refused | Page(mails: seq<View>, next: uint64, unread: uint32, serverNow: uint64)

  function ViewKey(): View -> int { (v: View) => v.mailId }

  function SeenIds(mails: seq<View>): set<uint64> { set v | v in mails :: v.mailId }

  predicate ShowsMail(v: View, box: Box) {
    && v.mailId in box && v.isRead == box[v.mailId].read
    && v.sentMs == box[v.mailId].sentMs && v.expireMs == box[v.mailId].expireMs
  }

  predicate OlderView(v: View, w: View) {
    v.sentMs < w.sentMs || (v.sentMs == w.sentMs && v.mailId < w.mailId)
  }

  /** Newest first, no mail twice. */
  ghost predicate Descending(mails: seq<View>) {
    forall i, j :: 0 <= i < j < |mails| ==> OlderView(mails[j], mails[i])
  }

  /** Behind the cursor: every mail without one, else the mails older than the cursor's. */
  predicate BehindCursor(box: Box, cursor: uint64, id: uint64)
    requires id in box
  {
    cursor == 0 || (cursor in box && Older(id, box[id], cursor, box[cursor]))
  }

  /** The rows of the query: the visible mails behind the cursor, newest first. */
  ghost predicate Rows(rows: seq<View>, box: Box, now: uint64, cursor: uint64) {
    && Descending(rows)
    && (forall v :: v in rows ==>
          ShowsMail(v, box) && Visible(box[v.mailId], now) && BehindCursor(box, cursor, v.mailId))
    && forall id :: id in box && Visible(box[id], now) && BehindCursor(box, cursor, id) ==> id in SeenIds(rows)
  }

  /** A page holds the first rows; it names its last mail as the next cursor when rows remain. A cursor whose mail
      is gone ends the listing. */
  ghost predicate Serves(page: Response, box: Box, now: uint64, cursor: uint64, limit: nat) {
    && page.Page? && page.serverNow == now
    && if cursor != 0 && cursor !in box then page.mails == [] && page.next == 0
       else exists rows :: Rows(rows, box, now, cursor) && IsPageOf(page, rows, limit)
  }

  predicate IsPageOf(page: Response, rows: seq<View>, limit: nat)
    requires page.Page?
  {
    if |rows| > limit > 0 then page.mails == rows[..limit] && page.next == rows[limit - 1].mailId
    else page.mails == rows && page.next == 0
  }

  ghost predicate CountsTruly(page: Response, box: Box, now: uint64) {
    page.Page? && page.unread == |UnreadIds(box, now)|
  }

  // ------------------------------------------------------------------ rows are determined


  lemma HeadIsNew(mails: seq<View>)
    requires mails != [] && DistinctBy(mails, ViewKey())
    ensures forall v :: v in mails[1..] ==> v.mailId != mails[0].mailId
    ensures forall v :: v in mails <==> v == mails[0] || v in mails[1..]
  {
    forall v | v in mails[1..] ensures v.mailId != mails[0].mailId {
      var k :| 0 <= k < |mails[1..]| && mails[1..][k] == v;
      assert ViewKey()(mails[0]) != ViewKey()(mails[k + 1]);
    }
    assert mails == [mails[0]] + mails[1..];
  }

  lemma {:induction false} SeenIdsSize(mails: seq<View>)
    requires DistinctBy(mails, ViewKey())
    ensures |SeenIds(mails)| == |mails|
  {
    if mails != [] {
      TailKeeps(mails, ViewKey());
      SeenIdsSize(mails[1..]);
      HeadIsNew(mails);
      assert SeenIds(mails) == SeenIds(mails[1..]) + {mails[0].mailId};
    }
  }

  lemma ShownOnce(v: View, w: View, box: Box)
    requires ShowsMail(v, box) && ShowsMail(w, box) && v.mailId == w.mailId
    ensures v == w && !OlderView(v, w)
  {
  }

  lemma RowsDistinct(rows: seq<View>, box: Box, now: uint64, cursor: uint64)
    requires Rows(rows, box, now, cursor)
    ensures DistinctBy(rows, ViewKey())
  {
    forall i, j | 0 <= i < j < |rows| ensures rows[i].mailId != rows[j].mailId {
      assert rows[i] in rows && rows[j] in rows && OlderView(rows[j], rows[i]);
      if rows[i].mailId == rows[j].mailId { ShownOnce(rows[j], rows[i], box); }
    }
  }

  lemma {:induction false} SameDescending(a: seq<View>, b: seq<View>)
    requires Descending(a) && Descending(b) && forall v :: v in a <==> v in b
    ensures a == b
  {
    assert (a != [] ==> a[0] in b) && (b != [] ==> b[0] in a);
    if a != [] && b != [] {
      assert a[0] in b && b[0] in a;
      assert a[0] == b[0];
      forall v ensures v in a[1..] <==> v in b[1..] {
        TailMember(a, v);
        TailMember(b, v);
      }
      SameDescending(a[1..], b[1..]);
      assert a == [a[0]] + a[1..] && b == [b[0]] + b[1..];
    }
  }

  lemma TailMember(a: seq<View>, v: View)
    requires a != [] && Descending(a)
    ensures v in a[1..] <==> v in a && v != a[0]
  {
    assert a == [a[0]] + a[1..];
    if v in a[1..] {
      var k :| 0 <= k < |a[1..]| && a[1..][k] == v;
      assert OlderView(a[k + 1], a[0]);
    }
  }

  /** There is one listing of a box behind a cursor. */
  lemma RowsUnique(a: seq<View>, b: seq<View>, box: Box, now: uint64, cursor: uint64)
    requires Rows(a, box, now, cursor) && Rows(b, box, now, cursor)
    ensures a == b
  {
    forall v ensures v in a <==> v in b {
      if v in a {
        var w :| w in b && w.mailId == v.mailId;
        ShownOnce(v, w, box);
      }
      if v in b {
        var w :| w in a && w.mailId == v.mailId;
        ShownOnce(v, w, box);
      }
    }
    SameDescending(a, b);
  }

  /** Behind a mail of the whole order stand the mails after it. */
  lemma RowsBehind(order: seq<View>, box: Box, now: uint64, i: nat)
    requires Rows(order, box, now, 0) && i < |order| && order[i].mailId != 0
    ensures Rows(order[i + 1..], box, now, order[i].mailId)
  {
    var rows, cursor := order[i + 1..], order[i].mailId;
    assert order[i] in order && ShowsMail(order[i], box);
    assert forall n :: 0 <= n < i ==> OlderView(order[i], order[n]);
    forall v | v in rows
      ensures ShowsMail(v, box) && Visible(box[v.mailId], now) && BehindCursor(box, cursor, v.mailId)
    {
      var k :| 0 <= k < |rows| && rows[k] == v;
      assert order[k + i + 1] in order && OlderView(order[k + i + 1], order[i]);
    }
    forall id | id in box && Visible(box[id], now) && BehindCursor(box, cursor, id) ensures id in SeenIds(rows) {
      assert BehindCursor(box, 0, id);
      var v :| v in order && v.mailId == id;
      var k :| 0 <= k < |order| && order[k] == v;
      assert OlderView(v, order[i]);
      assert k > i;
      assert rows[k - i - 1] == v && v in rows;
    }
  }
}
