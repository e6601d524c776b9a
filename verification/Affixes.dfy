/** The random attribute lines of a piece of equipment (robot/equip_smoke_scenario.go:910-966). */
module Affixes {
  import opened Ints
  import opened Bags

  const BLUE: uint32 := 1
  const PINK: uint32 := 2
  const YELLOW: uint32 := 3
  const MIN_LINES: nat := 1
  const MAX_LINES: nat := 5

  /** One line standing at `seqNo` of a tier's block. */
  predicate LineAt(line: AttrLine, tier: uint32, seqNo: int) {
    && line.tier == tier && line.seqNo == seqNo
    && line.attrId != 0 && line.name != "" && 1 <= line.value <= line.cap
  }

  /** The lines are a blue block up to `b`, a pink block up to `p` and a yellow block, each counted from 0. */
  predicate Blocks(lines: seq<AttrLine>, b: nat, p: nat) {
    && b <= p <= |lines|
    && (forall i :: 0 <= i < |lines| ==> LineAt(lines[i], TierAt(i, b, p), SeqAt(i, b, p)))
    && forall i, j :: 0 <= i < j < b ==> lines[i].attrId != lines[j].attrId
  }

  function TierAt(i: nat, b: nat, p: nat): uint32 { if i < b then BLUE else if i < p then PINK else YELLOW }

  function SeqAt(i: nat, b: nat, p: nat): nat { if i < b then i else if i < p then i - b else i - p }

  /** What a roll can produce: one to three blue lines, at most one pink, at most one yellow. */
  ghost predicate Rollable(lines: seq<AttrLine>) {
    exists b: nat, p: nat :: Blocks(lines, b, p) && 1 <= b <= 3 && p - b <= 1 && |lines| - p <= 1
  }

  /** A split into blocks is determined by the lines. */
  lemma BlocksUnique(lines: seq<AttrLine>, b: nat, p: nat, c: nat, q: nat)
    requires Blocks(lines, b, p) && Blocks(lines, c, q)
    ensures b == c && p == q
  {
    assert b < |lines| ==> lines[b].tier != BLUE;
    assert c < |lines| ==> lines[c].tier != BLUE;
    assert p < |lines| ==> lines[p].tier == YELLOW;
    assert q < |lines| ==> lines[q].tier == YELLOW;
  }

  lemma BlocksPrefix(lines: seq<AttrLine>, b: nat, p: nat, n: nat)
    requires Blocks(lines, b, p) && n <= |lines|
    ensures Blocks(lines[..n], Min(b, n), Min(p, n))
  {
  }

  /** The checks the source makes on line `n`, given the lines before it. */
  predicate LineChecks(lines: seq<AttrLine>, n: nat, blueAttrs: set<uint32>)
    requires n < |lines|
  {
    var line := lines[n];
    && BLUE <= line.tier <= YELLOW
    && line.attrId != 0 && line.name != ""
    && 1 <= line.value <= line.cap
    && (n > 0 ==> line.tier >= lines[n - 1].tier)
    && line.seqNo == (if n > 0 && line.tier == lines[n - 1].tier then (lines[n - 1].seqNo + 1) % UINT32_BOUND else 0)
    && (line.tier == BLUE ==> line.attrId !in blueAttrs)
  }

  /** The attribute ids of the blue block. */
  ghost predicate BlueIds(lines: seq<AttrLine>, b: nat, ids: set<uint32>)
    requires b <= |lines|
  {
    && (forall i :: 0 <= i < b ==> lines[i].attrId in ids)
    && forall a :: a in ids ==> exists i :: 0 <= i < b && lines[i].attrId == a
  }

  /** The block split after one more line of some tier. */
  function BlueEnd(b: nat, tier: uint32): nat { if tier == BLUE then b + 1 else b }

  function PinkEnd(p: nat, tier: uint32): nat { if tier == YELLOW then p else p + 1 }

  lemma LastLine(lines: seq<AttrLine>, n: nat, b: nat, p: nat)
    requires 0 < n <= |lines| && Blocks(lines[..n], b, p)
    ensures LineAt(lines[n - 1], TierAt(n - 1, b, p), SeqAt(n - 1, b, p))
  {
    assert lines[..n][n - 1] == lines[n - 1];
  }

  /** A line that passes the checks extends the blocks ... */
  lemma BlocksGrow(lines: seq<AttrLine>, n: nat, b: nat, p: nat, ids: set<uint32>)
    requires n < |lines| <= MAX_LINES
    requires Blocks(lines[..n], b, p) && BlueIds(lines, b, ids) && LineChecks(lines, n, ids)
    ensures Blocks(lines[..n + 1], BlueEnd(b, lines[n].tier), PinkEnd(p, lines[n].tier))
  {
    var upto, c, q := lines[..n + 1], BlueEnd(b, lines[n].tier), PinkEnd(p, lines[n].tier);
    if n > 0 { LastLine(lines, n, b, p); }
    assert c <= q <= n + 1;
    assert LineAt(lines[n], TierAt(n, c, q), SeqAt(n, c, q));
    forall i | 0 <= i <= n ensures LineAt(upto[i], TierAt(i, c, q), SeqAt(i, c, q)) {
      if i < n { assert upto[i] == lines[..n][i]; }
    }
    forall i, j | 0 <= i < j < c ensures upto[i].attrId != upto[j].attrId {
      assert upto[i] == lines[..n][i] == lines[i];
      if j < n { assert upto[j] == lines[..n][j]; }
    }
  }

  /** ... and a line that fails them fits no block split. */
  lemma BlocksRefuse(lines: seq<AttrLine>, n: nat, b: nat, p: nat, ids: set<uint32>, c: nat, q: nat)
    requires n < |lines| <= MAX_LINES
    requires Blocks(lines[..n], b, p) && BlueIds(lines, b, ids)
    requires Blocks(lines[..n + 1], c, q)
    ensures LineChecks(lines, n, ids)
  {
    var upto := lines[..n + 1];
    BlocksPrefix(upto, c, q, n);
    assert upto[..n] == lines[..n];
    BlocksUnique(lines[..n], b, p, Min(c, n), Min(q, n));
    assert upto[n] == lines[n];
    if n > 0 { LastLine(lines, n, b, p); }
    if lines[n].tier == BLUE {
      assert c == n + 1 && b == n;
      forall i | 0 <= i < b ensures lines[i].attrId != lines[n].attrId { assert upto[i] == lines[i]; }
    }
  }

  ghost predicate Splits(lines: seq<AttrLine>) {
    exists b: nat, p: nat :: Blocks(lines, b, p)
  }

  ghost predicate Scanned(lines: seq<AttrLine>, n: nat, b: nat, p: nat, ids: set<uint32>)
    requires n <= |lines|
  {
    Blocks(lines[..n], b, p) && BlueIds(lines, b, ids)
  }

  /** A line that fails the checks spoils the whole. */
  lemma NoSplitAfter(lines: seq<AttrLine>, n: nat, b: nat, p: nat, ids: set<uint32>)
    requires n < |lines| <= MAX_LINES
    requires Scanned(lines, n, b, p, ids) && !LineChecks(lines, n, ids)
    ensures !Splits(lines)
  {
    if Splits(lines) {
      var c: nat, q: nat :| Blocks(lines, c, q);
      BlocksPrefix(lines, c, q, n + 1);
      BlocksRefuse(lines, n, b, p, ids, Min(c, n + 1), Min(q, n + 1));
    }
  }

  lemma BlueIdsGrow(lines: seq<AttrLine>, n: nat, b: nat, ids: set<uint32>)
    requires n < |lines| && b <= n && BlueIds(lines, b, ids)
    requires lines[n].tier == BLUE ==> b == n
    ensures BlueIds(lines, BlueEnd(b, lines[n].tier), if lines[n].tier == BLUE then ids + {lines[n].attrId} else ids)
  {
  }

  lemma ScanStep(lines: seq<AttrLine>, n: nat, b: nat, p: nat, ids: set<uint32>)
    requires n < |lines| <= MAX_LINES
    requires Scanned(lines, n, b, p, ids) && LineChecks(lines, n, ids)
    ensures Scanned(lines, n + 1, BlueEnd(b, lines[n].tier), PinkEnd(p, lines[n].tier),
                    if lines[n].tier == BLUE then ids + {lines[n].attrId} else ids)
  {
    BlocksGrow(lines, n, b, p, ids);
    if n > 0 { LastLine(lines, n, b, p); }
    BlueIdsGrow(lines, n, b, ids);
  }

  lemma ScanDone(lines: seq<AttrLine>, b: nat, p: nat, ids: set<uint32>)
    requires Scanned(lines, |lines|, b, p, ids)
    ensures Splits(lines) && Blocks(lines, b, p)
  {
    assert lines[..|lines|] == lines;
  }

  /** What a roll can produce, line by line: blue first and at most three of it, with different attributes and numbered
      by position; of pink and of yellow at most one line, numbered 0; tiers ascending and values within their caps. */
  predicate RollableLines(lines: seq<AttrLine>) {
    && |lines| > 0 && lines[0].tier == 1 && (|lines| > 3 ==> lines[3].tier != 1)
    && (forall i :: 0 <= i < |lines| ==>
          && 1 <= lines[i].tier <= 3 && lines[i].attrId != 0 && lines[i].name != ""
          && 1 <= lines[i].value <= lines[i].cap
          && lines[i].seqNo == if lines[i].tier == 1 then i else 0)
    && forall i, j :: 0 <= i < j < |lines| ==>
         && lines[i].tier <= lines[j].tier
         && (lines[i].tier == lines[j].tier ==> lines[i].tier == 1 && lines[i].attrId != lines[j].attrId)
  }

  lemma RollableIsLines(lines: seq<AttrLine>)
    requires Rollable(lines)
    ensures RollableLines(lines)
  {
    var b: nat, p: nat :| Blocks(lines, b, p) && 1 <= b <= 3 && p - b <= 1 && |lines| - p <= 1;
    assert forall i :: 0 <= i < |lines| ==> LineAt(lines[i], TierAt(i, b, p), SeqAt(i, b, p));
  }

  /** The blue lines are a beginning. */
  lemma BlueEndOf(lines: seq<AttrLine>) returns (b: nat)
    requires RollableLines(lines)
    ensures 1 <= b <= 3 && b <= |lines| && forall i :: 0 <= i < |lines| ==> (lines[i].tier == 1 <==> i < b)
  {
    b := 1;
    while b < |lines| && lines[b].tier == 1
      invariant 1 <= b <= |lines| && forall i :: 0 <= i < b ==> lines[i].tier == 1
    {
      b := b + 1;
    }
  }

  /** Behind the blue lines every line has a higher tier than the one before it. */
  lemma {:induction false} TiersClimb(lines: seq<AttrLine>, i: nat, k: nat)
    requires RollableLines(lines) && i + k < |lines| && lines[i].tier != 1
    ensures lines[i + k].tier as int >= 2 + k
  {
    if k > 0 {
      TiersClimb(lines, i, k - 1);
      assert lines[i + k - 1].tier < lines[i + k].tier;
    }
  }

  lemma TiersAscend(lines: seq<AttrLine>, i: nat)
    requires RollableLines(lines) && i + 1 < |lines| && lines[i].tier != 1
    ensures lines[i].tier == 2 && lines[i + 1].tier == 3 && i + 2 == |lines|
  {
    TiersClimb(lines, i, 1);
    TiersClimb(lines, i, |lines| - 1 - i);
  }

  lemma LinesAreRollable(lines: seq<AttrLine>)
    requires RollableLines(lines)
    ensures Rollable(lines)
  {
    var b := BlueEndOf(lines);
    if b + 1 < |lines| { TiersAscend(lines, b); }
    var p := if b < |lines| && lines[b].tier == 2 then b + 1 else b;
    forall i | 0 <= i < |lines| ensures LineAt(lines[i], TierAt(i, b, p), SeqAt(i, b, p)) {
    }
    assert Blocks(lines, b, p);
  }

  lemma RollableIff(lines: seq<AttrLine>)
    ensures Rollable(lines) <==> RollableLines(lines)
    ensures Rollable(lines) ==> 1 <= |lines| <= 5
  {
    if Rollable(lines) { RollableIsLines(lines); }
    if RollableLines(lines) { LinesAreRollable(lines); }
  }

  datatype Rows = Rows(blue: nat, pink: nat, yellow: nat, blueAttrs: set<uint32>)

  function AddRow(rows: Rows, line: AttrLine): Rows {
    if line.tier == BLUE then rows.(blue := rows.blue + 1, blueAttrs := rows.blueAttrs + {line.attrId})
    else if line.tier == PINK then rows.(pink := rows.pink + 1)
    else rows.(yellow := rows.yellow + 1)
  }

  /** The rows per tier among the first `n` lines, or nothing from the first line on that breaks the order. */
  function Scan(lines: seq<AttrLine>, n: nat): Option<Rows>
    requires n <= |lines|
  {
    if n == 0 then Some(Rows(0, 0, 0, {}))
    else
      match Scan(lines, n - 1)
      case None => None
      case Some(rows) =>
        if LineChecks(lines, n - 1, rows.blueAttrs) then Some(AddRow(rows, lines[n - 1])) else None
  }

  ghost predicate ScannedAs(lines: seq<AttrLine>, n: nat, r: Rows)
    requires n <= |lines|
  {
    r.blue + r.pink + r.yellow == n && Scanned(lines, n, r.blue, r.blue + r.pink, r.blueAttrs)
  }

  lemma ScannedGrows(lines: seq<AttrLine>, n: nat, r: Rows)
    requires n < |lines| <= MAX_LINES && ScannedAs(lines, n, r) && LineChecks(lines, n, r.blueAttrs)
    ensures ScannedAs(lines, n + 1, AddRow(r, lines[n]))
  {
    ScanStep(lines, n, r.blue, r.blue + r.pink, r.blueAttrs);
    var after := AddRow(r, lines[n]);
    assert after.blue == BlueEnd(r.blue, lines[n].tier);
    assert after.blue + after.pink == PinkEnd(r.blue + r.pink, lines[n].tier);
  }

  lemma {:induction false} ScanMeaning(lines: seq<AttrLine>, n: nat)
    requires n <= |lines| <= MAX_LINES
    ensures Scan(lines, n).Some? ==> ScannedAs(lines, n, Scan(lines, n).value)
    ensures Scan(lines, n).None? ==> !Splits(lines)
  {
    if n > 0 {
      ScanMeaning(lines, n - 1);
      if Scan(lines, n - 1).Some? {
        var r := Scan(lines, n - 1).value;
        if LineChecks(lines, n - 1, r.blueAttrs) {
          ScannedGrows(lines, n - 1, r);
        } else {
          NoSplitAfter(lines, n - 1, r.blue, r.blue + r.pink, r.blueAttrs);
        }
      }
    }
  }

  lemma {:induction false} ScanStops(lines: seq<AttrLine>, n: nat, m: nat)
    requires n <= m <= |lines| && Scan(lines, n).None?
    ensures Scan(lines, m).None?
  {
    if n < m { ScanStops(lines, n, m - 1); }
  }

  /** The loop over the lines. */
  method CountTiers(lines: seq<AttrLine>) returns (rows: Option<Rows>)
    ensures rows == Scan(lines, |lines|)
  {
    var blueAttrs: set<uint32> := {};
    var blue, pink, yellow := 0, 0, 0;
    for n := 0 to |lines|
      invariant Scan(lines, n) == Some(Rows(blue, pink, yellow, blueAttrs))
    {
      if !LineChecks(lines, n, blueAttrs) {
        ScanStops(lines, n + 1, |lines|);
        return None;
      }
      if lines[n].tier == BLUE {
        blueAttrs := blueAttrs + {lines[n].attrId};
        blue := blue + 1;
      } else if lines[n].tier == PINK {
        pink := pink + 1;
      } else {
        yellow := yellow + 1;
      }
    }
    return Some(Rows(blue, pink, yellow, blueAttrs));
  }

  lemma CountedMeaning(lines: seq<AttrLine>)
    requires |lines| <= MAX_LINES
    ensures Rollable(lines) <==>
      var counted := Scan(lines, |lines|);
      counted.Some? && 1 <= counted.value.blue <= 3 && counted.value.pink <= 1 && counted.value.yellow <= 1
  {
    ScanMeaning(lines, |lines|);
    if Scan(lines, |lines|).Some? {
      var Rows(blue, pink, yellow, blueAttrs) := Scan(lines, |lines|).value;
      ScanDone(lines, blue, blue + pink, blueAttrs);
      if Rollable(lines) {
        var b: nat, p: nat :| Blocks(lines, b, p) && 1 <= b <= 3 && p - b <= 1 && |lines| - p <= 1;
        BlocksUnique(lines, b, p, blue, blue + pink);
      }
    }
  }

  /** checkEquipAffixLines accepts exactly what a roll can produce; the bound on the total is implied. */
  method CheckAffixLines(lines: seq<AttrLine>) returns (ok: bool)
    ensures ok <==> Rollable(lines)
    ensures ok <==> RollableLines(lines)
    ensures ok ==> 1 <= |lines| <= 5
  {
    RollableIff(lines);
    if |lines| < MIN_LINES || |lines| > MAX_LINES { return false; }
    var counted := CountTiers(lines);
    CountedMeaning(lines);
    if counted.None? { return false; }
    var Rows(blue, pink, yellow, blueAttrs) := counted.value;
    ok := 1 <= blue <= 3 && pink <= 1 && yellow <= 1;
  }
}
