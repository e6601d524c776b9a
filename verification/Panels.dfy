/** Comparing two attribute panels (robot/equip_smoke_scenario.go:1170-1221) and the exact attack
    shift of the forge run (robot/equip_forge_smoke_scenario.go:1423-1438). */
module Panels {
  import opened Ints
  import opened Sorting

  datatype Derived = Derived(
    maxHealth: uint64, maxMana: uint64, physicalAttack: uint64, magicAttack: uint64, speed: uint64, defense: uint64,
    health: uint64, mana: uint64)

  datatype Dimension = Dimension(dimensionId: uint32, value: uint64, bonus: uint32)

  datatype CombatRow = CombatRow(combatId: uint32, name: string, value: uint64, percent: bool, sort: uint32)

  datatype Panel = Panel(dimensions: seq<Dimension>, derived: Option<Derived>, combat: seq<CombatRow>)

  type Holds = (uint64, uint64) -> bool

  datatype Finding =
    | Stat(index: nat)
    | DimensionGone(id: uint32) | DimensionValue(id: uint32) | DimensionBonus(id: uint32)
    | CombatGone(id: uint32) | CombatValue(id: uint32)
    | RowCount

  /** The six compared limits; a missing message reads as zeros. */
  function Stats(panel: Panel): (r: seq<uint64>)
    ensures |r| == 6
  {
    if panel.derived.None? then [0, 0, 0, 0, 0, 0]
    else
      var d := panel.derived.value;
      [d.maxHealth, d.maxMana, d.physicalAttack, d.magicAttack, d.speed, d.defense]
  }

  /** equipDimension: the first row with this id. */
  function FindDimension(rows: seq<Dimension>, id: uint32): (r: Option<Dimension>)
    ensures r.Some? ==> r.value in rows && r.value.dimensionId == id
    ensures r.None? ==> forall d :: d in rows ==> d.dimensionId != id
  {
    if rows == [] then None
    else if rows[0].dimensionId == id then Some(rows[0])
    else FindDimension(rows[1..], id)
  }

  /** What the table built by equipCombatValues answers: the last row with this id. */
  function CombatAt(rows: seq<CombatRow>, id: uint32): (r: Option<uint64>)
    ensures r.Some? ==> exists c :: c in rows && c.combatId == id && c.value == r.value
    ensures r.None? ==> forall c :: c in rows ==> c.combatId != id
  {
    if rows == [] then None
    else
      var last := rows[|rows| - 1];
      if last.combatId == id then Some(last.value) else CombatAt(rows[..|rows| - 1], id)
  }

  predicate DimensionHolds(d: Dimension, after: Panel, holds: Holds) {
    var other := FindDimension(after.dimensions, d.dimensionId);
    other.Some? && holds(d.value, other.value.value) && holds(d.bonus, other.value.bonus)
  }

  predicate CombatHolds(c: CombatRow, after: Panel, holds: Holds) {
    var other := CombatAt(after.combat, c.combatId);
    other.Some? && holds(c.value, other.value)
  }

  predicate RowsHold(before: Panel, after: Panel, holds: Holds) {
    && (forall i :: 0 <= i < |before.dimensions| ==> DimensionHolds(before.dimensions[i], after, holds))
    && (forall i :: 0 <= i < |before.combat| ==> CombatHolds(before.combat[i], after, holds))
    && |before.dimensions| == |after.dimensions| && |before.combat| == |after.combat|
  }

  /** Every compared number of the first panel relates to its counterpart, and row counts agree. */
  predicate PanelHolds(before: Panel, after: Panel, holds: Holds) {
    && (forall i :: 0 <= i < 6 ==> holds(Stats(before)[i], Stats(after)[i]))
    && RowsHold(before, after, holds)
  }

  method CombatTable(rows: seq<CombatRow>) returns (table: map<uint32, uint64>)
    ensures forall id: uint32 :: (if id in table then Some(table[id]) else None) == CombatAt(rows, id)
  {
    table := map[];
    for n := 0 to |rows|
      invariant forall id: uint32 :: (if id in table then Some(table[id]) else None) == CombatAt(rows[..n], id)
    {
      assert rows[..n + 1][..n] == rows[..n];
      table := table[rows[n].combatId := rows[n].value];
    }
    assert rows[..|rows|] == rows;
  }

  method CompareDimensions(before: Panel, after: Panel, holds: Holds) returns (broken: seq<Finding>)
    ensures broken == [] <==>
      forall i :: 0 <= i < |before.dimensions| ==> DimensionHolds(before.dimensions[i], after, holds)
  {
    broken := [];
    for n := 0 to |before.dimensions|
      invariant broken == [] <==> forall i :: 0 <= i < n ==> DimensionHolds(before.dimensions[i], after, holds)
    {
      var d := before.dimensions[n];
      var other := FindDimension(after.dimensions, d.dimensionId);
      if other.None? {
        broken := broken + [DimensionGone(d.dimensionId)];
        continue;
      }
      if !holds(d.value, other.value.value) { broken := broken + [DimensionValue(d.dimensionId)]; }
      if !holds(d.bonus, other.value.bonus) { broken := broken + [DimensionBonus(d.dimensionId)]; }
    }
  }

  method CompareCombat(before: Panel, after: Panel, holds: Holds) returns (broken: seq<Finding>)
    ensures broken == [] <==> forall i :: 0 <= i < |before.combat| ==> CombatHolds(before.combat[i], after, holds)
  {
    broken := [];
    var table := CombatTable(after.combat);
    for n := 0 to |before.combat|
      invariant broken == [] <==> forall i :: 0 <= i < n ==> CombatHolds(before.combat[i], after, holds)
    {
      var row := before.combat[n];
      assert (if row.combatId in table then Some(table[row.combatId]) else None)
          == CombatAt(after.combat, row.combatId);
      if row.combatId !in table {
        broken := broken + [CombatGone(row.combatId)];
        continue;
      }
      if !holds(row.value, table[row.combatId]) { broken := broken + [CombatValue(row.combatId)]; }
    }
  }

  /** equipPanelCompare: nothing is reported exactly when the panels relate. */
  method PanelCompare(before: Panel, after: Panel, holds: Holds) returns (broken: seq<Finding>)
    ensures broken == [] <==> PanelHolds(before, after, holds)
  {
    broken := [];
    for n := 0 to 6
      invariant broken == [] <==> forall i :: 0 <= i < n ==> holds(Stats(before)[i], Stats(after)[i])
    {
      if !holds(Stats(before)[n], Stats(after)[n]) { broken := broken + [Stat(n)]; }
    }
    var dimensions := CompareDimensions(before, after, holds);
    var combat := CompareCombat(before, after, holds);
    broken := broken + dimensions + combat;
    if |before.dimensions| != |after.dimensions| || |before.combat| != |after.combat| {
      broken := broken + [RowCount];
    }
  }

  // ------------------------------------------------------------------ the relation

  function Equal(): Holds { (was: uint64, now: uint64) => now == was }

  function NotBelow(): Holds { (was: uint64, now: uint64) => now >= was }

  function DimensionKey(): Dimension -> int { (d: Dimension) => d.dimensionId }

  function CombatKey(): CombatRow -> int { (c: CombatRow) => c.combatId }

  ghost predicate DistinctRows(panel: Panel) {
    DistinctBy(panel.dimensions, DimensionKey()) && DistinctBy(panel.combat, CombatKey())
  }

  ghost predicate Reflexive(holds: Holds) { forall x: uint64 :: holds(x, x) }

  ghost predicate Transitive(holds: Holds) {
    forall x: uint64, y: uint64, z: uint64 :: holds(x, y) && holds(y, z) ==> holds(x, z)
  }

  lemma OwnDimension(panel: Panel, d: Dimension)
    requires DistinctRows(panel) && d in panel.dimensions
    ensures FindDimension(panel.dimensions, d.dimensionId) == Some(d)
  {
    var found := FindDimension(panel.dimensions, d.dimensionId);
    assert found.Some?;
    SameKeySame(panel.dimensions, DimensionKey(), d, found.value);
  }

  lemma OwnCombat(panel: Panel, c: CombatRow)
    requires DistinctRows(panel) && c in panel.combat
    ensures CombatAt(panel.combat, c.combatId) == Some(c.value)
  {
    var found := CombatAt(panel.combat, c.combatId);
    assert found.Some?;
    var other :| other in panel.combat && other.combatId == c.combatId && other.value == found.value;
    SameKeySame(panel.combat, CombatKey(), c, other);
  }

  /** A panel with distinct ids relates to itself ... */
  lemma PanelReflexive(panel: Panel, holds: Holds)
    requires DistinctRows(panel) && Reflexive(holds)
    ensures PanelHolds(panel, panel, holds)
  {
    forall i | 0 <= i < |panel.dimensions| ensures DimensionHolds(panel.dimensions[i], panel, holds) {
      OwnDimension(panel, panel.dimensions[i]);
    }
    forall i | 0 <= i < |panel.combat| ensures CombatHolds(panel.combat[i], panel, holds) {
      OwnCombat(panel, panel.combat[i]);
    }
  }

  /** ... the relation chains on any panels ... */
  lemma PanelTransitive(a: Panel, b: Panel, c: Panel, holds: Holds)
    requires Transitive(holds)
    requires PanelHolds(a, b, holds) && PanelHolds(b, c, holds)
    ensures PanelHolds(a, c, holds)
  {
    RowsTransitive(a, b, c, holds);
    forall i | 0 <= i < 6 ensures holds(Stats(a)[i], Stats(c)[i]) {
      assert holds(Stats(a)[i], Stats(b)[i]) && holds(Stats(b)[i], Stats(c)[i]);
    }
  }

  lemma RowsTransitive(a: Panel, b: Panel, c: Panel, holds: Holds)
    requires Transitive(holds)
    requires RowsHold(a, b, holds) && RowsHold(b, c, holds)
    ensures RowsHold(a, c, holds)
  {
    forall i | 0 <= i < |a.dimensions| ensures DimensionHolds(a.dimensions[i], c, holds) {
      assert DimensionHolds(a.dimensions[i], b, holds);
      var mid := FindDimension(b.dimensions, a.dimensions[i].dimensionId).value;
      var j :| 0 <= j < |b.dimensions| && b.dimensions[j] == mid;
      assert DimensionHolds(b.dimensions[j], c, holds);
    }
    forall i | 0 <= i < |a.combat| ensures CombatHolds(a.combat[i], c, holds) {
      assert CombatHolds(a.combat[i], b, holds);
      var mid :| mid in b.combat && mid.combatId == a.combat[i].combatId
              && mid.value == CombatAt(b.combat, a.combat[i].combatId).value;
      var j :| 0 <= j < |b.combat| && b.combat[j] == mid;
      assert CombatHolds(b.combat[j], c, holds);
    }
  }

  /** With distinct ids and equal row counts the one-directional lookup misses no row of the second panel. */
  lemma SameRows(a: Panel, b: Panel, holds: Holds)
    requires DistinctRows(a) && DistinctRows(b) && PanelHolds(a, b, holds)
    ensures KeySet(a.dimensions, DimensionKey()) == KeySet(b.dimensions, DimensionKey())
    ensures KeySet(a.combat, CombatKey()) == KeySet(b.combat, CombatKey())
  {
    forall d | d in a.dimensions ensures DimensionKey()(d) in KeySet(b.dimensions, DimensionKey()) {
      var i :| 0 <= i < |a.dimensions| && a.dimensions[i] == d;
      assert DimensionHolds(a.dimensions[i], b, holds);
      assert DimensionKey()(FindDimension(b.dimensions, d.dimensionId).value) == DimensionKey()(d);
    }
    forall c | c in a.combat ensures CombatKey()(c) in KeySet(b.combat, CombatKey()) {
      var i :| 0 <= i < |a.combat| && a.combat[i] == c;
      assert CombatHolds(a.combat[i], b, holds);
      var other :| other in b.combat && other.combatId == c.combatId;
      assert CombatKey()(other) == CombatKey()(c);
    }
    KeySetSize(a.dimensions, DimensionKey());
    KeySetSize(b.dimensions, DimensionKey());
    KeySetSize(a.combat, CombatKey());
    KeySetSize(b.combat, CombatKey());
    SubsetOfSameSize(KeySet(a.dimensions, DimensionKey()), KeySet(b.dimensions, DimensionKey()));
    SubsetOfSameSize(KeySet(a.combat, CombatKey()), KeySet(b.combat, CombatKey()));
  }

  ghost predicate Converse(holds: Holds, back: Holds) {
    forall x: uint64, y: uint64 :: holds(x, y) ==> back(y, x)
  }

  lemma DimensionConverse(a: Panel, b: Panel, d: Dimension, holds: Holds, back: Holds)
    requires DistinctRows(a) && DistinctRows(b) && Converse(holds, back)
    requires PanelHolds(a, b, holds) && d in b.dimensions
    ensures DimensionHolds(d, a, back)
  {
    SameRows(a, b, holds);
    assert DimensionKey()(d) in KeySet(a.dimensions, DimensionKey());
    var own :| own in a.dimensions && DimensionKey()(own) == d.dimensionId;
    var j :| 0 <= j < |a.dimensions| && a.dimensions[j] == own;
    assert DimensionHolds(a.dimensions[j], b, holds);
    OwnDimension(a, own);
    OwnDimension(b, d);
  }

  lemma CombatConverse(a: Panel, b: Panel, c: CombatRow, holds: Holds, back: Holds)
    requires DistinctRows(a) && DistinctRows(b) && Converse(holds, back)
    requires PanelHolds(a, b, holds) && c in b.combat
    ensures CombatHolds(c, a, back)
  {
    SameRows(a, b, holds);
    assert CombatKey()(c) in KeySet(a.combat, CombatKey());
    var own :| own in a.combat && CombatKey()(own) == c.combatId;
    var j :| 0 <= j < |a.combat| && a.combat[j] == own;
    assert CombatHolds(a.combat[j], b, holds);
    OwnCombat(a, own);
    OwnCombat(b, c);
  }

  /** ... and on distinct ids it turns around: whatever relates forward relates backward by the converse. */
  lemma PanelConverse(a: Panel, b: Panel, holds: Holds, back: Holds)
    requires DistinctRows(a) && DistinctRows(b) && Converse(holds, back)
    requires PanelHolds(a, b, holds)
    ensures PanelHolds(b, a, back)
  {
    forall i | 0 <= i < |b.dimensions| ensures DimensionHolds(b.dimensions[i], a, back) {
      DimensionConverse(a, b, b.dimensions[i], holds, back);
    }
    forall i | 0 <= i < |b.combat| ensures CombatHolds(b.combat[i], a, back) {
      CombatConverse(a, b, b.combat[i], holds, back);
    }
    forall i | 0 <= i < 6 ensures back(Stats(b)[i], Stats(a)[i]) {
      assert holds(Stats(a)[i], Stats(b)[i]);
    }
  }

  predicate SameNumbers(d: Dimension, e: Dimension) { d.value == e.value && d.bonus == e.bonus }

  predicate Agree(d: Dimension, e: Dimension) { d.dimensionId == e.dimensionId ==> SameNumbers(d, e) }

  predicate AgreeCombat(c: CombatRow, d: CombatRow) { c.combatId == d.combatId ==> c.value == d.value }

  /** Rows of one id agree on their compared numbers: repeats do not matter, contradictions do. */
  predicate Decided(panel: Panel) {
    && (forall i, j :: 0 <= i < |panel.dimensions| && 0 <= j < |panel.dimensions| ==>
          Agree(panel.dimensions[i], panel.dimensions[j]))
    && forall i, j :: 0 <= i < |panel.combat| && 0 <= j < |panel.combat| ==>
         AgreeCombat(panel.combat[i], panel.combat[j])
  }

  /** The ids of a panel are among those of another. */
  predicate IdsAmong(b: Panel, a: Panel) {
    && (forall i :: 0 <= i < |b.dimensions| ==> FindDimension(a.dimensions, b.dimensions[i].dimensionId).Some?)
    && forall i :: 0 <= i < |b.combat| ==> CombatAt(a.combat, b.combat[i].combatId).Some?
  }

  lemma DecidedDimension(panel: Panel, d: Dimension)
    requires Decided(panel) && d in panel.dimensions
    ensures
      var first := FindDimension(panel.dimensions, d.dimensionId);
      first.Some? && SameNumbers(d, first.value)
  {
    var first := FindDimension(panel.dimensions, d.dimensionId);
    assert first.Some?;
    var i :| 0 <= i < |panel.dimensions| && panel.dimensions[i] == d;
    var j :| 0 <= j < |panel.dimensions| && panel.dimensions[j] == first.value;
    assert Agree(panel.dimensions[i], panel.dimensions[j]);
  }

  lemma DecidedCombat(panel: Panel, c: CombatRow)
    requires Decided(panel) && c in panel.combat
    ensures CombatAt(panel.combat, c.combatId) == Some(c.value)
  {
    var found := CombatAt(panel.combat, c.combatId);
    assert found.Some?;
    var other :| other in panel.combat && other.combatId == c.combatId && other.value == found.value;
    var i :| 0 <= i < |panel.combat| && panel.combat[i] == c;
    var j :| 0 <= j < |panel.combat| && panel.combat[j] == other;
    assert AgreeCombat(panel.combat[i], panel.combat[j]);
  }

  /** Whatever the ids: when two panels compare equal, they do so the other way round if and only if rows of one id
      agree in the second and its ids are among those of the first. */
  lemma TurnsAroundIff(a: Panel, b: Panel)
    requires PanelHolds(a, b, Equal())
    ensures PanelHolds(b, a, Equal()) <==> Decided(b) && IdsAmong(b, a)
  {
    if Decided(b) && IdsAmong(b, a) { DecidedTurnsAround(a, b); }
    if PanelHolds(b, a, Equal()) { HeldIsDecided(b, a); }
  }

  lemma DecidedTurnsAround(a: Panel, b: Panel)
    requires PanelHolds(a, b, Equal()) && Decided(b) && IdsAmong(b, a)
    ensures PanelHolds(b, a, Equal())
  {
    forall i | 0 <= i < |b.dimensions| ensures DimensionHolds(b.dimensions[i], a, Equal()) {
      var own := FindDimension(a.dimensions, b.dimensions[i].dimensionId).value;
      var j :| 0 <= j < |a.dimensions| && a.dimensions[j] == own;
      assert DimensionHolds(a.dimensions[j], b, Equal());
      DecidedDimension(b, b.dimensions[i]);
    }
    forall i | 0 <= i < |b.combat| ensures CombatHolds(b.combat[i], a, Equal()) {
      var found := CombatAt(a.combat, b.combat[i].combatId);
      var own :| own in a.combat && own.combatId == b.combat[i].combatId && own.value == found.value;
      var j :| 0 <= j < |a.combat| && a.combat[j] == own;
      assert CombatHolds(a.combat[j], b, Equal());
      DecidedCombat(b, b.combat[i]);
    }
    forall i | 0 <= i < 6 ensures Equal()(Stats(b)[i], Stats(a)[i]) {
      assert Equal()(Stats(a)[i], Stats(b)[i]);
    }
  }

  /** A panel whose every row finds its numbers somewhere does not contradict itself. */
  lemma HeldIsDecided(b: Panel, a: Panel)
    requires PanelHolds(b, a, Equal())
    ensures Decided(b) && IdsAmong(b, a)
  {
    forall i, j | 0 <= i < |b.dimensions| && 0 <= j < |b.dimensions| ensures Agree(b.dimensions[i], b.dimensions[j]) {
      assert DimensionHolds(b.dimensions[i], a, Equal()) && DimensionHolds(b.dimensions[j], a, Equal());
    }
    forall i, j | 0 <= i < |b.combat| && 0 <= j < |b.combat| ensures AgreeCombat(b.combat[i], b.combat[j]) {
      assert CombatHolds(b.combat[i], a, Equal()) && CombatHolds(b.combat[j], a, Equal());
    }
    forall i | 0 <= i < |b.dimensions| ensures FindDimension(a.dimensions, b.dimensions[i].dimensionId).Some? {
      assert DimensionHolds(b.dimensions[i], a, Equal());
    }
    forall i | 0 <= i < |b.combat| ensures CombatAt(a.combat, b.combat[i].combatId).Some? {
      assert CombatHolds(b.combat[i], a, Equal());
    }
  }

  /** A panel compares equal to itself if and only if rows of one id agree. */
  lemma ReflexiveIff(panel: Panel)
    ensures PanelHolds(panel, panel, Equal()) <==> Decided(panel)
  {
    if Decided(panel) {
      forall i | 0 <= i < |panel.dimensions| ensures DimensionHolds(panel.dimensions[i], panel, Equal()) {
        DecidedDimension(panel, panel.dimensions[i]);
      }
      forall i | 0 <= i < |panel.combat| ensures CombatHolds(panel.combat[i], panel, Equal()) {
        DecidedCombat(panel, panel.combat[i]);
      }
    }
    if PanelHolds(panel, panel, Equal()) { HeldIsDecided(panel, panel); }
  }

  lemma DistinctIsDecided(panel: Panel)
    requires DistinctRows(panel)
    ensures Decided(panel)
  {
    PanelReflexive(panel, Equal());
    ReflexiveIff(panel);
  }

  lemma DistinctIdsAmong(a: Panel, b: Panel)
    requires DistinctRows(a) && DistinctRows(b) && PanelHolds(a, b, Equal())
    ensures IdsAmong(b, a)
  {
    SameRows(a, b, Equal());
    forall i | 0 <= i < |b.dimensions| ensures FindDimension(a.dimensions, b.dimensions[i].dimensionId).Some? {
      assert DimensionKey()(b.dimensions[i]) in KeySet(b.dimensions, DimensionKey());
    }
    forall i | 0 <= i < |b.combat| ensures CombatAt(a.combat, b.combat[i].combatId).Some? {
      assert CombatKey()(b.combat[i]) in KeySet(b.combat, CombatKey());
    }
  }

  /** So an empty equipPanelDiff is an equivalence on panels with distinct ids. */
  lemma DiffIsEquivalence(a: Panel, b: Panel, c: Panel)
    requires DistinctRows(a) && DistinctRows(b)
    ensures PanelHolds(a, a, Equal())
    ensures PanelHolds(a, b, Equal()) <==> PanelHolds(b, a, Equal())
    ensures PanelHolds(a, b, Equal()) && PanelHolds(b, c, Equal()) ==> PanelHolds(a, c, Equal())
  {
    DistinctIsDecided(a);
    DistinctIsDecided(b);
    ReflexiveIff(a);
    if PanelHolds(a, b, Equal()) {
      DistinctIdsAmong(a, b);
      TurnsAroundIff(a, b);
    }
    if PanelHolds(b, a, Equal()) {
      DistinctIdsAmong(b, a);
      TurnsAroundIff(b, a);
    }
    if PanelHolds(a, b, Equal()) && PanelHolds(b, c, Equal()) { PanelTransitive(a, b, c, Equal()); }
  }

  /** equipPanelDrops: on distinct ids no drop in either direction means no difference. */
  lemma NoDropBothWays(a: Panel, b: Panel)
    requires DistinctRows(a) && DistinctRows(b)
    ensures PanelHolds(a, b, NotBelow()) && PanelHolds(b, a, NotBelow()) <==> PanelHolds(a, b, Equal())
  {
    if PanelHolds(a, b, Equal()) {
      PanelWeaker(a, b, Equal(), NotBelow());
      PanelConverse(a, b, Equal(), NotBelow());
    }
    if PanelHolds(a, b, NotBelow()) && PanelHolds(b, a, NotBelow()) {
      PanelConverse(b, a, NotBelow(), (was: uint64, now: uint64) => now <= was);
      PanelBoth(a, b, NotBelow(), (was: uint64, now: uint64) => now <= was, Equal());
    }
  }

  lemma PanelBoth(a: Panel, b: Panel, one: Holds, other: Holds, both: Holds)
    requires PanelHolds(a, b, one) && PanelHolds(a, b, other)
    requires forall x: uint64, y: uint64 :: one(x, y) && other(x, y) ==> both(x, y)
    ensures PanelHolds(a, b, both)
  {
    forall i | 0 <= i < |a.dimensions| ensures DimensionHolds(a.dimensions[i], b, both) {
      assert DimensionHolds(a.dimensions[i], b, one) && DimensionHolds(a.dimensions[i], b, other);
    }
    forall i | 0 <= i < |a.combat| ensures CombatHolds(a.combat[i], b, both) {
      assert CombatHolds(a.combat[i], b, one) && CombatHolds(a.combat[i], b, other);
    }
  }

  lemma PanelWeaker(a: Panel, b: Panel, holds: Holds, weaker: Holds)
    requires PanelHolds(a, b, holds)
    requires forall x: uint64, y: uint64 :: holds(x, y) ==> weaker(x, y)
    ensures PanelHolds(a, b, weaker)
  {
    PanelBoth(a, b, holds, holds, weaker);
  }

  /** With a repeated id the answer depends on the direction. */
  lemma RepeatedIdIsOneSided()
    ensures exists a: Panel, b: Panel :: PanelHolds(a, b, Equal()) && !PanelHolds(b, a, Equal())
  {
    var one, two := CombatRow(1, "", 7, false, 0), CombatRow(2, "", 7, false, 0);
    var a, b := Panel([], None, [one, one]), Panel([], None, [one, two]);
    assert [one, two][..1] == [one] && [one, one][..1] == [one];
    assert CombatAt([one], 1) == Some(7) && CombatAt([one], 2) == None;
    assert CombatAt(b.combat, 1) == Some(7);
    assert CombatAt(a.combat, 2) == None;
    assert !CombatHolds(b.combat[1], a, Equal());
    assert PanelHolds(a, b, Equal());
  }

  /** With two rows of one id that disagree a panel differs from itself. */
  lemma ContradictionDiffersFromItself()
    ensures exists p: Panel :: !PanelHolds(p, p, Equal())
  {
    var p := Panel([], None, [CombatRow(1, "", 7, false, 0), CombatRow(1, "", 8, false, 0)]);
    ReflexiveIff(p);
    assert !AgreeCombat(p.combat[0], p.combat[1]);
  }

  // ------------------------------------------------------------------ the attack shift

  /** Negation in 64 bits: the smallest value is its own negation. */
  function Negate(delta: int64v): int64v { ToInt64(-(delta as int)) }

  predicate ShiftAllowed(attack: uint64, delta: int64v) {
    delta < 0 ==> attack >= ToUint64(-(delta as int))
  }

  function ShiftAttack(attack: uint64, delta: int64v): uint64 {
    ToUint64(ToInt64(ToInt64(attack) + delta))
  }

  function ShiftPanel(panel: Panel, delta: int64v): Panel
    requires panel.derived.Some?
  {
    var d := panel.derived.value;
    panel.(derived := Some(d.(physicalAttack := ShiftAttack(d.physicalAttack, delta),
                              magicAttack := ShiftAttack(d.magicAttack, delta))))
  }

  ghost predicate ShiftedBy(before: Panel, after: Panel, delta: int64v) {
    && before.derived.Some? && after.derived.Some?
    && ShiftAllowed(before.derived.value.physicalAttack, delta)
    && ShiftAllowed(before.derived.value.magicAttack, delta)
    && PanelHolds(ShiftPanel(before, delta), after, Equal())
  }

  /** checkEquipForgePanelShift. */
  method CheckPanelShift(before: Panel, after: Panel, delta: int64v) returns (ok: bool)
    ensures ok <==> ShiftedBy(before, after, delta)
  {
    if before.derived.None? || after.derived.None? { return false; }
    var d := before.derived.value;
    var attacks := [d.physicalAttack, d.magicAttack];
    for n := 0 to 2
      invariant |attacks| == 2
      invariant attacks[0] == if n <= 0 then d.physicalAttack else ShiftAttack(d.physicalAttack, delta)
      invariant attacks[1] == if n <= 1 then d.magicAttack else ShiftAttack(d.magicAttack, delta)
      invariant n > 0 ==> ShiftAllowed(d.physicalAttack, delta)
      invariant n > 1 ==> ShiftAllowed(d.magicAttack, delta)
    {
      if delta < 0 && attacks[n] < ToUint64(-(delta as int)) { return false; }
      attacks := attacks[n := ToUint64(ToInt64(ToInt64(attacks[n]) + delta))];
    }
    var want := before.(derived := Some(d.(physicalAttack := attacks[0], magicAttack := attacks[1])));
    var diff := PanelCompare(want, after, Equal());
    return diff == [];
  }

  /** Shifting adds the signed delta modulo 2^64 ... */
  lemma ShiftMeaning(attack: uint64, delta: int64v)
    ensures ShiftAttack(attack, delta) == (attack + delta) % UINT64_BOUND
  {
    Residue64(attack);
    Residue64(ToInt64(attack) + delta);
    SameResidue(ToInt64(attack) + delta, attack + delta, Turns(attack));
  }

  /** The six limits of a panel, field by field; a missing message reads as zeros. */
  function Limits(panel: Panel): Derived {
    if panel.derived.Some? then panel.derived.value else Derived(0, 0, 0, 0, 0, 0, 0, 0)
  }

  /** What the comparison reads: the six limits, without current health and mana, and the rows. */
  lemma PanelOnFields(a: Panel, b: Panel)
    ensures PanelHolds(a, b, Equal()) <==>
      && Limits(a).maxHealth == Limits(b).maxHealth && Limits(a).maxMana == Limits(b).maxMana
      && Limits(a).physicalAttack == Limits(b).physicalAttack && Limits(a).magicAttack == Limits(b).magicAttack
      && Limits(a).speed == Limits(b).speed && Limits(a).defense == Limits(b).defense
      && RowsHold(a, b, Equal())
  {
    var x, y := Stats(a), Stats(b);
    assert (forall i :: 0 <= i < 6 ==> Equal()(x[i], y[i])) <==>
      && Equal()(x[0], y[0]) && Equal()(x[1], y[1]) && Equal()(x[2], y[2])
      && Equal()(x[3], y[3]) && Equal()(x[4], y[4]) && Equal()(x[5], y[5]);
  }

  /** On distinct ids the rows compare equal exactly when each row of the first panel has one of the same id and
      numbers in the second, which has no more rows. */
  lemma RowsOnFields(a: Panel, b: Panel)
    requires DistinctRows(a) && DistinctRows(b)
    ensures RowsHold(a, b, Equal()) <==>
      && |a.dimensions| == |b.dimensions| && |a.combat| == |b.combat|
      && (forall d :: d in a.dimensions ==>
            exists e :: e in b.dimensions && e.dimensionId == d.dimensionId && e.value == d.value && e.bonus == d.bonus)
      && (forall c :: c in a.combat ==> exists e :: e in b.combat && e.combatId == c.combatId && e.value == c.value)
  {
    forall d | d in a.dimensions
      ensures DimensionHolds(d, b, Equal()) <==>
        exists e :: e in b.dimensions && e.dimensionId == d.dimensionId && e.value == d.value && e.bonus == d.bonus
    {
      if e :| e in b.dimensions && e.dimensionId == d.dimensionId { OwnDimension(b, e); }
    }
    forall c | c in a.combat
      ensures CombatHolds(c, b, Equal()) <==>
        exists e :: e in b.combat && e.combatId == c.combatId && e.value == c.value
    {
      if e :| e in b.combat && e.combatId == c.combatId { OwnCombat(b, e); }
    }
    assert (forall i :: 0 <= i < |a.dimensions| ==> DimensionHolds(a.dimensions[i], b, Equal()))
      <==> forall d :: d in a.dimensions ==> DimensionHolds(d, b, Equal());
    assert (forall i :: 0 <= i < |a.combat| ==> CombatHolds(a.combat[i], b, Equal()))
      <==> forall c :: c in a.combat ==> CombatHolds(c, b, Equal());
  }

  /** An accepted shift, field by field: both attacks move by the delta modulo 2^64 - and a negative one is no larger
      than they are - the other four limits and all rows stay, and current health and mana are not looked at. */
  lemma ShiftOnFields(before: Panel, after: Panel, delta: int64v)
    ensures ShiftedBy(before, after, delta) <==>
      && before.derived.Some? && after.derived.Some?
      && var x, y := before.derived.value, after.derived.value;
      && x.physicalAttack + delta >= 0 && x.magicAttack + delta >= 0
      && y.physicalAttack == (x.physicalAttack + delta) % 0x1_0000_0000_0000_0000
      && y.magicAttack == (x.magicAttack + delta) % 0x1_0000_0000_0000_0000
      && x.maxHealth == y.maxHealth && x.maxMana == y.maxMana && x.speed == y.speed && x.defense == y.defense
      && RowsHold(before, after, Equal())
  {
    if before.derived.Some? && after.derived.Some? {
      var x := before.derived.value;
      ShiftMeaning(x.physicalAttack, delta);
      ShiftMeaning(x.magicAttack, delta);
      AllowedMeaning(x.physicalAttack, delta);
      AllowedMeaning(x.magicAttack, delta);
      var want := ShiftPanel(before, delta);
      PanelOnFields(want, after);
      assert RowsHold(want, after, Equal()) <==> RowsHold(before, after, Equal());
    }
  }

  lemma AllowedMeaning(attack: uint64, delta: int64v)
    ensures ShiftAllowed(attack, delta) <==> attack + delta >= 0
  {
  }

  lemma NegateMeaning(delta: int64v)
    ensures Negate(delta) == (if delta == -INT64_BOUND then -INT64_BOUND else -(delta as int))
  {
  }

  /** ... so the opposite shift undoes it, also for the delta that is its own negation. */
  lemma OppositeShift(attack: uint64, delta: int64v)
    ensures ShiftAttack(ShiftAttack(attack, delta), Negate(delta)) == attack
  {
    var there := ShiftAttack(attack, delta);
    ShiftMeaning(attack, delta);
    ShiftMeaning(there, Negate(delta));
    NegateMeaning(delta);
    OppositeResidue(attack, delta, there, Negate(delta));
  }

  lemma OppositeResidue(attack: uint64, delta: int64v, there: uint64, opposite: int64v)
    requires there == (attack + delta) % UINT64_BOUND
    requires opposite == if delta == -INT64_BOUND then -INT64_BOUND else -(delta as int)
    ensures (there + opposite) % UINT64_BOUND == attack
  {
    if attack + delta < 0 {
      assert there == attack + delta + UINT64_BOUND;
    } else if attack + delta >= UINT64_BOUND {
      assert there == attack + delta - UINT64_BOUND;
    }
  }

  /** An accepted shift never wraps downwards: it is exact if and only if the sum fits 64 bits. */
  lemma AllowedShiftIsExact(attack: uint64, delta: int64v)
    requires ShiftAllowed(attack, delta)
    ensures ShiftAttack(attack, delta) == attack + delta <==> attack + delta < UINT64_BOUND
  {
    ShiftMeaning(attack, delta);
  }

  /** The largest attack shifted up by one is allowed, and becomes 0. */
  lemma PositiveShiftMayWrap()
    ensures ShiftAllowed(UINT64_BOUND - 1, 1) && ShiftAttack(UINT64_BOUND - 1, 1) == 0
  {
    ShiftMeaning(UINT64_BOUND - 1, 1);
  }

  /** A shift followed by the opposite one leaves no compared number of the first and the last panel different. */
  lemma OppositeShiftsRestore(p0: Panel, p1: Panel, p2: Panel, delta: int64v)
    requires ShiftedBy(p0, p1, delta) && ShiftedBy(p1, p2, Negate(delta))
    ensures PanelHolds(p0, p2, Equal())
    ensures DistinctRows(p0) && DistinctRows(p2) ==> PanelHolds(p2, p0, Equal())
  {
    var there, back := ShiftPanel(p0, delta), ShiftPanel(p1, Negate(delta));
    var d := p0.derived.value;
    OppositeShift(d.physicalAttack, delta);
    OppositeShift(d.magicAttack, delta);
    assert RowsHold(p0, p1, Equal()) by { assert RowsHold(there, p1, Equal()); }
    assert RowsHold(p1, p2, Equal()) by { assert RowsHold(back, p2, Equal()); }
    RowsTransitive(p0, p1, p2, Equal());
    forall i | 0 <= i < 6 ensures Equal()(Stats(p0)[i], Stats(p2)[i]) {
      assert Equal()(Stats(there)[i], Stats(p1)[i]) && Equal()(Stats(back)[i], Stats(p2)[i]);
    }
    if DistinctRows(p0) && DistinctRows(p2) { PanelConverse(p0, p2, Equal(), Equal()); }
  }
}
