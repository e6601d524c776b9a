/** The reconciliation checkers of the forge smoke run (robot/equip_forge_smoke_scenario.go):
    each compares the snapshot before an accepted request with the one after it. */
module Forge {
  import opened Ints
  import opened Sorting
  import opened Bags
  import opened Scale

  const WEAPON: uint32 := 1101
  const MAX_ENHANCE_LEVEL: uint32 := 12
  const WEAPON_BASE_DAMAGE: uint64 := 40
  const ATTR_DAMAGE: uint32 := 1
  const TIER_BASE: uint32 := 0

  datatype SocketDef = SocketDef(socket: uint32, gemType: uint32)

  const WEAPON_SOCKETS: seq<SocketDef> := [SocketDef(0, 1), SocketDef(1, 0)]

  datatype BaseAttr = BaseAttr(attrId: uint32, value: uint64)

  const WEAPON_BASE: seq<BaseAttr> := [BaseAttr(ATTR_DAMAGE, WEAPON_BASE_DAMAGE)]

  /** equipForgeBags: inventory and equipment bag at one moment. */
  datatype Snapshot = Snapshot(inventory: Bag, equipment: Bag)

  function Target(s: Snapshot, id: uint64): Option<Item> {
    var worn := FindItem(s.equipment.items, id);
    if worn.Some? then worn else FindItem(s.inventory.items, id)
  }

  predicate Worn(s: Snapshot, id: uint64) {
    FindItem(s.equipment.items, id).Some?
  }

  function Home(s: Snapshot, id: uint64): Bag {
    if Worn(s, id) then s.equipment else s.inventory
  }

  function LevelAfterFailure(level: uint32, loss: uint32): uint32 {
    if level > loss then level - loss else 0
  }

  /** The items of a bag except one, in their order. */
  function OthersThan(items: seq<Item>, id: uint64): (r: seq<Item>)
    ensures |r| <= |items|
    ensures forall x :: x in r <==> x in items && x.itemId != id
  {
    if items == [] then []
    else (if items[0].itemId == id then [] else [items[0]]) + OthersThan(items[1..], id)
  }

  /** equipForgeWithoutItem: the bag without one item and without its currency. */
  function Without(bag: Bag, id: uint64): Bag {
    Bag(OthersThan(bag.items, id), bag.layout, None)
  }

  /** equipForgeEnhanceBlind: the item without the fields that follow the enhance level. */
  function EnhanceBlind(item: Item): Item {
    item.(enhanceLevel := 0, enhanceBonusPermyriad := 0, enhanceNext := None, baseAttrs := [])
  }

  function SocketsBut(sockets: seq<GemSocket>, number: uint32): seq<GemSocket> {
    if sockets == [] then []
    else (if sockets[0].socket == number then [] else [sockets[0]]) + SocketsBut(sockets[1..], number)
  }

  /** equipForgeSocketBlind: the item without one socket. */
  function SocketBlind(item: Item, number: uint32): Item {
    item.(gemSockets := SocketsBut(item.gemSockets, number))
  }

  // ------------------------------------------------------------------ display checks

  predicate GemAttrOk(a: AttrLine) {
    a.attrId != 0 && a.name != "" && a.value != 0 && a.tier == 0 && a.cap == 0 && a.seqNo == 0
  }

  predicate SocketOk(g: GemSocket, def: SocketDef) {
    && g.socket == def.socket && g.gemType == def.gemType && g.name != ""
    && (g.gemConfigId == 0 ==> g.attr.None? && g.gemName == "")
    && (g.gemConfigId != 0 && g.attr.Some? ==> GemAttrOk(g.attr.value))
  }

  predicate SocketsOk(sockets: seq<GemSocket>, want: seq<SocketDef>) {
    |sockets| == |want| && forall i :: 0 <= i < |want| ==> SocketOk(sockets[i], want[i])
  }

  method CheckSockets(sockets: seq<GemSocket>, want: seq<SocketDef>) returns (ok: bool)
    ensures ok <==> SocketsOk(sockets, want)
  {
    if |sockets| != |want| { return false; }
    for n := 0 to |sockets|
      invariant forall i :: 0 <= i < n ==> SocketOk(sockets[i], want[i])
    {
      var g, def := sockets[n], want[n];
      if g.socket != def.socket || g.gemType != def.gemType { return false; }
      if g.name == "" { return false; }
      if g.gemConfigId == 0 {
        if g.attr.Some? || g.gemName != "" { return false; }
        continue;
      }
      if g.attr.Some? {
        if !GemAttrOk(g.attr.value) { return false; }
      }
    }
    return true;
  }

  /** One base line of an item: its value is the scaled table value, its bonus the difference,
      its preview the table value scaled by the next level's permyriad (0 without a next level). */
  predicate BaseLineOk(item: Item, index: nat, line: AttrLine, want: BaseAttr) {
    && line.attrId == want.attrId
    && line.tier == TIER_BASE && line.cap == 0 && line.seqNo == index % UINT32_BOUND && line.name != ""
    && line.value == Scaled(want.value, item.enhanceBonusPermyriad)
    && line.enhanceBonus == line.value - want.value
    && line.enhanceNextValue
         == (if item.enhanceNext.Some? then Scaled(want.value, item.enhanceNext.value.bonusPermyriad) else 0)
  }

  predicate BaseLinesOk(item: Item, want: seq<BaseAttr>) {
    |item.baseAttrs| == |want| && forall i :: 0 <= i < |want| ==> BaseLineOk(item, i, item.baseAttrs[i], want[i])
  }

  /** checkEquipForgeBaseLines. The source compares `value - bonus` and `bonus` separately;
      together they pin the value itself. */
  method CheckBaseLines(item: Item, want: seq<BaseAttr>) returns (ok: bool)
    ensures ok <==> BaseLinesOk(item, want)
  {
    var lines := item.baseAttrs;
    if |lines| != |want| { return false; }
    for n := 0 to |lines|
      invariant forall i :: 0 <= i < n ==> BaseLineOk(item, i, lines[i], want[i])
    {
      var line, expected := lines[n], want[n];
      if line.attrId != expected.attrId { return false; }
      if line.tier != TIER_BASE || line.cap != 0 || line.seqNo != n % UINT32_BOUND || line.name == "" {
        return false;
      }
      if line.value < line.enhanceBonus || line.value - line.enhanceBonus != expected.value {
        ScaledAtLeastBase(expected.value, item.enhanceBonusPermyriad);
        return false;
      }
      var scaled := ScaleByPermyriad(expected.value, item.enhanceBonusPermyriad);
      if line.enhanceBonus != scaled - expected.value { return false; }
      var preview: uint64 := 0;
      if item.enhanceNext.Some? {
        preview := ScaleByPermyriad(expected.value, item.enhanceNext.value.bonusPermyriad);
      }
      if line.enhanceNextValue != preview { return false; }
    }
    return true;
  }

  predicate NextOk(item: Item) {
    if item.enhanceLevel >= item.enhanceMaxLevel then item.enhanceNext.None?
    else
      && item.enhanceNext.Some?
      && item.enhanceNext.value.nextLevel == item.enhanceLevel + 1
      && 1 <= item.enhanceNext.value.successRate <= PERMYRIAD
      && item.enhanceNext.value.bonusPermyriad >= item.enhanceBonusPermyriad
  }

  predicate TargetDisplayOk(item: Item) {
    && item.configId == WEAPON && item.equipKind != 0 && item.count == 1
    && item.enhanceMaxLevel == MAX_ENHANCE_LEVEL && item.enhanceLevel <= item.enhanceMaxLevel
    && (item.enhanceLevel == 0 ==> item.enhanceBonusPermyriad == 0)
    && NextOk(item)
    && BaseLinesOk(item, WEAPON_BASE)
    && SocketsOk(item.gemSockets, WEAPON_SOCKETS)
  }

  method CheckTargetDisplay(item: Item) returns (ok: bool)
    ensures ok <==> TargetDisplayOk(item)
  {
    if item.configId != WEAPON || item.equipKind == 0 || item.count != 1 { return false; }
    var level, limit := item.enhanceLevel, item.enhanceMaxLevel;
    if limit != MAX_ENHANCE_LEVEL { return false; }
    if level > limit { return false; }
    if level == 0 && item.enhanceBonusPermyriad != 0 { return false; }
    if level >= limit {
      if item.enhanceNext.Some? { return false; }
    } else {
      if item.enhanceNext.None? { return false; }
      var next := item.enhanceNext.value;
      if next.nextLevel != level + 1 { return false; }
      if next.successRate < 1 || next.successRate > PERMYRIAD { return false; }
      if next.bonusPermyriad < item.enhanceBonusPermyriad { return false; }
    }
    var lines := CheckBaseLines(item, WEAPON_BASE);
    if !lines { return false; }
    ok := CheckSockets(item.gemSockets, WEAPON_SOCKETS);
  }

  // ------------------------------------------------------------------ the common ledger

  /** What every accepted request must leave alone besides the target's own fields. */
  ghost predicate LedgerHolds(before: Snapshot, after: Snapshot, id: uint64, goldSpent: uint64) {
    && !(FindItem(after.inventory.items, id).Some? && FindItem(after.equipment.items, id).Some?)
    && Target(before, id).Some? && Target(after, id).Some?
    && Worn(before, id) == Worn(after, id)
    && SlotOf(Slots(Home(before, id)), id) == SlotOf(Slots(Home(after, id)), id)
    && Gold(before.inventory) == Gold(after.inventory) + goldSpent
    && Gold(after.equipment) == Gold(after.inventory)
    && SameContents(Without(before.equipment, id), Without(after.equipment, id))
  }

  ghost predicate CountsMatch(wantCounts: map<uint32, uint64>, bag: Bag) {
    forall c: uint32 :: At(wantCounts, c) == CountOf(bag.items, c)
  }

  method CheckLedger(before: Snapshot, after: Snapshot, id: uint64, wantCounts: map<uint32, uint64>, goldSpent: uint64)
    returns (ok: bool)
    ensures ok ==> LedgerHolds(before, after, id, goldSpent) && CountsMatch(wantCounts, after.inventory)
    ensures KeysDecide(Without(before.equipment, id)) ==>
      (ok <==> LedgerHolds(before, after, id, goldSpent) && CountsMatch(wantCounts, after.inventory))
  {
    if FindItem(after.inventory.items, id).Some? && FindItem(after.equipment.items, id).Some? { return false; }
    var was, now := Target(before, id), Target(after, id);
    if was.None? || now.None? { return false; }
    if Worn(before, id) != Worn(after, id) { return false; }
    var homeBefore, homeAfter := before.inventory, after.inventory;
    if Worn(before, id) {
      homeBefore, homeAfter := before.equipment, after.equipment;
    }
    if SlotOf(Slots(homeBefore), id) != SlotOf(Slots(homeAfter), id) { return false; }
    var goldBefore, goldAfter := Gold(before.inventory), Gold(after.inventory);
    if goldBefore < goldSpent || goldBefore - goldSpent != goldAfter { return false; }
    if Gold(after.equipment) != goldAfter { return false; }
    var counts := ConfigCounts(after.inventory);
    var diff := CountsDiff(wantCounts, counts);
    if diff != [] {
      assert diff[0] in diff;
      return false;
    }
    ok := BagsEqual(Without(before.equipment, id), Without(after.equipment, id));
  }

  // ------------------------------------------------------------------ enhance

  function MaterialSpent(next: EnhancePreview, config: uint32): nat {
    if next.materialConfigId == config && config != 0 then next.materialCount else 0
  }

  function LevelAfter(item: Item, next: EnhancePreview, success: bool): uint32 {
    if success then (item.enhanceLevel + 1) % UINT32_BOUND
    else LevelAfterFailure(item.enhanceLevel, next.failLevelLoss)
  }

  predicate LineFollows(was: AttrLine, now: AttrLine, permyriad: uint32, success: bool) {
    && now.attrId == was.attrId
    && now.value >= now.enhanceBonus && was.value >= was.enhanceBonus
    && now.value - now.enhanceBonus == was.value - was.enhanceBonus
    && now.value == Scaled(now.value - now.enhanceBonus, permyriad)
    && (success ==> now.value == was.enhanceNextValue)
  }

  /** How the target itself may change in an accepted enhancement. */
  ghost predicate EnhancesTarget(was: Item, now: Item, next: EnhancePreview, success: bool) {
    && now.enhanceLevel == LevelAfter(was, next, success)
    && if LevelAfter(was, next, success) == was.enhanceLevel then was == now
       else
         && EnhanceBlind(was) == EnhanceBlind(now)
         && |now.baseAttrs| == |was.baseAttrs|
         && (forall i :: 0 <= i < |now.baseAttrs| ==>
               LineFollows(was.baseAttrs[i], now.baseAttrs[i], now.enhanceBonusPermyriad, success))
         && (success ==> now.enhanceBonusPermyriad == next.bonusPermyriad)
  }

  /** The reply agrees with the preview shown before: a next level, the odds and the resulting level. */
  predicate ReplyFits(was: Item, success: bool, level: uint32) {
    && was.enhanceNext.Some?
    && var next := was.enhanceNext.value;
    && next.nextLevel == (was.enhanceLevel + 1) % UINT32_BOUND
    && (!success ==> next.successRate < PERMYRIAD)
    && level == LevelAfter(was, next, success)
  }

  ghost predicate MaterialTaken(before: Bag, after: Bag, next: EnhancePreview) {
    forall c: uint32 :: CountOf(before.items, c) == CountOf(after.items, c) + MaterialSpent(next, c)
  }

  ghost predicate Enhanced(before: Snapshot, after: Snapshot, id: uint64, success: bool, level: uint32) {
    && Target(before, id).Some?
    && var was := Target(before, id).value;
    && ReplyFits(was, success, level)
    && var next := was.enhanceNext.value;
    && LedgerHolds(before, after, id, next.costGold)
    && MaterialTaken(before.inventory, after.inventory, next)
    && EnhancesTarget(was, Target(after, id).value, next, success)
  }

  method CheckEnhanceLines(was: Item, now: Item, success: bool) returns (ok: bool)
    ensures ok <==>
      && |now.baseAttrs| == |was.baseAttrs|
      && forall i :: 0 <= i < |now.baseAttrs| ==>
           LineFollows(was.baseAttrs[i], now.baseAttrs[i], now.enhanceBonusPermyriad, success)
  {
    if |now.baseAttrs| != |was.baseAttrs| { return false; }
    for n := 0 to |now.baseAttrs|
      invariant forall i :: 0 <= i < n ==>
        LineFollows(was.baseAttrs[i], now.baseAttrs[i], now.enhanceBonusPermyriad, success)
    {
      var line, previous := now.baseAttrs[n], was.baseAttrs[n];
      if line.attrId != previous.attrId || line.value < line.enhanceBonus || previous.value < previous.enhanceBonus
         || line.value - line.enhanceBonus != previous.value - previous.enhanceBonus {
        return false;
      }
      var base := line.value - line.enhanceBonus;
      var scaled := ScaleByPermyriad(base, now.enhanceBonusPermyriad);
      if line.enhanceBonus != scaled - base { return false; }
      if success && line.value != previous.enhanceNextValue { return false; }
    }
    return true;
  }

  /** The counts an enhancement leaves, or nothing when the material does not suffice. */
  method CountsAfterEnhance(inventory: Bag, next: EnhancePreview) returns (counts: Option<map<uint32, uint64>>)
    ensures counts.Some? ==>
      forall c: uint32 :: CountOf(inventory.items, c) == At(counts.value, c) + MaterialSpent(next, c)
    ensures counts.None? ==> exists c: uint32 :: CountOf(inventory.items, c) < MaterialSpent(next, c)
  {
    var have := ConfigCounts(inventory);
    var material, count := next.materialConfigId, next.materialCount;
    if material != 0 && count > 0 {
      if At(have, material) < count {
        assert CountOf(inventory.items, material) < MaterialSpent(next, material);
        return None;
      }
      have := have[material := At(have, material) - count];
    }
    return Some(have);
  }

  method CheckEnhancedTarget(was: Item, now: Item, next: EnhancePreview, success: bool) returns (ok: bool)
    ensures ok <==> EnhancesTarget(was, now, next, success)
  {
    var want := LevelAfter(was, next, success);
    if now.enhanceLevel != want { return false; }
    if want == was.enhanceLevel {
      return was == now;
    }
    if EnhanceBlind(was) != EnhanceBlind(now) { return false; }
    var lines := CheckEnhanceLines(was, now, success);
    if !lines { return false; }
    return !success || now.enhanceBonusPermyriad == next.bonusPermyriad;
  }

  method CheckReply(was: Item, success: bool, level: uint32) returns (ok: bool)
    ensures ok <==> ReplyFits(was, success, level)
  {
    if was.enhanceNext.None? { return false; }
    var next := was.enhanceNext.value;
    if next.nextLevel != (was.enhanceLevel + 1) % UINT32_BOUND { return false; }
    if !success && next.successRate >= PERMYRIAD { return false; }
    return level == LevelAfter(was, next, success);
  }

  /** checkEquipForgeEnhance. */
  method CheckEnhance(before: Snapshot, after: Snapshot, id: uint64, success: bool, level: uint32) returns (ok: bool)
    ensures ok ==> Enhanced(before, after, id, success, level)
    ensures KeysDecide(Without(before.equipment, id)) && Enhanced(before, after, id, success, level) ==> ok
  {
    if Target(before, id).None? { return false; }
    var was := Target(before, id).value;
    var fits := CheckReply(was, success, level);
    if !fits { return false; }
    var next := was.enhanceNext.value;
    var wantCounts := CountsAfterEnhance(before.inventory, next);
    if wantCounts.None? { return false; }
    var ledger := CheckLedger(before, after, id, wantCounts.value, next.costGold);
    if !ledger { return false; }
    ok := CheckEnhancedTarget(was, Target(after, id).value, next, success);
  }

  // ------------------------------------------------------------------ inlay and remove

  predicate SameDefinition(a: GemSocket, b: GemSocket) {
    a.gemType == b.gemType && a.name == b.name
  }

  /** The stack of a config with the smallest item id (equipBagItemsOfConfig sorts by it). */
  ghost predicate IsFirstStack(items: seq<Item>, config: uint32, item: Item) {
    && item in items && item.configId == config
    && forall x :: x in items && x.configId == config ==> item.itemId <= x.itemId
  }

  function SourceAttrId(item: Item): uint32 { if item.gemAttr.Some? then item.gemAttr.value.attrId else 0 }

  function SourceValue(item: Item): uint64 { if item.gemAttr.Some? then item.gemAttr.value.value else 0 }

  /** The attribute is the one a first stack of the gem shows. */
  ghost predicate FromFirstStack(inventory: Bag, gem: uint32, attr: AttrLine) {
    exists source ::
      && IsFirstStack(inventory.items, gem, source)
      && attr.attrId == SourceAttrId(source) && attr.value == SourceValue(source)
  }

  ghost predicate InlaysTarget(was: Item, now: Item, socket: uint32, gem: uint32, inventory: Bag) {
    var hole, filled := SocketOf(was.gemSockets, socket), SocketOf(now.gemSockets, socket);
    && hole.Some? && hole.value.gemConfigId == 0
    && filled.Some? && filled.value.gemConfigId == gem
    && SameDefinition(hole.value, filled.value)
    && filled.value.gemName != ""
    && filled.value.attr.Some? && GemAttrOk(filled.value.attr.value)
    && FromFirstStack(inventory, gem, filled.value.attr.value)
    && SocketBlind(was, socket) == SocketBlind(now, socket)
  }

  ghost predicate Inlaid(before: Snapshot, after: Snapshot, id: uint64, socket: uint32, gem: uint32) {
    && Target(before, id).Some?
    && LedgerHolds(before, after, id, 0)
    && (forall c: uint32 ::
          CountOf(before.inventory.items, c) == CountOf(after.inventory.items, c) + if c == gem then 1 else 0)
    && InlaysTarget(Target(before, id).value, Target(after, id).value, socket, gem, before.inventory)
  }

  ghost predicate RemovesFromTarget(was: Item, now: Item, socket: uint32) {
    var hole, emptied := SocketOf(was.gemSockets, socket), SocketOf(now.gemSockets, socket);
    && hole.Some? && hole.value.gemConfigId != 0
    && emptied.Some? && emptied.value.gemConfigId == 0 && emptied.value.attr.None? && emptied.value.gemName == ""
    && SameDefinition(hole.value, emptied.value)
    && SocketBlind(was, socket) == SocketBlind(now, socket)
  }

  /** The gem a removal hands back. */
  function GemIn(item: Item, socket: uint32): uint32 {
    var hole := SocketOf(item.gemSockets, socket);
    if hole.Some? then hole.value.gemConfigId else 0
  }

  ghost predicate Removed(before: Snapshot, after: Snapshot, id: uint64, socket: uint32) {
    && Target(before, id).Some?
    && LedgerHolds(before, after, id, 0)
    && (forall c: uint32 ::
          CountOf(after.inventory.items, c)
            == CountOf(before.inventory.items, c) + if c == GemIn(Target(before, id).value, socket) then 1 else 0)
    && RemovesFromTarget(Target(before, id).value, Target(after, id).value, socket)
  }

  /** equipBagItemsOfConfig: the stacks of one config by ascending item id. */
  method ItemsOfConfig(bag: Bag, config: uint32) returns (r: seq<Item>)
    ensures forall x :: x in r <==> x in bag.items && x.configId == config
    ensures forall x :: multiset(r)[x] == if x.configId == config then multiset(bag.items)[x] else 0
    ensures SortedBy(r, ItemKey())
  {
    var found: seq<Item> := [];
    for n := 0 to |bag.items|
      invariant forall x :: multiset(found)[x] == if x.configId == config then multiset(bag.items[..n])[x] else 0
    {
      assert bag.items[..n + 1] == bag.items[..n] + [bag.items[n]];
      if bag.items[n].configId == config { found := found + [bag.items[n]]; }
    }
    assert bag.items[..|bag.items|] == bag.items;
    r := SortBy(found, ItemKey());
    forall x ensures x in r <==> x in bag.items && x.configId == config {
      assert x in r <==> multiset(r)[x] > 0;
      assert x in bag.items <==> multiset(bag.items)[x] > 0;
    }
  }

  /** A config that is counted has a stack. */
  lemma {:induction false} CountedHasStack(items: seq<Item>, config: uint32)
    requires CountOf(items, config) > 0
    ensures exists x :: x in items && x.configId == config
  {
    var last := items[|items| - 1];
    if last.configId != config { CountedHasStack(items[..|items| - 1], config); }
  }

  /** The source's read of the gem it takes: the first stack, with nil-safe getters. */
  method CheckGemSource(inventory: Bag, gem: uint32, attr: AttrLine) returns (ok: bool)
    requires CountOf(inventory.items, gem) > 0
    ensures ok ==> FromFirstStack(inventory, gem, attr)
    ensures FromFirstStack(inventory, gem, attr) && KeyDecides(inventory.items, ItemKey()) ==> ok
  {
    CountedHasStack(inventory.items, gem);
    var stacks := ItemsOfConfig(inventory, gem);
    var source := stacks[0];
    assert IsFirstStack(inventory.items, gem, source) by {
      forall x | x in inventory.items && x.configId == gem ensures source.itemId <= x.itemId {
        var k :| 0 <= k < |stacks| && stacks[k] == x;
        assert ItemKey()(stacks[0]) <= ItemKey()(stacks[k]);
      }
    }
    ok := attr.attrId == SourceAttrId(source) && attr.value == SourceValue(source);
    if FromFirstStack(inventory, gem, attr) && KeyDecides(inventory.items, ItemKey()) {
      var other :| IsFirstStack(inventory.items, gem, other)
                && attr.attrId == SourceAttrId(other) && attr.value == SourceValue(other);
      DecidesAmong(inventory.items, ItemKey(), source, other);
    }
  }

  method CheckInlaidTarget(was: Item, now: Item, socket: uint32, gem: uint32, inventory: Bag) returns (ok: bool)
    requires CountOf(inventory.items, gem) > 0
    requires SocketOf(was.gemSockets, socket).Some? && SocketOf(was.gemSockets, socket).value.gemConfigId == 0
    ensures ok ==> InlaysTarget(was, now, socket, gem, inventory)
    ensures InlaysTarget(was, now, socket, gem, inventory) && KeyDecides(inventory.items, ItemKey()) ==> ok
  {
    var hole := SocketOf(was.gemSockets, socket).value;
    var slot := SocketOf(now.gemSockets, socket);
    if slot.None? || slot.value.gemConfigId != gem { return false; }
    var filled := slot.value;
    if filled.gemType != hole.gemType || filled.name != hole.name { return false; }
    if filled.gemName == "" { return false; }
    if filled.attr.None? { return false; }
    if !GemAttrOk(filled.attr.value) { return false; }
    var source := CheckGemSource(inventory, gem, filled.attr.value);
    if !source { return false; }
    return SocketBlind(was, socket) == SocketBlind(now, socket);
  }

  /** checkEquipForgeInlay. */
  method CheckInlay(before: Snapshot, after: Snapshot, id: uint64, socket: uint32, gem: uint32) returns (ok: bool)
    ensures ok ==> Inlaid(before, after, id, socket, gem)
    ensures KeysDecide(Without(before.equipment, id)) && KeyDecides(before.inventory.items, ItemKey()) ==>
      (ok <==> Inlaid(before, after, id, socket, gem))
  {
    if Target(before, id).None? { return false; }
    var was := Target(before, id).value;
    var hole := SocketOf(was.gemSockets, socket);
    if hole.None? { return false; }
    if hole.value.gemConfigId != 0 { return false; }
    var wantCounts := ConfigCounts(before.inventory);
    if At(wantCounts, gem) == 0 { return false; }
    wantCounts := wantCounts[gem := At(wantCounts, gem) - 1];
    var ledger := CheckLedger(before, after, id, wantCounts, 0);
    if !ledger { return false; }
    ok := CheckInlaidTarget(was, Target(after, id).value, socket, gem, before.inventory);
  }

  method CheckEmptiedTarget(was: Item, now: Item, socket: uint32) returns (ok: bool)
    requires SocketOf(was.gemSockets, socket).Some? && SocketOf(was.gemSockets, socket).value.gemConfigId != 0
    ensures ok <==> RemovesFromTarget(was, now, socket)
  {
    var hole := SocketOf(was.gemSockets, socket).value;
    var slot := SocketOf(now.gemSockets, socket);
    if slot.None? { return false; }
    var emptied := slot.value;
    if emptied.gemConfigId != 0 || emptied.attr.Some? || emptied.gemName != "" { return false; }
    if emptied.gemType != hole.gemType || emptied.name != hole.name { return false; }
    return SocketBlind(was, socket) == SocketBlind(now, socket);
  }

  /** checkEquipForgeRemove. */
  method CheckRemove(before: Snapshot, after: Snapshot, id: uint64, socket: uint32) returns (ok: bool)
    ensures ok ==> Removed(before, after, id, socket)
    ensures KeysDecide(Without(before.equipment, id)) && Removed(before, after, id, socket) ==> ok
  {
    if Target(before, id).None? { return false; }
    var was := Target(before, id).value;
    var hole := SocketOf(was.gemSockets, socket);
    if hole.None? || hole.value.gemConfigId == 0 { return false; }
    var gem := hole.value.gemConfigId;
    var wantCounts := ConfigCounts(before.inventory);
    wantCounts := wantCounts[gem := At(wantCounts, gem) + 1];
    var ledger := CheckLedger(before, after, id, wantCounts, 0);
    if !ledger { return false; }
    ok := CheckEmptiedTarget(was, Target(after, id).value, socket);
  }
}
