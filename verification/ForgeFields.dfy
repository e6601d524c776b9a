/** What acceptance by the forge checkers says about the fields of the messages themselves, in figures, and
    examples that are accepted (robot/equip_forge_smoke_scenario.go:1101-1380). */
module ForgeFields {
  import opened Ints
  import opened Bags
  import opened Scale
  import opened Forge

  /** The bag carries a gold amount. */
  predicate ShowsGold(bag: Bag) { bag.currency.Some? && |bag.currency.value.values| > 0 }

  function GoldField(bag: Bag): uint64
    requires ShowsGold(bag)
  {
    bag.currency.value.values[0]
  }

  /** The gold fields of three bags that carry one: the price is paid once, and both bags agree afterwards. */
  lemma PriceIsPaid(before: Snapshot, after: Snapshot, id: uint64, cost: uint64)
    requires LedgerHolds(before, after, id, cost)
    requires ShowsGold(before.inventory) && ShowsGold(after.inventory) && ShowsGold(after.equipment)
    ensures GoldField(before.inventory) == GoldField(after.inventory) + cost
    ensures GoldField(after.equipment) == GoldField(after.inventory)
  {
  }

  /** An enhancement costs the gold it was previewed to cost, an inlay and a removal nothing. */
  lemma GoldOnFields(
      before: Snapshot, after: Snapshot, id: uint64, success: bool, level: uint32, socket: uint32, gem: uint32)
    requires ShowsGold(before.inventory) && ShowsGold(after.inventory) && ShowsGold(after.equipment)
    ensures Enhanced(before, after, id, success, level) ==>
      && Target(before, id).value.enhanceNext.Some?
      && GoldField(before.inventory)
           == GoldField(after.inventory) + Target(before, id).value.enhanceNext.value.costGold
      && GoldField(after.equipment) == GoldField(after.inventory)
    ensures Inlaid(before, after, id, socket, gem) || Removed(before, after, id, socket) ==>
      GoldField(before.inventory) == GoldField(after.inventory) == GoldField(after.equipment)
  {
    if Enhanced(before, after, id, success, level) {
      PriceIsPaid(before, after, id, Target(before, id).value.enhanceNext.value.costGold);
    }
    if Inlaid(before, after, id, socket, gem) || Removed(before, after, id, socket) {
      PriceIsPaid(before, after, id, 0);
    }
  }

  /** An accepted enhancement: one level up, or down by the loss but not below 0; the material is gone unit by unit
      and nothing else is. */
  lemma EnhancementOnFields(before: Snapshot, after: Snapshot, id: uint64, success: bool, level: uint32)
    requires Enhanced(before, after, id, success, level)
    ensures
      var was, now := Target(before, id).value, Target(after, id).value;
      && was.enhanceNext.Some? && now.enhanceLevel == level
      && var next := was.enhanceNext.value;
      && next.nextLevel == (was.enhanceLevel + 1) % 0x1_0000_0000
      && (success ==> level == next.nextLevel && now.enhanceBonusPermyriad == next.bonusPermyriad)
      && (!success ==>
            next.successRate < 10000 && was.enhanceLevel == level + Min(was.enhanceLevel, next.failLevelLoss))
      && forall c: uint32 ::
           |Units(before.inventory.items, c)| == |Units(after.inventory.items, c)|
             + if c != 0 && c == next.materialConfigId then next.materialCount else 0
  {
    forall c: uint32
      ensures CountOf(before.inventory.items, c) == |Units(before.inventory.items, c)|
      ensures CountOf(after.inventory.items, c) == |Units(after.inventory.items, c)|
    {
      CountIsUnits(before.inventory.items, c);
      CountIsUnits(after.inventory.items, c);
    }
  }

  /** And its lines: nothing at all changes when the level stays; else every line keeps its attribute and table value
      and shows it scaled by the target's new permyriad, saturated. */
  lemma LinesOnFields(before: Snapshot, after: Snapshot, id: uint64, success: bool, level: uint32, i: nat)
    requires Enhanced(before, after, id, success, level)
    ensures
      var was, now := Target(before, id).value, Target(after, id).value;
      && |was.baseAttrs| == |now.baseAttrs|
      && (level == was.enhanceLevel ==> was == now)
      && (level != was.enhanceLevel && i < |was.baseAttrs| ==>
            && now.baseAttrs[i].attrId == was.baseAttrs[i].attrId
            && var table := now.baseAttrs[i].value - now.baseAttrs[i].enhanceBonus;
            && table == was.baseAttrs[i].value - was.baseAttrs[i].enhanceBonus
            && now.baseAttrs[i].value
                 == Min(table + table * now.enhanceBonusPermyriad / 10000, 0xFFFF_FFFF_FFFF_FFFF))
  {
    var was, now := Target(before, id).value, Target(after, id).value;
    if level != was.enhanceLevel && i < |was.baseAttrs| {
      assert LineFollows(was.baseAttrs[i], now.baseAttrs[i], now.enhanceBonusPermyriad, success);
    }
  }

  /** A well-displayed target, field by field: the weapon with its twelve levels, the preview of the next one, its one
      base line of 40 damage with bonus and preview, and its two sockets. */
  lemma DisplayOnFields(item: Item)
    ensures TargetDisplayOk(item) <==>
      && item.configId == 1101 && item.equipKind != 0 && item.count == 1
      && item.enhanceMaxLevel == 12 && item.enhanceLevel <= 12
      && (item.enhanceLevel == 0 ==> item.enhanceBonusPermyriad == 0)
      && (item.enhanceNext.Some? <==> item.enhanceLevel < 12)
      && (item.enhanceNext.Some? ==>
            var next := item.enhanceNext.value;
            && next.nextLevel == item.enhanceLevel + 1 && 1 <= next.successRate <= 10000
            && next.bonusPermyriad >= item.enhanceBonusPermyriad)
      && |item.baseAttrs| == 1
      && (var line := item.baseAttrs[0];
          && line.attrId == 1 && line.tier == line.cap == line.seqNo == 0 && line.name != ""
          && line.value == 40 + line.enhanceBonus
          && line.enhanceBonus == 40 * item.enhanceBonusPermyriad / 10000
          && line.enhanceNextValue
               == if item.enhanceNext.Some? then 40 + 40 * item.enhanceNext.value.bonusPermyriad / 10000 else 0)
      && |item.gemSockets| == 2
      && SocketOnFields(item.gemSockets[0], 0, 1) && SocketOnFields(item.gemSockets[1], 1, 0)
  {
    if |item.baseAttrs| == 1 && |item.gemSockets| == 2 {
      assert BaseLinesOk(item, WEAPON_BASE) <==> BaseLineOk(item, 0, item.baseAttrs[0], WEAPON_BASE[0]);
      assert SocketsOk(item.gemSockets, WEAPON_SOCKETS) <==>
        SocketOk(item.gemSockets[0], WEAPON_SOCKETS[0]) && SocketOk(item.gemSockets[1], WEAPON_SOCKETS[1]);
    }
  }

  /** A named socket of this number and type: bare when empty, else with no attribute or a sound one. */
  predicate SocketOnFields(g: GemSocket, number: uint32, gemType: uint32) {
    && g.socket == number && g.gemType == gemType && g.name != ""
    && (g.gemConfigId == 0 ==> g.attr.None? && g.gemName == "")
    && (g.attr.Some? ==>
          var a := g.attr.value;
          a.attrId != 0 && a.name != "" && a.value != 0 && a.tier == 0 && a.cap == 0 && a.seqNo == 0)
  }

  /** An accepted inlay: one unit of the gem is gone and nothing else is; the socket shows the gem with the attribute
      that the gem's stack of the least item id showed in the inventory. */
  lemma InlayOnFields(before: Snapshot, after: Snapshot, id: uint64, socket: uint32, gem: uint32)
    requires Inlaid(before, after, id, socket, gem)
    ensures forall c: uint32 ::
      |Units(before.inventory.items, c)| == |Units(after.inventory.items, c)| + if c == gem then 1 else 0
    ensures exists hole, filled, stack ::
      && hole in Target(before, id).value.gemSockets && filled in Target(after, id).value.gemSockets
      && hole.socket == filled.socket == socket && hole.gemConfigId == 0 && filled.gemConfigId == gem
      && hole.gemType == filled.gemType && hole.name == filled.name && filled.gemName != ""
      && stack in before.inventory.items && stack.configId == gem
      && (forall x :: x in before.inventory.items && x.configId == gem ==> stack.itemId <= x.itemId)
      && filled.attr.Some? && stack.gemAttr.Some?
      && filled.attr.value.attrId == stack.gemAttr.value.attrId != 0
      && filled.attr.value.value == stack.gemAttr.value.value > 0
      && filled.attr.value.name != "" && filled.attr.value.tier == filled.attr.value.cap == filled.attr.value.seqNo == 0
  {
    forall c: uint32
      ensures CountOf(before.inventory.items, c) == |Units(before.inventory.items, c)|
      ensures CountOf(after.inventory.items, c) == |Units(after.inventory.items, c)|
    {
      CountIsUnits(before.inventory.items, c);
      CountIsUnits(after.inventory.items, c);
    }
    var hole := SocketOf(Target(before, id).value.gemSockets, socket).value;
    var filled := SocketOf(Target(after, id).value.gemSockets, socket).value;
    var stack :| IsFirstStack(before.inventory.items, gem, stack)
      && filled.attr.value.attrId == SourceAttrId(stack) && filled.attr.value.value == SourceValue(stack);
    assert hole in Target(before, id).value.gemSockets && filled in Target(after, id).value.gemSockets;
  }

  /** An accepted removal: one unit of the gem that was in the socket is back and nothing else is, and the socket is
      empty. */
  lemma RemovalOnFields(before: Snapshot, after: Snapshot, id: uint64, socket: uint32)
    requires Removed(before, after, id, socket)
    ensures exists hole, emptied ::
      && hole in Target(before, id).value.gemSockets && emptied in Target(after, id).value.gemSockets
      && hole.socket == emptied.socket == socket && hole.gemConfigId != 0
      && emptied.gemConfigId == 0 && emptied.gemName == "" && emptied.attr.None?
      && hole.gemType == emptied.gemType && hole.name == emptied.name
      && forall c: uint32 ::
           |Units(after.inventory.items, c)|
             == |Units(before.inventory.items, c)| + if c == hole.gemConfigId then 1 else 0
  {
    forall c: uint32
      ensures CountOf(before.inventory.items, c) == |Units(before.inventory.items, c)|
      ensures CountOf(after.inventory.items, c) == |Units(after.inventory.items, c)|
    {
      CountIsUnits(before.inventory.items, c);
      CountIsUnits(after.inventory.items, c);
    }
    var hole := SocketOf(Target(before, id).value.gemSockets, socket).value;
    var emptied := SocketOf(Target(after, id).value.gemSockets, socket).value;
    assert hole in Target(before, id).value.gemSockets && emptied in Target(after, id).value.gemSockets;
  }

  // ------------------------------------------------------------------ the place of the target

  predicate Holds(bag: Bag, id: uint64) { exists x :: x in bag.items && x.itemId == id }

  /** The only entry of an item names its slot. */
  predicate StandsIn(bag: Bag, id: uint64, e: SlotEntry) {
    e in Slots(bag) && e.itemId == id && forall f :: f in Slots(bag) && f.itemId == id ==> f == e
  }

  lemma {:induction false} OnlyEntry(slots: seq<SlotEntry>, id: uint64, e: SlotEntry)
    requires e in slots && e.itemId == id && forall f :: f in slots && f.itemId == id ==> f == e
    ensures SlotOf(slots, id) == e.slot
  {
    if slots[0].itemId != id {
      assert slots == [slots[0]] + slots[1..];
      OnlyEntry(slots[1..], id, e);
    }
  }

  /** A target in the inventory that is not worn keeps its slot there, and one that is worn keeps it among the
      equipment; it is never in both bags. */
  lemma TargetStays(before: Snapshot, after: Snapshot, id: uint64, cost: uint64, e: SlotEntry, f: SlotEntry)
    requires LedgerHolds(before, after, id, cost)
    ensures Holds(before.equipment, id) <==> Holds(after.equipment, id)
    ensures !(Holds(after.equipment, id) && Holds(after.inventory, id))
    ensures Holds(before.equipment, id) && StandsIn(before.equipment, id, e) && StandsIn(after.equipment, id, f) ==>
      e.slot == f.slot
    ensures !Holds(before.equipment, id) && StandsIn(before.inventory, id, e) && StandsIn(after.inventory, id, f) ==>
      e.slot == f.slot
  {
    if Worn(before, id) && StandsIn(before.equipment, id, e) && StandsIn(after.equipment, id, f) {
      OnlyEntry(Slots(before.equipment), id, e);
      OnlyEntry(Slots(after.equipment), id, f);
    }
    if !Worn(before, id) && StandsIn(before.inventory, id, e) && StandsIn(after.inventory, id, f) {
      OnlyEntry(Slots(before.inventory), id, e);
      OnlyEntry(Slots(after.inventory), id, f);
    }
  }

  /** Every other item of the equipment bag is still there as it was, and none is new; so are the slot entries and
      the slot definitions. */
  lemma RestIsUntouched(before: Snapshot, after: Snapshot, id: uint64, cost: uint64)
    requires LedgerHolds(before, after, id, cost)
    ensures forall x: Item :: x.itemId != id ==> (x in before.equipment.items <==> x in after.equipment.items)
    ensures forall e: SlotEntry :: e in Slots(before.equipment) <==> e in Slots(after.equipment)
    ensures before.equipment.layout.Some? && after.equipment.layout.Some?
    ensures before.equipment.layout.value.equipSlots == after.equipment.layout.value.equipSlots
    ensures before.equipment.layout.value.capacity == after.equipment.layout.value.capacity
  {
    var was, now := Without(before.equipment, id), Without(after.equipment, id);
    forall x ensures x in was.items <==> x in now.items {
      assert x in multiset(was.items) <==> x in multiset(now.items);
    }
    forall e ensures e in Slots(was) <==> e in Slots(now) {
      assert e in multiset(Slots(was)) <==> e in multiset(Slots(now));
    }
    assert was.layout.value.(slots := []).equipSlots == now.layout.value.(slots := []).equipSlots;
    assert was.layout.value.(slots := []).capacity == now.layout.value.(slots := []).capacity;
  }

  // ------------------------------------------------------------------ examples

  function Weapon(level: uint32, permyriad: uint32, bonus: uint64, next: uint32, preview: uint64): Item
    requires bonus < 1000
  {
    Item(1, 1101, 1, 1, 11, "sword", "", "", 1, 0, "",
         [AttrLine(1, "damage", 0, 40 + bonus, 0, false, 0, bonus, preview)], [], level, 12,
         Some(EnhancePreview((level + 1) % UINT32_BOUND, 8000, 30, 2001, "ore", 3, next, 2, "")),
         [GemSocket(0, 1, 0, "", "", None, "red"), GemSocket(1, 0, 0, "", "", None, "any")], 0, None, permyriad)
  }

  const RING: Item := Item(9, 1201, 1, 1, 12, "ring", "", "", 1, 0, "", [], [], 0, 0, None, [], 0, None, 0)

  function Ore(count: uint32): Item {
    Item(5, 2001, count, 99, 0, "ore", "", "", 0, 0, "", [], [], 0, 0, None, [], 0, None, 0)
  }

  function Purse(gold: uint64): Option<Currency> { Some(Currency([gold, 7], [], [])) }

  /** The weapon is worn beside a ring; the inventory holds one stack of ore. */
  function Scene(weapon: Item, ore: uint32, gold: uint64): Snapshot {
    Snapshot(Bag([Ore(ore)], Some(Layout(0, 10, [SlotEntry(0, 5, 1, 1)], true, [])), Purse(gold)),
             Bag([weapon, RING], Some(Layout(2, 10, [SlotEntry(3, 1, 1, 1), SlotEntry(4, 9, 1, 1)], false, [])),
                 Purse(gold)))
  }

  lemma SceneReads(weapon: Item, ore: uint32, gold: uint64)
    requires weapon.itemId == 1
    ensures Target(Scene(weapon, ore, gold), 1) == Some(weapon) && Worn(Scene(weapon, ore, gold), 1)
    ensures FindItem(Scene(weapon, ore, gold).inventory.items, 1).None?
    ensures OthersThan(Scene(weapon, ore, gold).equipment.items, 1) == [RING]
    ensures forall c: uint32 :: CountOf(Scene(weapon, ore, gold).inventory.items, c) == if c == 2001 then ore else 0
  {
    var s := Scene(weapon, ore, gold);
    assert s.equipment.items[1..] == [RING] && [RING][1..] == [] && [RING] + [] == [RING] && [] + [RING] == [RING];
    assert s.inventory.items[..0] == [];
  }

  lemma SceneLedger(was: Item, now: Item)
    requires was.itemId == now.itemId == 1
    ensures LedgerHolds(Scene(was, 10, 100), Scene(now, 7, 70), 1, 30)
  {
    SceneReads(was, 10, 100);
    SceneReads(now, 7, 70);
  }

  /** Three of ten units of ore and 30 of 100 gold take a worn weapon from level 0 to level 1, from 40 to 42 damage. */
  lemma SuccessIsAccepted()
    ensures TargetDisplayOk(Weapon(0, 0, 0, 500, 42)) && TargetDisplayOk(Weapon(1, 500, 2, 1000, 44))
    ensures Enhanced(Scene(Weapon(0, 0, 0, 500, 42), 10, 100), Scene(Weapon(1, 500, 2, 1000, 44), 7, 70), 1, true, 1)
  {
    var was, now := Weapon(0, 0, 0, 500, 42), Weapon(1, 500, 2, 1000, 44);
    DisplayOnFields(was);
    DisplayOnFields(now);
    SceneReads(was, 10, 100);
    SceneReads(now, 7, 70);
    SceneLedger(was, now);
  }

  /** A failure with loss 2 takes it from level 3 to level 1. */
  lemma FailureIsAccepted()
    ensures
      Enhanced(Scene(Weapon(3, 1500, 6, 2000, 48), 10, 100), Scene(Weapon(1, 500, 2, 1000, 44), 7, 70), 1, false, 1)
  {
    var was, now := Weapon(3, 1500, 6, 2000, 48), Weapon(1, 500, 2, 1000, 44);
    SceneReads(was, 10, 100);
    SceneReads(now, 7, 70);
    SceneLedger(was, now);
  }
}
