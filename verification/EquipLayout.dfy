/** The shape of both bags after equipment was put on or off (robot/equip_smoke_scenario.go:1031-1130),
    and why one direction of the duplication check suffices. */
module EquipLayout {
  import opened Ints
  import opened Sorting
  import opened Bags
  import opened Layouts

  predicate IsSnapshotOf(bag: Bag, bagType: uint32) {
    bag.layout.Some? && bag.layout.value.bagType == bagType
  }

  ghost predicate SnapshotOk(bag: Bag, bagType: uint32) {
    IsSnapshotOf(bag, bagType) && Coherent(bag)
  }

  method CheckSnapshot(bag: Bag, bagType: uint32) returns (ok: bool)
    ensures ok <==> SnapshotOk(bag, bagType)
  {
    if !IsSnapshotOf(bag, bagType) { return false; }
    var totals := Inventory(bag);
    return totals.Some?;
  }

  ghost predicate DefsAscending(defs: seq<EquipSlot>) {
    forall i, j :: 0 <= i < j < |defs| ==> defs[i].slot < defs[j].slot
  }

  ghost predicate Described(defs: seq<EquipSlot>, slot: uint32) {
    exists d :: d in defs && d.slot == slot && d.equipKind != 0 && d.name != ""
  }

  /** Slot definitions are strictly ascending and describe every wanted slot. */
  ghost predicate SlotDefsOk(defs: seq<EquipSlot>, wanted: seq<uint32>) {
    DefsAscending(defs) && forall slot :: slot in wanted ==> Described(defs, slot)
  }

  ghost predicate TableOf(table: map<uint32, EquipSlot>, defs: seq<EquipSlot>) {
    && (forall d :: d in defs ==> d.slot in table && table[d.slot] == d)
    && forall s :: s in table ==> table[s].slot == s && table[s] in defs
  }

  lemma TableDescribes(table: map<uint32, EquipSlot>, defs: seq<EquipSlot>, slot: uint32)
    requires TableOf(table, defs)
    ensures Described(defs, slot) <==> slot in table && table[slot].equipKind != 0 && table[slot].name != ""
  {
  }

  /** "No duplicate" plus "not below the previous one" amounts to strictly ascending. */
  method TabulateDefs(defs: seq<EquipSlot>) returns (table: Option<map<uint32, EquipSlot>>)
    ensures table.Some? <==> DefsAscending(defs)
    ensures table.Some? ==> TableOf(table.value, defs)
  {
    var seen: map<uint32, EquipSlot> := map[];
    for n := 0 to |defs|
      invariant DefsAscending(defs[..n]) && TableOf(seen, defs[..n])
    {
      if defs[n].slot in seen {
        var i :| 0 <= i < n && defs[..n][i] == seen[defs[n].slot];
        assert defs[i].slot == defs[n].slot;
        return None;
      }
      if n > 0 && defs[n].slot < defs[n - 1].slot { return None; }
      assert n > 0 ==> defs[n - 1] in defs[..n];
      assert defs[..n + 1] == defs[..n] + [defs[n]];
      seen := seen[defs[n].slot := defs[n]];
    }
    assert defs[..|defs|] == defs;
    return Some(seen);
  }

  /** checkEquipSlotDefs. */
  method CheckSlotDefs(defs: seq<EquipSlot>, wanted: seq<uint32>) returns (ok: bool)
    ensures ok <==> SlotDefsOk(defs, wanted)
  {
    var table := TabulateDefs(defs);
    if table.None? { return false; }
    for n := 0 to |wanted|
      invariant forall i :: 0 <= i < n ==> Described(defs, wanted[i])
    {
      var slot := wanted[n];
      TableDescribes(table.value, defs, slot);
      assert slot in wanted;
      if slot !in table.value { return false; }
      if table.value[slot].equipKind == 0 || table.value[slot].name == "" { return false; }
    }
    return true;
  }

  predicate SameItemIn(bag: Bag, want: Item) {
    FindItem(bag.items, want.itemId) == Some(want)
  }

  predicate SlotHolds(bag: Bag, equipment: Bag, slot: uint32, want: Item) {
    && Occupant(Slots(equipment), slot) == want.itemId
    && SameItemIn(equipment, want)
    && FindItem(bag.items, want.itemId).None?
  }

  ghost predicate LayoutOk(bag: Bag, equipment: Bag, wantTotal: int, equipped: map<uint32, Item>, inBag: seq<Item>) {
    && SnapshotOk(bag, BAG_INVENTORY) && SnapshotOk(equipment, BAG_EQUIPMENT)
    && SlotDefsOk(equipment.layout.value.equipSlots, SMOKE_SLOTS)
    && |bag.items| + |equipment.items| == wantTotal
    && |equipment.items| == |equipped|
    && (forall slot :: slot in equipped ==> SlotHolds(bag, equipment, slot, equipped[slot]))
    && forall want :: want in inBag ==> SameItemIn(bag, want)
  }

  method SortedSlots(equipped: map<uint32, Item>) returns (slots: seq<uint32>)
    ensures forall s :: s in slots <==> s in equipped
  {
    slots := [];
    var pending := equipped.Keys;
    while pending != {}
      invariant pending <= equipped.Keys
      invariant forall s :: s in slots <==> s in equipped && s !in pending
    {
      var s :| s in pending;
      slots := slots + [s];
      pending := pending - {s};
    }
    var sorted := SortBy(slots, IdKey());
    forall s ensures s in sorted <==> s in slots {
      assert s in multiset(sorted) <==> s in multiset(slots);
    }
    slots := sorted;
  }

  method CheckEquipped(bag: Bag, equipment: Bag, equipped: map<uint32, Item>) returns (ok: bool)
    ensures ok <==> forall slot :: slot in equipped ==> SlotHolds(bag, equipment, slot, equipped[slot])
  {
    var slots := SortedSlots(equipped);
    for n := 0 to |slots|
      invariant forall i :: 0 <= i < n ==> SlotHolds(bag, equipment, slots[i], equipped[slots[i]])
    {
      assert slots[n] in slots;
      if !SlotHolds(bag, equipment, slots[n], equipped[slots[n]]) { return false; }
    }
    return true;
  }

  method CheckInBag(bag: Bag, inBag: seq<Item>) returns (ok: bool)
    ensures ok <==> forall want :: want in inBag ==> SameItemIn(bag, want)
  {
    for n := 0 to |inBag|
      invariant forall i :: 0 <= i < n ==> SameItemIn(bag, inBag[i])
    {
      if !SameItemIn(bag, inBag[n]) { return false; }
    }
    return true;
  }

  /** checkEquipLayout. */
  method CheckLayout(bag: Bag, equipment: Bag, wantTotal: int, equipped: map<uint32, Item>, inBag: seq<Item>)
    returns (ok: bool)
    ensures ok <==> LayoutOk(bag, equipment, wantTotal, equipped, inBag)
  {
    var inventoryOk := CheckSnapshot(bag, BAG_INVENTORY);
    if !inventoryOk { return false; }
    var equipmentOk := CheckSnapshot(equipment, BAG_EQUIPMENT);
    if !equipmentOk { return false; }
    var defsOk := CheckSlotDefs(equipment.layout.value.equipSlots, SMOKE_SLOTS);
    if !defsOk { return false; }
    if |bag.items| + |equipment.items| != wantTotal { return false; }
    if |equipment.items| != |equipped| { return false; }
    var equippedOk := CheckEquipped(bag, equipment, equipped);
    if !equippedOk { return false; }
    ok := CheckInBag(bag, inBag);
  }

  // ------------------------------------------------------------------ the omitted reverse check

  ghost function EquippedIds(equipped: map<uint32, Item>): set<int> {
    set slot | slot in equipped :: equipped[slot].itemId
  }

  /** Different equipped slots expect different items: no item stands in two slots. */
  lemma OneSlotPerItem(
      bag: Bag, equipment: Bag, wantTotal: int, equipped: map<uint32, Item>, inBag: seq<Item>, s: uint32, t: uint32)
    requires LayoutOk(bag, equipment, wantTotal, equipped, inBag)
    requires s in equipped && t in equipped && equipped[s].itemId == equipped[t].itemId
    ensures s == t
  {
    var id := equipped[s].itemId;
    assert SlotHolds(bag, equipment, s, equipped[s]) && SlotHolds(bag, equipment, t, equipped[t]);
    assert id != 0;
    var e :| e in Slots(equipment) && e.slot == s && e.itemId == id;
    var f :| f in Slots(equipment) && f.slot == t && f.itemId == id;
    SameKeySame(Slots(equipment), RefKey(), e, f);
  }

  lemma ImageStep(m: map<uint32, Item>, s: uint32)
    requires s in m
    ensures EquippedIds(m) == EquippedIds(m - {s}) + {m[s].itemId as int}
  {
    forall id | id in EquippedIds(m) ensures id in EquippedIds(m - {s}) + {m[s].itemId as int} {
      var t :| t in m && m[t].itemId == id;
      if t != s { assert t in m - {s}; }
    }
  }

  lemma {:induction false} InjectiveImageSize(m: map<uint32, Item>)
    requires forall s, t :: s in m && t in m && m[s].itemId == m[t].itemId ==> s == t
    ensures |EquippedIds(m)| == |m|
    decreases |m|
  {
    if m == map[] {
      assert EquippedIds(m) == {};
    } else {
      var s :| s in m;
      var rest := m - {s};
      assert m.Keys == rest.Keys + {s};
      assert |m| == |rest| + 1;
      InjectiveImageSize(rest);
      ImageStep(m, s);
    }
  }

  /** The equipped ids are all the ids in the equipment bag: as many, and among them. */
  lemma EquippedIdsAreAll(bag: Bag, equipment: Bag, wantTotal: int, equipped: map<uint32, Item>, inBag: seq<Item>)
    requires LayoutOk(bag, equipment, wantTotal, equipped, inBag)
    ensures EquippedIds(equipped) == KeySet(equipment.items, ItemKey())
  {
    forall s, t | s in equipped && t in equipped && equipped[s].itemId == equipped[t].itemId ensures s == t {
      OneSlotPerItem(bag, equipment, wantTotal, equipped, inBag, s, t);
    }
    InjectiveImageSize(equipped);
    KeySetSize(equipment.items, ItemKey());
    forall slot | slot in equipped ensures equipped[slot].itemId in KeySet(equipment.items, ItemKey()) {
      assert SlotHolds(bag, equipment, slot, equipped[slot]);
      assert ItemKey()(equipped[slot]) in KeySet(equipment.items, ItemKey());
    }
    SubsetOfSameSize(EquippedIds(equipped), KeySet(equipment.items, ItemKey()));
  }

  lemma ItemWithEquippedId(
      bag: Bag, equipment: Bag, wantTotal: int, equipped: map<uint32, Item>, inBag: seq<Item>, item: Item, slot: uint32)
    requires LayoutOk(bag, equipment, wantTotal, equipped, inBag)
    requires item in equipment.items && slot in equipped && equipped[slot].itemId == item.itemId
    ensures equipped[slot] == item && FindItem(bag.items, item.itemId).None?
  {
    assert SlotHolds(bag, equipment, slot, equipped[slot]);
    SameKeySame(equipment.items, ItemKey(), item, equipped[slot]);
  }

  lemma IdIsEquipped(equipped: map<uint32, Item>, id: int)
    requires id in EquippedIds(equipped)
    ensures exists slot :: slot in equipped && equipped[slot].itemId == id
  {
  }

  /** An accepted layout pins the equipment bag down to exactly the expected items ... */
  lemma LayoutIsPinned(
      bag: Bag, equipment: Bag, wantTotal: int, equipped: map<uint32, Item>, inBag: seq<Item>, item: Item)
    requires LayoutOk(bag, equipment, wantTotal, equipped, inBag)
    ensures item in equipment.items <==> exists slot :: slot in equipped && equipped[slot] == item
  {
    if slot :| slot in equipped && equipped[slot] == item {
      assert SlotHolds(bag, equipment, slot, equipped[slot]);
    }
    if item in equipment.items {
      EquippedIdsAreAll(bag, equipment, wantTotal, equipped, inBag);
      assert ItemKey()(item) in KeySet(equipment.items, ItemKey());
      IdIsEquipped(equipped, item.itemId);
      var slot :| slot in equipped && equipped[slot].itemId == item.itemId;
      ItemWithEquippedId(bag, equipment, wantTotal, equipped, inBag, item, slot);
    }
  }

  /** ... and no id is in both bags: the reverse duplication check the source leaves out cannot fail. */
  lemma NothingInBothBags(
      bag: Bag, equipment: Bag, wantTotal: int, equipped: map<uint32, Item>, inBag: seq<Item>, id: uint64)
    requires LayoutOk(bag, equipment, wantTotal, equipped, inBag)
    ensures FindItem(bag.items, id).None? || FindItem(equipment.items, id).None?
    ensures (exists want :: want in inBag && want.itemId == id) ==> FindItem(equipment.items, id).None?
  {
    if FindItem(equipment.items, id).Some? {
      var item := FindItem(equipment.items, id).value;
      LayoutIsPinned(bag, equipment, wantTotal, equipped, inBag, item);
      var slot :| slot in equipped && equipped[slot] == item;
      assert SlotHolds(bag, equipment, slot, equipped[slot]);
    }
    if want :| want in inBag && want.itemId == id {
      assert SameItemIn(bag, want);
    }
  }

  /** The slots of an accepted equipment bag, field by field: an entry stands in a slot exactly when an item is
      expected there, and it is that item's. */
  lemma SlotsArePinned(
      bag: Bag, equipment: Bag, wantTotal: int, equipped: map<uint32, Item>, inBag: seq<Item>, slot: uint32, id: uint64)
    requires LayoutOk(bag, equipment, wantTotal, equipped, inBag)
    ensures (exists e :: e in equipment.layout.value.slots && e.slot == slot && e.itemId == id)
       <==> slot in equipped && equipped[slot].itemId == id
  {
    if slot in equipped && equipped[slot].itemId == id {
      assert SlotHolds(bag, equipment, slot, equipped[slot]) && id != 0;
    }
    if e :| e in Slots(equipment) && e.slot == slot && e.itemId == id {
      EntryIsExpected(bag, equipment, wantTotal, equipped, inBag, e);
    }
  }

  lemma EntryIsExpected(
      bag: Bag, equipment: Bag, wantTotal: int, equipped: map<uint32, Item>, inBag: seq<Item>, e: SlotEntry)
    requires LayoutOk(bag, equipment, wantTotal, equipped, inBag) && e in Slots(equipment)
    ensures e.slot in equipped && equipped[e.slot].itemId == e.itemId
  {
    var k :| 0 <= k < |Slots(equipment)| && Slots(equipment)[k] == e;
    assert EntryOk(Slots(equipment)[k], equipment.layout.value, IdsOf(equipment.items));
    var item :| item in equipment.items && item.itemId == e.itemId;
    LayoutIsPinned(bag, equipment, wantTotal, equipped, inBag, item);
    var s :| s in equipped && equipped[s] == item;
    assert SlotHolds(bag, equipment, s, item) && item.itemId != 0;
    var f :| f in Slots(equipment) && f.slot == s && f.itemId == item.itemId;
    SameKeySame(Slots(equipment), RefKey(), e, f);
  }

  lemma FoundIff(bag: Bag, want: Item)
    requires DistinctBy(bag.items, ItemKey())
    ensures SameItemIn(bag, want) <==> want in bag.items
  {
    if want in bag.items {
      SameKeySame(bag.items, ItemKey(), want, FindItem(bag.items, want.itemId).value);
    }
  }

  lemma SlotHoldsOnFields(bag: Bag, equipment: Bag, slot: uint32, want: Item)
    requires Coherent(equipment)
    ensures SlotHolds(bag, equipment, slot, want) <==>
      && (exists e :: e in equipment.layout.value.slots && e.slot == slot && e.itemId == want.itemId)
      && want in equipment.items && forall x :: x in bag.items ==> x.itemId != want.itemId
  {
    FoundIff(equipment, want);
    if e :| e in Slots(equipment) && e.slot == slot && e.itemId == want.itemId && want in equipment.items {
      var f :| f in Slots(equipment) && f.slot == slot && f.itemId == Occupant(Slots(equipment), slot);
      SameKeySame(Slots(equipment), SlotKey(), e, f);
    }
  }

  lemma ExpectedOnFields(bag: Bag, equipment: Bag, equipped: map<uint32, Item>, inBag: seq<Item>)
    requires Coherent(bag) && Coherent(equipment)
    ensures (forall slot :: slot in equipped ==> SlotHolds(bag, equipment, slot, equipped[slot])) <==>
      forall slot :: slot in equipped ==>
        && (exists e :: e in equipment.layout.value.slots && e.slot == slot && e.itemId == equipped[slot].itemId)
        && equipped[slot] in equipment.items
        && forall x :: x in bag.items ==> x.itemId != equipped[slot].itemId
    ensures (forall want :: want in inBag ==> SameItemIn(bag, want)) <==>
      forall want :: want in inBag ==> want in bag.items
  {
    forall slot | slot in equipped
      ensures SlotHolds(bag, equipment, slot, equipped[slot]) <==>
        && (exists e :: e in equipment.layout.value.slots && e.slot == slot && e.itemId == equipped[slot].itemId)
        && equipped[slot] in equipment.items
        && forall x :: x in bag.items ==> x.itemId != equipped[slot].itemId
    {
      SlotHoldsOnFields(bag, equipment, slot, equipped[slot]);
    }
    forall want ensures SameItemIn(bag, want) <==> want in bag.items { FoundIff(bag, want); }
  }

  /** What is accepted, field by field, of two coherent bags: both are of their types, no item is lost or made, every
      slot the run uses is described, every expected item stands in its slot and in no other bag, and the items
      expected in the inventory are there. */
  lemma LayoutOnFields(bag: Bag, equipment: Bag, wantTotal: int, equipped: map<uint32, Item>, inBag: seq<Item>)
    requires Coherent(bag) && Coherent(equipment)
    ensures LayoutOk(bag, equipment, wantTotal, equipped, inBag) <==>
      && bag.layout.value.bagType == 0 && equipment.layout.value.bagType == 2
      && |bag.items| + |equipment.items| == wantTotal && |equipment.items| == |equipped|
      && (forall i, j :: 0 <= i < j < |equipment.layout.value.equipSlots| ==>
            equipment.layout.value.equipSlots[i].slot < equipment.layout.value.equipSlots[j].slot)
      && (forall slot :: slot in [3, 4, 5, 6] ==>
            exists d :: d in equipment.layout.value.equipSlots && d.slot == slot && d.equipKind != 0 && d.name != "")
      && (forall slot :: slot in equipped ==>
            && (exists e :: e in equipment.layout.value.slots && e.slot == slot && e.itemId == equipped[slot].itemId)
            && equipped[slot] in equipment.items
            && forall x :: x in bag.items ==> x.itemId != equipped[slot].itemId)
      && forall want :: want in inBag ==> want in bag.items
  {
    ExpectedOnFields(bag, equipment, equipped, inBag);
    var defs := equipment.layout.value.equipSlots;
    assert (forall slot :: slot in SMOKE_SLOTS ==> Described(defs, slot)) <==>
      forall slot :: slot in [3, 4, 5, 6] ==>
        exists d :: d in defs && d.slot == slot && d.equipKind != 0 && d.name != "";
  }
}
