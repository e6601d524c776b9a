/** Bag snapshots as the scene server sends them (proto/scene/player_bag.proto:12-99), and the
    reads the checkers make of them. Messages are values: `proto.Equal` is `==` and
    `proto.Clone` is the value itself. Optional sub-messages are `Option`. */
module Bags {
  import opened Ints
  import opened Sorting

  datatype AttrLine = AttrLine(
    attrId: uint32, name: string, tier: uint32, value: uint64, cap: uint64, percent: bool, seqNo: uint32,
    enhanceBonus: uint64, enhanceNextValue: uint64)

  datatype GemSocket = GemSocket(
    socket: uint32, gemType: uint32, gemConfigId: uint32, gemName: string, gemIconKey: string,
    attr: Option<AttrLine>, name: string)

  datatype EnhancePreview = EnhancePreview(
    nextLevel: uint32, successRate: uint32, costGold: uint64, materialConfigId: uint32, materialName: string,
    materialCount: uint32, bonusPermyriad: uint32, failLevelLoss: uint32, materialIconKey: string)

  datatype Item = Item(
    itemId: uint64, configId: uint32, count: uint32, maxStack: uint32, equipKind: uint32,
    name: string, description: string, iconKey: string,
    equipLevel: uint32, equipClass: uint32, equipClassName: string,
    baseAttrs: seq<AttrLine>, affixes: seq<AttrLine>,
    enhanceLevel: uint32, enhanceMaxLevel: uint32, enhanceNext: Option<EnhancePreview>,
    gemSockets: seq<GemSocket>, gemType: uint32, gemAttr: Option<AttrLine>, enhanceBonusPermyriad: uint32)

  datatype SlotEntry = SlotEntry(slot: uint32, itemId: uint64, width: uint32, height: uint32)

  datatype EquipSlot = EquipSlot(slot: uint32, equipKind: uint32, name: string)

  datatype Layout = Layout(
    bagType: uint32, capacity: uint32, slots: seq<SlotEntry>, canSort: bool, equipSlots: seq<EquipSlot>)

  datatype Debt = Debt(
    currencyType: uint32, owed: uint64, paid: uint64, reason: string, gmOperator: string,
    createdAt: uint64, expiresAt: uint64, frozen: bool)

  datatype Currency = Currency(values: seq<uint64>, blockedTypes: seq<uint32>, debts: seq<Debt>)

  // A repeated field of a message the wire format can carry has fewer than 2^31 entries.
  const REPEATED_BOUND: int := 0x8000_0000

  type ItemList = s: seq<Item> | |s| < REPEATED_BOUND

  // A nil bag behaves in every read and comparison below like the empty bag without layout.
  datatype Bag = Bag(items: ItemList, layout: Option<Layout>, currency: Option<Currency>)

  const CURRENCY_GOLD: nat := 0

  function Slots(bag: Bag): seq<SlotEntry> {
    if bag.layout.None? then [] else bag.layout.value.slots
  }

  /** equipForgeGold: absent currency or a short value array counts as no gold. */
  function Gold(bag: Bag): uint64 {
    if bag.currency.None? || CURRENCY_GOLD >= |bag.currency.value.values| then 0
    else bag.currency.value.values[CURRENCY_GOLD]
  }

  /** equipBagItem: the first item with this id. */
  function FindItem(items: seq<Item>, id: uint64): (r: Option<Item>)
    ensures r.Some? ==> r.value in items && r.value.itemId == id
    ensures r.None? ==> forall x :: x in items ==> x.itemId != id
  {
    if items == [] then None
    else if items[0].itemId == id then Some(items[0])
    else FindItem(items[1..], id)
  }

  /** equipSlotOccupant: the item in a slot, 0 for an empty slot. */
  function Occupant(slots: seq<SlotEntry>, slot: uint32): (id: uint64)
    ensures (exists e :: e in slots && e.slot == slot && e.itemId == id)
         || (id == 0 && forall e :: e in slots ==> e.slot != slot)
  {
    if slots == [] then 0
    else if slots[0].slot == slot then slots[0].itemId
    else Occupant(slots[1..], slot)
  }

  /** equipForgeItemSlot: the slot an item stands in, -1 when it stands in none. */
  function SlotOf(slots: seq<SlotEntry>, id: uint64): int {
    if slots == [] then -1
    else if slots[0].itemId == id then slots[0].slot
    else SlotOf(slots[1..], id)
  }

  /** equipForgeSocketOf: the first socket record with this number. */
  function SocketOf(sockets: seq<GemSocket>, number: uint32): (r: Option<GemSocket>)
    ensures r.Some? ==> r.value in sockets && r.value.socket == number
    ensures r.None? ==> forall g :: g in sockets ==> g.socket != number
  {
    if sockets == [] then None
    else if sockets[0].socket == number then Some(sockets[0])
    else SocketOf(sockets[1..], number)
  }

  function ItemKey(): Item -> int { (item: Item) => item.itemId }

  function SlotKey(): SlotEntry -> int { (entry: SlotEntry) => entry.slot }

  ghost predicate DistinctKeys(bag: Bag) {
    DistinctBy(bag.items, ItemKey()) && DistinctBy(Slots(bag), SlotKey())
  }

  /** Items of equal id are equal and slot entries of equal slot are equal: repeats do not matter, ties do. */
  ghost predicate KeysDecide(bag: Bag) {
    KeyDecides(bag.items, ItemKey()) && KeyDecides(Slots(bag), SlotKey())
  }

  lemma DistinctKeysDecide(bag: Bag)
    requires DistinctKeys(bag)
    ensures KeysDecide(bag)
  {
    DistinctDecides(bag.items, ItemKey());
    DistinctDecides(Slots(bag), SlotKey());
  }

  /** Two bags are the same up to the order of items and of slot entries, which carries no meaning. */
  ghost predicate SameContents(a: Bag, b: Bag) {
    && a.layout.Some? && b.layout.Some?
    && multiset(a.items) == multiset(b.items)
    && multiset(Slots(a)) == multiset(Slots(b))
    && a.layout.value.(slots := []) == b.layout.value.(slots := [])
    && a.currency == b.currency
  }

  /** featureBagsEqual. A positive answer always means equal contents; the converse needs keys that decide,
      because `sort.Slice` may order equal keys differently on the two sides. */
  method BagsEqual(a: Bag, b: Bag) returns (equal: bool)
    ensures equal ==> SameContents(a, b)
    ensures SameContents(a, b) && KeysDecide(a) ==> equal
  {
    if a.layout.None? || b.layout.None? {
      return false;
    }
    var xItems := SortBy(a.items, ItemKey());
    var xSlots := SortBy(a.layout.value.slots, SlotKey());
    var yItems := SortBy(b.items, ItemKey());
    var ySlots := SortBy(b.layout.value.slots, SlotKey());
    equal := xItems == yItems
          && a.layout.value.(slots := xSlots) == b.layout.value.(slots := ySlots)
          && a.currency == b.currency;
    if SameContents(a, b) && KeysDecide(a) {
      DecidesIgnoresOrder(a.items, xItems, ItemKey());
      DecidesIgnoresOrder(Slots(a), xSlots, SlotKey());
      SortedPermutationUnique(xItems, yItems, ItemKey());
      SortedPermutationUnique(xSlots, ySlots, SlotKey());
    }
    if equal {
      assert multiset(a.items) == multiset(xItems) == multiset(b.items);
      assert a.layout.value.(slots := xSlots).slots == b.layout.value.(slots := ySlots).slots;
      assert a.layout.value.(slots := []) == a.layout.value.(slots := xSlots).(slots := []);
    }
  }

  /** Whatever the four sorts make of ties, the comparison finds the bags equal. */
  ghost predicate AlwaysRecognised(a: Bag, b: Bag) {
    ArrangementsAgree(a.items, b.items, ItemKey()) && ArrangementsAgree(Slots(a), Slots(b), SlotKey())
  }

  /** Bags of the same contents are sure to be recognised if and only if their keys decide. */
  lemma RecognisedIff(a: Bag, b: Bag)
    requires SameContents(a, b)
    ensures AlwaysRecognised(a, b) <==> KeysDecide(a)
  {
    ArrangementsAgreeIff(a.items, b.items, ItemKey());
    ArrangementsAgreeIff(Slots(a), Slots(b), SlotKey());
  }

  /** Two different stacks under one id, in either order: both arrangements are sorted, so a sort that leaves ties
      where they are, as Go's does on so short a slice, makes the comparison answer that equal contents differ. */
  lemma TieHidesEquality(item: Item) returns (a: Bag, b: Bag)
    ensures SameContents(a, b) && !AlwaysRecognised(a, b)
    ensures |a.items| == |b.items| == 2 && Slots(a) == Slots(b) == []
    ensures SortedBy(a.items, ItemKey()) && SortedBy(b.items, ItemKey()) && a.items != b.items
  {
    var one, two := item.(count := 1), item.(count := 2);
    var layout := Some(Layout(0, 0, [], false, []));
    a, b := Bag([one, two], layout, None), Bag([two, one], layout, None);
    assert multiset(a.items) == multiset{one, two} == multiset(b.items);
    assert ItemKey()(a.items[0]) == ItemKey()(a.items[1]) && a.items[0] != a.items[1];
    RecognisedIff(a, b);
  }

  /** The sum of the counts of one config in a bag. */
  function CountOf(items: seq<Item>, config: uint32): nat {
    if items == [] then 0
    else
      var last := items[|items| - 1];
      CountOf(items[..|items| - 1], config) + if last.configId == config then last.count else 0
  }

  /** Every single unit of a config in a bag, by the position of its stack and its number in the stack. */
  ghost function Units(items: seq<Item>, config: uint32): set<(int, int)> {
    set i, k | 0 <= i < |items| && items[i].configId == config && 0 <= k < items[i].count :: (i, k)
  }

  ghost function StackUnits(i: int, count: nat): set<(int, int)> { set k | 0 <= k < count :: (i, k) }

  lemma {:induction false} StackSize(i: int, count: nat)
    ensures |StackUnits(i, count)| == count
  {
    if count > 0 {
      StackSize(i, count - 1);
      assert StackUnits(i, count) == StackUnits(i, count - 1) + {(i, count - 1)};
    } else {
      assert StackUnits(i, 0) == {};
    }
  }

  /** The count of a config is the number of its units, however they are stacked. */
  lemma {:induction false} CountIsUnits(items: seq<Item>, config: uint32)
    ensures CountOf(items, config) == |Units(items, config)|
  {
    if items == [] {
      assert Units(items, config) == {};
    } else {
      var n := |items| - 1;
      var rest, last := Units(items[..n], config), if items[n].configId == config then items[n].count else 0;
      CountIsUnits(items[..n], config);
      StackSize(n, last);
      assert Units(items, config) == rest + StackUnits(n, last);
      assert rest !! StackUnits(n, last);
    }
  }

  /** Summing fewer than 2^31 counts of 32 bits stays far inside 64 bits. */
  lemma {:induction false} CountBound(items: seq<Item>, config: uint32)
    ensures CountOf(items, config) <= |items| * UINT32_BOUND
  {
    if items != [] { CountBound(items[..|items| - 1], config); }
  }

  function At(counts: map<uint32, uint64>, config: uint32): uint64 {
    if config in counts then counts[config] else 0
  }

  /** equipForgeConfigCounts: the counts per config; its 64-bit additions cannot wrap. */
  method ConfigCounts(bag: Bag) returns (counts: map<uint32, uint64>)
    ensures forall c: uint32 :: At(counts, c) == CountOf(bag.items, c)
    ensures forall c: uint32 :: At(counts, c) < UINT64_BOUND - 1
  {
    counts := map[];
    for n := 0 to |bag.items|
      invariant forall c: uint32 :: At(counts, c) == CountOf(bag.items[..n], c)
    {
      var item := bag.items[n];
      assert bag.items[..n + 1][..n] == bag.items[..n];
      CountBound(bag.items[..n + 1], item.configId);
      counts := counts[item.configId := At(counts, item.configId) + item.count];
    }
    assert bag.items[..|bag.items|] == bag.items;
    forall c: uint32 ensures At(counts, c) < UINT64_BOUND - 1 {
      CountBound(bag.items, c);
    }
  }

  function IdKey(): uint32 -> int { (id: uint32) => id }

  /** equipForgeCountsDiff: the configs on which two count tables disagree, in ascending order;
      a missing key counts as 0. */
  method CountsDiff(want: map<uint32, uint64>, got: map<uint32, uint64>) returns (diff: seq<uint32>)
    ensures forall c: uint32 :: c in diff <==> At(want, c) != At(got, c)
    ensures SortedBy(diff, IdKey())
  {
    var ids: seq<uint32> := [];
    var pending := want.Keys + got.Keys;
    while pending != {}
      invariant forall c :: c in ids <==> c in want.Keys + got.Keys - pending
      invariant pending <= want.Keys + got.Keys
    {
      var id :| id in pending;
      ids := ids + [id];
      pending := pending - {id};
    }
    var sorted := SortBy(ids, IdKey());
    diff := [];
    for n := 0 to |sorted|
      invariant forall c :: c in diff <==> c in sorted[..n] && At(want, c) != At(got, c)
      invariant SortedBy(diff, IdKey())
      invariant forall c :: c in diff ==> c in sorted[..n]
    {
      if At(want, sorted[n]) != At(got, sorted[n]) {
        forall k | 0 <= k < |diff| ensures diff[k] <= sorted[n] {
          assert diff[k] in diff;
          var p :| 0 <= p < n && sorted[..n][p] == diff[k];
          assert IdKey()(sorted[p]) <= IdKey()(sorted[n]);
        }
        diff := diff + [sorted[n]];
      }
    }
    forall c: uint32 | At(want, c) != At(got, c) ensures c in diff {
      assert c in ids && c in multiset(sorted) && c in sorted;
    }
  }
}
