/** Coherence of one bag snapshot, and the shape of both bags after putting equipment on or off
    (robot/features_smoke_scenario.go:554-594, robot/equip_smoke_scenario.go:1031-1130). */
module Layouts {
  import opened Ints
  import opened Sorting
  import opened Bags

  const BAG_INVENTORY: uint32 := 0
  const BAG_EQUIPMENT: uint32 := 2
  const SMOKE_SLOTS: seq<uint32> := [3, 4, 5, 6]

  datatype StackKey = StackKey(configId: uint32, equipKind: uint32, maxStack: uint32)

  function KeyOf(item: Item): StackKey { StackKey(item.configId, item.equipKind, item.maxStack) }

  function RefKey(): SlotEntry -> int { (entry: SlotEntry) => entry.itemId }

  ghost function IdsOf(items: seq<Item>): set<int> { KeySet(items, ItemKey()) }

  /** A slot entry lies inside the bag, takes one cell and refers to one of the ids. */
  predicate EntryOk(entry: SlotEntry, layout: Layout, ids: set<int>) {
    && entry.slot < layout.capacity && entry.width == 1 && entry.height == 1
    && entry.itemId in ids
  }

  /** Every slot entry refers to an item of the bag, no slot and no item twice, and as many entries as items. */
  ghost predicate Coherent(bag: Bag) {
    && bag.layout.Some?
    && ItemsUsable(bag.items) && DistinctBy(bag.items, ItemKey())
    && SlotsOk(Slots(bag), bag.layout.value, IdsOf(bag.items))
    && |Slots(bag)| == |bag.items|
  }

  /** The counts of one stack key among the first `n` items, and of all of them. */
  function TotalOf(items: seq<Item>, n: nat, key: StackKey): nat
    requires n <= |items|
  {
    if n == 0 then 0 else TotalOf(items, n - 1, key) + if KeyOf(items[n - 1]) == key then items[n - 1].count else 0
  }

  function AllCounts(items: seq<Item>, n: nat): nat
    requires n <= |items|
  {
    if n == 0 then 0 else AllCounts(items, n - 1) + items[n - 1].count
  }

  ghost function SumOf(totals: map<StackKey, uint64>): nat
    decreases |totals|
  {
    if totals == map[] then 0
    else
      var key :| key in totals;
      assert |totals - {key}| < |totals| by { assert (totals - {key}).Keys == totals.Keys - {key}; }
      totals[key] + SumOf(totals - {key})
  }

  /** The sum over a table may be taken in any order. */
  lemma {:induction false} SumWithout(totals: map<StackKey, uint64>, key: StackKey)
    requires key in totals
    ensures SumOf(totals) == totals[key] + SumOf(totals - {key})
    decreases |totals|
  {
    var first :| first in totals && SumOf(totals) == totals[first] + SumOf(totals - {first});
    if first != key {
      assert (totals - {first}).Keys == totals.Keys - {first};
      SumWithout(totals - {first}, key);
      SumWithout(totals - {key}, first);
      assert totals - {first} - {key} == totals - {key} - {first};
    }
  }

  function TotalAt(totals: map<StackKey, uint64>, key: StackKey): uint64 {
    if key in totals then totals[key] else 0
  }

  lemma SumAfterAdd(totals: map<StackKey, uint64>, key: StackKey, sum: uint64)
    requires sum >= TotalAt(totals, key)
    ensures SumOf(totals[key := sum]) == SumOf(totals) - TotalAt(totals, key) + sum
  {
    var after := totals[key := sum];
    SumWithout(after, key);
    if key in totals {
      SumWithout(totals, key);
    }
    assert after - {key} == totals - {key};
    if key !in totals { assert totals - {key} == totals; }
  }

  lemma {:induction false} TotalBound(items: seq<Item>, n: nat, key: StackKey)
    requires n <= |items|
    ensures TotalOf(items, n, key) <= n * UINT32_BOUND
  {
    if n > 0 { TotalBound(items, n - 1, key); }
  }

  /** The keys of the first `n` elements. */
  ghost function KeysOf<T>(s: seq<T>, n: nat, key: T -> int): set<int>
    requires n <= |s|
  {
    if n == 0 then {} else KeysOf(s, n - 1, key) + {key(s[n - 1])}
  }

  lemma {:induction false} KeysOfMember<T>(s: seq<T>, n: nat, key: T -> int, k: int)
    requires n <= |s|
    ensures k in KeysOf(s, n, key) <==> exists i :: 0 <= i < n && key(s[i]) == k
  {
    if n > 0 {
      KeysOfMember(s, n - 1, key, k);
      if i :| 0 <= i < n && key(s[i]) == k {
        assert i == n - 1 || key(s[i]) in KeysOf(s, n - 1, key);
      }
    }
  }

  lemma KeysOfAll<T>(s: seq<T>, key: T -> int)
    ensures KeysOf(s, |s|, key) == KeySet(s, key)
  {
    forall k ensures k in KeysOf(s, |s|, key) <==> k in KeySet(s, key) {
      KeysOfMember(s, |s|, key, k);
      if x :| x in s && key(x) == k {
        var i :| 0 <= i < |s| && s[i] == x;
      }
    }
  }

  ghost predicate DistinctUpTo<T>(s: seq<T>, n: nat, key: T -> int)
    requires n <= |s|
  {
    forall i, j {:trigger key(s[i]), key(s[j])} :: 0 <= i < j < n ==> key(s[i]) != key(s[j])
  }

  /** A key seen before refutes distinctness, a new one extends it. */
  lemma ScanStep<T>(s: seq<T>, n: nat, key: T -> int)
    requires n < |s| && DistinctUpTo(s, n, key)
    ensures key(s[n]) in KeysOf(s, n, key) ==> !DistinctBy(s, key)
    ensures key(s[n]) !in KeysOf(s, n, key) ==> DistinctUpTo(s, n + 1, key)
  {
    KeysOfMember(s, n, key, key(s[n]));
  }

  predicate Usable(item: Item) { item.itemId != 0 && item.count != 0 }

  ghost predicate ItemsUsable(items: seq<Item>) {
    forall i :: 0 <= i < |items| ==> Usable(items[i])
  }

  ghost predicate TotalsMatch(totals: map<StackKey, uint64>, items: seq<Item>, n: nat)
    requires n <= |items|
  {
    (forall k :: TotalAt(totals, k) == TotalOf(items, n, k)) && SumOf(totals) == AllCounts(items, n)
  }

  method TallyItems(items: ItemList) returns (ok: bool, totals: map<StackKey, uint64>, ids: set<int>)
    ensures ok <==> ItemsUsable(items) && DistinctBy(items, ItemKey())
    ensures ok ==> TotalsMatch(totals, items, |items|)
    ensures ok ==> ids == KeysOf(items, |items|, ItemKey()) && |ids| == |items|
  {
    ok, totals, ids := false, map[], {};
    for n := 0 to |items|
      invariant !ok && ids == KeysOf(items, n, ItemKey()) && |ids| == n
      invariant DistinctUpTo(items, n, ItemKey())
      invariant forall i :: 0 <= i < n ==> Usable(items[i])
      invariant TotalsMatch(totals, items, n)
    {
      if !Usable(items[n]) { return; }
      ScanStep(items, n, ItemKey());
      if items[n].itemId in ids { return; }
      ids := ids + {items[n].itemId};
      totals := AddCount(totals, items, n);
    }
    ok := true;
  }

  /** One addition to the totals; it cannot wrap on a repeated field. */
  method AddCount(totals: map<StackKey, uint64>, items: ItemList, n: nat) returns (after: map<StackKey, uint64>)
    requires n < |items| && TotalsMatch(totals, items, n)
    ensures TotalsMatch(after, items, n + 1)
  {
    var key := KeyOf(items[n]);
    TotalBound(items, n + 1, key);
    SumAfterAdd(totals, key, TotalAt(totals, key) + items[n].count);
    after := totals[key := TotalAt(totals, key) + items[n].count];
    forall k ensures TotalAt(after, k) == TotalOf(items, n + 1, k) {
      assert TotalAt(totals, k) == TotalOf(items, n, k);
    }
  }

  ghost predicate SlotsOk(slots: seq<SlotEntry>, layout: Layout, ids: set<int>) {
    && (forall i :: 0 <= i < |slots| ==> EntryOk(slots[i], layout, ids))
    && DistinctBy(slots, SlotKey()) && DistinctBy(slots, RefKey())
  }

  method CheckSlots(layout: Layout, ids: set<int>) returns (ok: bool)
    ensures ok <==> SlotsOk(layout.slots, layout, ids) && |layout.slots| == |ids|
  {
    var slots := layout.slots;
    var positions: set<int>, references: set<int> := {}, {};
    for n := 0 to |slots|
      invariant positions == KeysOf(slots, n, SlotKey()) && DistinctUpTo(slots, n, SlotKey())
      invariant references == KeysOf(slots, n, RefKey()) && DistinctUpTo(slots, n, RefKey()) && |references| == n
      invariant forall i :: 0 <= i < n ==> EntryOk(slots[i], layout, ids)
    {
      var e := slots[n];
      if !EntryOk(e, layout, ids) { return false; }
      ScanStep(slots, n, SlotKey());
      if e.slot in positions { return false; }
      ScanStep(slots, n, RefKey());
      if e.itemId in references { return false; }
      positions := positions + {e.slot};
      references := references + {e.itemId};
    }
    return |references| == |ids|;
  }

  /** featureBagInventory: succeeds exactly on coherent bags, and its totals add up to all item counts. */
  method Inventory(bag: Bag) returns (totals: Option<map<StackKey, uint64>>)
    ensures totals.Some? <==> Coherent(bag)
    ensures totals.Some? ==> TotalsMatch(totals.value, bag.items, |bag.items|)
  {
    if bag.layout.None? { return None; }
    var usable, sums, ids := TallyItems(bag.items);
    if !usable { return None; }
    KeysOfAll(bag.items, ItemKey());
    var placed := CheckSlots(bag.layout.value, ids);
    return if placed then Some(sums) else None;
  }

  // ------------------------------------------------------------------ bijection

  /** The two counts in the coherence check are a pigeonhole: every item stands in exactly one slot. */
  lemma CoherentIsBijection(bag: Bag, item: Item)
    requires Coherent(bag) && item in bag.items
    ensures exists e :: e in Slots(bag) && e.itemId == item.itemId
    ensures forall e, f :: e in Slots(bag) && f in Slots(bag) && e.itemId == item.itemId == f.itemId ==> e == f
  {
    var refs, ids := KeySet(Slots(bag), RefKey()), KeySet(bag.items, ItemKey());
    KeySetSize(Slots(bag), RefKey());
    KeySetSize(bag.items, ItemKey());
    assert refs <= ids by {
      forall e | e in Slots(bag) ensures RefKey()(e) in ids {
        var i :| 0 <= i < |Slots(bag)| && Slots(bag)[i] == e;
        assert EntryOk(Slots(bag)[i], bag.layout.value, IdsOf(bag.items));
        var owner :| owner in bag.items && owner.itemId == e.itemId;
        assert ItemKey()(owner) in ids;
      }
    }
    SubsetOfSameSize(refs, ids);
    assert ItemKey()(item) in refs;
    forall e, f | e in Slots(bag) && f in Slots(bag) && e.itemId == item.itemId == f.itemId ensures e == f {
      SameKeySame(Slots(bag), RefKey(), e, f);
    }
  }

  lemma ItemsIgnoreOrder(a: seq<Item>, b: seq<Item>)
    requires multiset(a) == multiset(b) && ItemsUsable(a) && DistinctBy(a, ItemKey())
    ensures ItemsUsable(b) && DistinctBy(b, ItemKey())
  {
    DistinctIffDistinctIn(a, ItemKey());
    DistinctIffDistinctIn(b, ItemKey());
    forall i | 0 <= i < |b| ensures Usable(b[i]) {
      SameElements(a, b, b[i]);
      var k :| 0 <= k < |a| && a[k] == b[i];
    }
  }

  lemma IdsIgnoreOrder(a: seq<Item>, b: seq<Item>)
    requires multiset(a) == multiset(b)
    ensures IdsOf(a) == IdsOf(b)
  {
    forall x: Item ensures x in a <==> x in b { SameElements(a, b, x); }
  }

  lemma SlotsIgnoreOrder(s: seq<SlotEntry>, t: seq<SlotEntry>, l: Layout, m: Layout, ids: set<int>)
    requires multiset(s) == multiset(t) && l.capacity == m.capacity
    requires SlotsOk(s, l, ids)
    ensures SlotsOk(t, m, ids)
  {
    DistinctIffDistinctIn(s, SlotKey());
    DistinctIffDistinctIn(t, SlotKey());
    DistinctIffDistinctIn(s, RefKey());
    DistinctIffDistinctIn(t, RefKey());
    forall i | 0 <= i < |t| ensures EntryOk(t[i], m, ids) {
      SameElements(s, t, t[i]);
      var k :| 0 <= k < |s| && s[k] == t[i];
      assert EntryOk(s[k], l, ids);
    }
  }

  /** Coherence does not depend on the order of items and slot entries. */
  lemma CoherenceIgnoresOrder(a: Bag, b: Bag)
    requires Coherent(a) && SameContents(a, b)
    ensures Coherent(b)
  {
    var l, m := a.layout.value, b.layout.value;
    assert l.(slots := []).capacity == m.(slots := []).capacity;
    ItemsIgnoreOrder(a.items, b.items);
    IdsIgnoreOrder(a.items, b.items);
    SlotsIgnoreOrder(Slots(a), Slots(b), l, m, IdsOf(a.items));
    assert |multiset(Slots(a))| == |Slots(a)| && |multiset(Slots(b))| == |Slots(b)|;
    assert |multiset(a.items)| == |a.items| && |multiset(b.items)| == |b.items|;
  }

  /** On coherent bags the comparison answers exactly "same contents", which is an equivalence there and keeps
      coherence. */
  lemma ComparisonIsEquivalence(a: Bag, b: Bag, c: Bag)
    requires Coherent(a)
    ensures KeysDecide(a) && SameContents(a, a)
    ensures SameContents(a, b) ==> Coherent(b) && KeysDecide(b) && SameContents(b, a)
    ensures SameContents(a, b) && SameContents(b, c) ==> SameContents(a, c)
  {
    DistinctKeysDecide(a);
    if SameContents(a, b) {
      CoherenceIgnoresOrder(a, b);
      DistinctKeysDecide(b);
    }
  }

  // ------------------------------------------------------------------ field by field

  lemma SlotsOnFields(slots: seq<SlotEntry>, layout: Layout, items: seq<Item>)
    ensures (forall i :: 0 <= i < |slots| ==> EntryOk(slots[i], layout, IdsOf(items))) <==>
      forall e :: e in slots ==>
        && e.slot < layout.capacity && e.width == 1 && e.height == 1
        && exists x :: x in items && x.itemId == e.itemId
  {
    forall e: SlotEntry
      ensures EntryOk(e, layout, IdsOf(items)) <==>
        && e.slot < layout.capacity && e.width == 1 && e.height == 1
        && exists x :: x in items && x.itemId == e.itemId
    {
    }
    assert (forall i :: 0 <= i < |slots| ==> EntryOk(slots[i], layout, IdsOf(items)))
      <==> forall e :: e in slots ==> EntryOk(e, layout, IdsOf(items));
  }

  lemma KeysOnFields(items: seq<Item>, slots: seq<SlotEntry>)
    ensures DistinctBy(items, ItemKey()) <==>
      forall i, j :: 0 <= i < j < |items| ==> items[i].itemId != items[j].itemId
    ensures DistinctBy(slots, SlotKey()) && DistinctBy(slots, RefKey()) <==>
      forall i, j :: 0 <= i < j < |slots| ==> slots[i].slot != slots[j].slot && slots[i].itemId != slots[j].itemId
  {
    assert DistinctBy(slots, SlotKey()) <==> forall i, j :: 0 <= i < j < |slots| ==> slots[i].slot != slots[j].slot;
    assert DistinctBy(slots, RefKey()) <==> forall i, j :: 0 <= i < j < |slots| ==> slots[i].itemId != slots[j].itemId;
  }

  /** An accepted bag, field by field. */
  lemma CoherentOnFields(bag: Bag)
    ensures Coherent(bag) <==>
      && bag.layout.Some?
      && (forall i :: 0 <= i < |bag.items| ==> bag.items[i].itemId != 0 && bag.items[i].count != 0)
      && (forall i, j :: 0 <= i < j < |bag.items| ==> bag.items[i].itemId != bag.items[j].itemId)
      && |bag.layout.value.slots| == |bag.items|
      && (forall e :: e in bag.layout.value.slots ==>
            && e.slot < bag.layout.value.capacity && e.width == 1 && e.height == 1
            && exists x :: x in bag.items && x.itemId == e.itemId)
      && forall i, j :: 0 <= i < j < |bag.layout.value.slots| ==>
           && bag.layout.value.slots[i].slot != bag.layout.value.slots[j].slot
           && bag.layout.value.slots[i].itemId != bag.layout.value.slots[j].itemId
  {
    if bag.layout.Some? {
      SlotsOnFields(Slots(bag), bag.layout.value, bag.items);
      KeysOnFields(bag.items, Slots(bag));
    }
  }

  /** The units of one config, kind and stack size among the first `n` items. */
  ghost function KindUnits(items: seq<Item>, n: nat, config: uint32, kind: uint32, maxStack: uint32): set<(int, int)>
    requires n <= |items|
  {
    set i, k | 0 <= i < n && items[i].configId == config && items[i].equipKind == kind
            && items[i].maxStack == maxStack && 0 <= k < items[i].count :: (i, k)
  }

  /** A total is the number of units of exactly that config, kind and stack size. */
  lemma {:induction false} TotalIsUnits(items: seq<Item>, n: nat, config: uint32, kind: uint32, maxStack: uint32)
    requires n <= |items|
    ensures TotalOf(items, n, StackKey(config, kind, maxStack)) == |KindUnits(items, n, config, kind, maxStack)|
  {
    if n == 0 {
      assert KindUnits(items, 0, config, kind, maxStack) == {};
    } else {
      var item, rest := items[n - 1], KindUnits(items, n - 1, config, kind, maxStack);
      var here :=
        if item.configId == config && item.equipKind == kind && item.maxStack == maxStack then item.count else 0;
      TotalIsUnits(items, n - 1, config, kind, maxStack);
      StackSize(n - 1, here);
      assert KindUnits(items, n, config, kind, maxStack) == rest + StackUnits(n - 1, here);
      assert rest !! StackUnits(n - 1, here);
    }
  }
}
