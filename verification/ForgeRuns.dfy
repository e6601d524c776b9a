/** What acceptance by the forge checkers implies: over whole runs of accepted requests, for an
    inlay undone by a removal, and for the preview shown before an enhancement. */
module ForgeRuns {
  import opened Ints
  import opened Sorting
  import opened Bags
  import opened Scale
  import opened Forge

  datatype Op =
    | Enhance(success: bool, level: uint32)
    | Inlay(socket: uint32, gem: uint32)
    | Remove(socket: uint32)

  ghost predicate Accepted(op: Op, before: Snapshot, after: Snapshot, id: uint64) {
    match op
    case Enhance(success, level) => Enhanced(before, after, id, success, level)
    case Inlay(socket, gem) => Inlaid(before, after, id, socket, gem)
    case Remove(socket) => Removed(before, after, id, socket)
  }

  /** Snapshots in which each step is an accepted request on the same item. */
  ghost predicate Run(states: seq<Snapshot>, ops: seq<Op>, id: uint64) {
    && |states| == |ops| + 1
    && forall i :: 0 <= i < |ops| ==> Accepted(ops[i], states[i], states[i + 1], id)
  }

  function Preview(s: Snapshot, id: uint64): Option<EnhancePreview> {
    if Target(s, id).Some? then Target(s, id).value.enhanceNext else None
  }

  /** The gold an operation shows as its price in the snapshot before it. */
  function Cost(op: Op, before: Snapshot, id: uint64): nat {
    if op.Enhance? && Preview(before, id).Some? then Preview(before, id).value.costGold else 0
  }

  /** The amount of a config an operation consumes as enhancement material. */
  function Consumed(op: Op, before: Snapshot, id: uint64, config: uint32): nat {
    if op.Enhance? && Preview(before, id).Some? then MaterialSpent(Preview(before, id).value, config) else 0
  }

  function TotalCost(states: seq<Snapshot>, ops: seq<Op>, id: uint64): nat
    requires |states| == |ops| + 1
  {
    if ops == [] then 0 else Cost(ops[0], states[0], id) + TotalCost(states[1..], ops[1..], id)
  }

  function TotalConsumed(states: seq<Snapshot>, ops: seq<Op>, id: uint64, config: uint32): nat
    requires |states| == |ops| + 1
  {
    if ops == [] then 0
    else Consumed(ops[0], states[0], id, config) + TotalConsumed(states[1..], ops[1..], id, config)
  }

  /** How many sockets of an item hold a gem config. */
  function Held(sockets: seq<GemSocket>, config: uint32): nat {
    if sockets == [] then 0
    else (if sockets[0].gemConfigId == config then 1 else 0) + Held(sockets[1..], config)
  }

  function HeldBy(s: Snapshot, id: uint64, config: uint32): nat {
    if Target(s, id).Some? then Held(Target(s, id).value.gemSockets, config) else 0
  }

  function SocketKey(): GemSocket -> int { (g: GemSocket) => g.socket }

  ghost predicate DistinctSockets(s: Snapshot, id: uint64) {
    Target(s, id).Some? ==> DistinctBy(Target(s, id).value.gemSockets, SocketKey())
  }

  // ------------------------------------------------------------------ socket lemmas

  lemma {:induction false} ButAbsent(sockets: seq<GemSocket>, number: uint32)
    requires forall g :: g in sockets ==> g.socket != number
    ensures SocketsBut(sockets, number) == sockets
  {
    if sockets != [] {
      ButAbsent(sockets[1..], number);
      assert sockets == [sockets[0]] + sockets[1..];
    }
  }

  lemma {:induction false} HeldAppend(a: seq<GemSocket>, b: seq<GemSocket>, config: uint32)
    ensures Held(a + b, config) == Held(a, config) + Held(b, config)
  {
    if a == [] {
      assert a + b == b;
    } else {
      HeldAppend(a[1..], b, config);
      assert (a + b)[1..] == a[1..] + b;
    }
  }

  function WithNumber(sockets: seq<GemSocket>, number: uint32): seq<GemSocket> {
    if sockets == [] then []
    else (if sockets[0].socket == number then [sockets[0]] else []) + WithNumber(sockets[1..], number)
  }

  /** The records behind the first one with this number: no check looks at them. */
  function Behind(sockets: seq<GemSocket>, number: uint32): seq<GemSocket> {
    var all := WithNumber(sockets, number);
    if all == [] then [] else all[1..]
  }

  lemma {:induction false} FirstWithNumber(sockets: seq<GemSocket>, number: uint32)
    ensures SocketOf(sockets, number).Some? <==> WithNumber(sockets, number) != []
    ensures SocketOf(sockets, number).Some? ==>
      WithNumber(sockets, number) == [SocketOf(sockets, number).value] + Behind(sockets, number)
  {
    if sockets != [] { FirstWithNumber(sockets[1..], number); }
  }

  lemma {:induction false} HeldParts(sockets: seq<GemSocket>, number: uint32, config: uint32)
    ensures Held(sockets, config)
         == Held(SocketsBut(sockets, number), config) + Held(WithNumber(sockets, number), config)
  {
    if sockets != [] {
      var one, rest := [sockets[0]], sockets[1..];
      HeldParts(rest, number, config);
      HeldAppend(one, SocketsBut(rest, number), config);
      HeldAppend(one, WithNumber(rest, number), config);
      assert one[1..] == [] && [] + WithNumber(rest, number) == WithNumber(rest, number);
      assert [] + SocketsBut(rest, number) == SocketsBut(rest, number);
    }
  }

  /** What a socket list holds: in the other sockets, in the first record of a number, and behind it. */
  lemma HeldSplit(sockets: seq<GemSocket>, number: uint32, config: uint32)
    requires SocketOf(sockets, number).Some?
    ensures Held(sockets, config)
         == Held(SocketsBut(sockets, number), config) + Held(Behind(sockets, number), config)
            + if SocketOf(sockets, number).value.gemConfigId == config then 1 else 0
  {
    FirstWithNumber(sockets, number);
    HeldParts(sockets, number, config);
    var first := [SocketOf(sockets, number).value];
    HeldAppend(first, Behind(sockets, number), config);
    assert first[1..] == [];
  }

  lemma {:induction false} NoneWithNumber(sockets: seq<GemSocket>, number: uint32)
    requires forall g :: g in sockets ==> g.socket != number
    ensures WithNumber(sockets, number) == []
  {
    if sockets != [] { NoneWithNumber(sockets[1..], number); }
  }

  /** With distinct numbers nothing stands behind a first record. */
  lemma {:induction false} NothingBehind(sockets: seq<GemSocket>, number: uint32)
    requires DistinctBy(sockets, SocketKey())
    ensures Behind(sockets, number) == []
  {
    if sockets != [] {
      var rest := sockets[1..];
      TailKeeps(sockets, SocketKey());
      NothingBehind(rest, number);
      if sockets[0].socket == number {
        forall g | g in rest ensures g.socket != number {
          var k :| 0 <= k < |rest| && rest[k] == g;
          assert SocketKey()(sockets[0]) != SocketKey()(sockets[k + 1]);
        }
        NoneWithNumber(rest, number);
      }
    }
  }

  lemma {:induction false} OtherSocketSurvives(sockets: seq<GemSocket>, number: uint32, other: uint32)
    requires other != number
    ensures SocketOf(SocketsBut(sockets, number), other) == SocketOf(sockets, other)
  {
    if sockets != [] {
      OtherSocketSurvives(sockets[1..], number, other);
      var kept := SocketsBut(sockets, number);
      if sockets[0].socket == number {
        assert kept == SocketsBut(sockets[1..], number);
      } else {
        assert kept[0] == sockets[0] && kept[1..] == SocketsBut(sockets[1..], number);
      }
    }
  }

  // ------------------------------------------------------------------ one step

  function BehindBy(s: Snapshot, id: uint64, socket: uint32, config: uint32): nat {
    if Target(s, id).Some? then Held(Behind(Target(s, id).value.gemSockets, socket), config) else 0
  }

  /** What an operation adds, unseen by the checks, behind the first record of its socket number. */
  function Unseen(op: Op, before: Snapshot, after: Snapshot, id: uint64, config: uint32): int {
    match op
    case Enhance(_, _) => 0
    case Inlay(socket, _) => BehindBy(after, id, socket, config) - BehindBy(before, id, socket, config)
    case Remove(socket) => BehindBy(after, id, socket, config) - BehindBy(before, id, socket, config)
  }

  lemma SocketStepBalances(was: Item, now: Item, socket: uint32, config: uint32)
    requires SocketOf(was.gemSockets, socket).Some? && SocketOf(now.gemSockets, socket).Some?
    requires SocketBlind(was, socket) == SocketBlind(now, socket)
    ensures
      var hole, filled := SocketOf(was.gemSockets, socket).value, SocketOf(now.gemSockets, socket).value;
      Held(now.gemSockets, config) - Held(was.gemSockets, config)
        == Held(Behind(now.gemSockets, socket), config) - Held(Behind(was.gemSockets, socket), config)
           + (if filled.gemConfigId == config then 1 else 0) - (if hole.gemConfigId == config then 1 else 0)
  {
    HeldSplit(was.gemSockets, socket, config);
    HeldSplit(now.gemSockets, socket, config);
    assert SocketBlind(was, socket).gemSockets == SocketBlind(now, socket).gemSockets;
  }

  /** For every config what is counted, held in sockets and consumed balances over one step up to what the step
      adds unseen; so it balances if and only if nothing is. */
  lemma StepBalances(op: Op, before: Snapshot, after: Snapshot, id: uint64, config: uint32)
    requires Accepted(op, before, after, id) && config != 0
    ensures CountOf(before.inventory.items, config) + HeldBy(before, id, config) + Unseen(op, before, after, id, config)
         == CountOf(after.inventory.items, config) + HeldBy(after, id, config) + Consumed(op, before, id, config)
  {
    var was, now := Target(before, id).value, Target(after, id).value;
    match op
    case Enhance(success, level) =>
      if was != now { assert EnhanceBlind(was).gemSockets == EnhanceBlind(now).gemSockets; }
    case Inlay(socket, gem) => SocketStepBalances(was, now, socket, config);
    case Remove(socket) => SocketStepBalances(was, now, socket, config);
  }

  /** An inlay or removal conserves a config if and only if the records behind the first one of its socket number
      hold equally many before and after. */
  lemma SocketStepConservesIff(op: Op, before: Snapshot, after: Snapshot, id: uint64, config: uint32)
    requires Accepted(op, before, after, id) && !op.Enhance? && config != 0
    ensures CountOf(before.inventory.items, config) + HeldBy(before, id, config)
         == CountOf(after.inventory.items, config) + HeldBy(after, id, config)
       <==> BehindBy(before, id, op.socket, config) == BehindBy(after, id, op.socket, config)
  {
    StepBalances(op, before, after, id, config);
  }

  /** Everything about an item that no forge operation may touch. */
  function Identity(item: Item): Item {
    item.(enhanceLevel := 0, enhanceBonusPermyriad := 0, enhanceNext := None, baseAttrs := [], gemSockets := [])
  }

  /** The table value behind a base line. */
  function TableValue(line: AttrLine): int { line.value - line.enhanceBonus }

  predicate SameTable(a: seq<AttrLine>, b: seq<AttrLine>) {
    && |a| == |b|
    && forall i :: 0 <= i < |a| ==> a[i].attrId == b[i].attrId && TableValue(a[i]) == TableValue(b[i])
  }

  predicate SameSocketDefinition(a: seq<GemSocket>, b: seq<GemSocket>, number: uint32) {
    var x, y := SocketOf(a, number), SocketOf(b, number);
    x.Some? == y.Some? && (x.Some? ==> SameDefinition(x.value, y.value))
  }

  /** What stays fixed about the target, its place and the rest of the equipment bag. */
  ghost predicate Fixed(a: Snapshot, b: Snapshot, id: uint64) {
    && Target(a, id).Some? && Target(b, id).Some?
    && Worn(a, id) == Worn(b, id)
    && SlotOf(Slots(Home(a, id)), id) == SlotOf(Slots(Home(b, id)), id)
    && SameContents(Without(a.equipment, id), Without(b.equipment, id))
    && Identity(Target(a, id).value) == Identity(Target(b, id).value)
    && SameTable(Target(a, id).value.baseAttrs, Target(b, id).value.baseAttrs)
    && forall n: uint32 ::
         SameSocketDefinition(Target(a, id).value.gemSockets, Target(b, id).value.gemSockets, n)
  }

  lemma SocketStepFixed(was: Item, now: Item, socket: uint32)
    requires SocketBlind(was, socket) == SocketBlind(now, socket)
    requires SameSocketDefinition(was.gemSockets, now.gemSockets, socket)
    ensures Identity(was) == Identity(now)
    ensures SameTable(was.baseAttrs, now.baseAttrs)
    ensures forall n: uint32 :: SameSocketDefinition(was.gemSockets, now.gemSockets, n)
  {
    assert Identity(was) == Identity(SocketBlind(was, socket)) == Identity(now);
    assert SocketBlind(was, socket).baseAttrs == SocketBlind(now, socket).baseAttrs;
    forall n: uint32 ensures SameSocketDefinition(was.gemSockets, now.gemSockets, n) {
      if n != socket {
        OtherSocketSurvives(was.gemSockets, socket, n);
        OtherSocketSurvives(now.gemSockets, socket, n);
        assert SocketBlind(was, socket).gemSockets == SocketBlind(now, socket).gemSockets;
      }
    }
  }

  lemma StepFixed(op: Op, before: Snapshot, after: Snapshot, id: uint64)
    requires Accepted(op, before, after, id)
    ensures Fixed(before, after, id)
  {
    var was, now := Target(before, id).value, Target(after, id).value;
    match op
    case Enhance(success, level) =>
      if was != now {
        assert Identity(was) == Identity(EnhanceBlind(was)) == Identity(now);
        assert EnhanceBlind(was).gemSockets == EnhanceBlind(now).gemSockets;
      }
    case Inlay(socket, gem) => SocketStepFixed(was, now, socket);
    case Remove(socket) => SocketStepFixed(was, now, socket);
  }

  // ------------------------------------------------------------------ whole runs

  lemma TailRun(states: seq<Snapshot>, ops: seq<Op>, id: uint64)
    requires Run(states, ops, id) && ops != []
    ensures Run(states[1..], ops[1..], id)
    ensures Accepted(ops[0], states[0], states[1], id)
  {
    forall i | 0 <= i < |ops[1..]| ensures Accepted(ops[1..][i], states[1..][i], states[1..][i + 1], id) {
      assert Accepted(ops[i + 1], states[i + 1], states[i + 2], id);
    }
  }

  /** Over every run of accepted requests the gold falls by exactly the previewed costs. */
  lemma {:induction false} RunSpendsPreviewedGold(states: seq<Snapshot>, ops: seq<Op>, id: uint64)
    requires Run(states, ops, id)
    ensures Gold(states[|ops|].inventory) == Gold(states[0].inventory) - TotalCost(states, ops, id)
  {
    if ops != [] {
      TailRun(states, ops, id);
      RunSpendsPreviewedGold(states[1..], ops[1..], id);
    }
  }

  function TotalUnseen(states: seq<Snapshot>, ops: seq<Op>, id: uint64, config: uint32): int
    requires |states| == |ops| + 1
  {
    if ops == [] then 0
    else Unseen(ops[0], states[0], states[1], id, config) + TotalUnseen(states[1..], ops[1..], id, config)
  }

  ghost predicate Conserved(states: seq<Snapshot>, ops: seq<Op>, id: uint64, config: uint32)
    requires |states| == |ops| + 1
  {
    CountOf(states[0].inventory.items, config) + HeldBy(states[0], id, config)
      == CountOf(states[|ops|].inventory.items, config) + HeldBy(states[|ops|], id, config)
         + TotalConsumed(states, ops, id, config)
  }

  lemma {:induction false} RunBalances(states: seq<Snapshot>, ops: seq<Op>, id: uint64, config: uint32)
    requires Run(states, ops, id) && config != 0
    ensures CountOf(states[0].inventory.items, config) + HeldBy(states[0], id, config)
            + TotalUnseen(states, ops, id, config)
         == CountOf(states[|ops|].inventory.items, config) + HeldBy(states[|ops|], id, config)
            + TotalConsumed(states, ops, id, config)
  {
    if ops != [] {
      TailRun(states, ops, id);
      StepBalances(ops[0], states[0], states[1], id, config);
      RunBalances(states[1..], ops[1..], id, config);
    }
  }

  /** Over every run, for every config but 0 (which marks an empty socket): counted + held in the target's sockets
      + consumed is constant if and only if the steps add up to nothing behind first records. */
  lemma RunConservesIff(states: seq<Snapshot>, ops: seq<Op>, id: uint64, config: uint32)
    requires Run(states, ops, id) && config != 0
    ensures Conserved(states, ops, id, config) <==> TotalUnseen(states, ops, id, config) == 0
  {
    RunBalances(states, ops, id, config);
  }

  lemma {:induction false} NothingUnseen(states: seq<Snapshot>, ops: seq<Op>, id: uint64, config: uint32)
    requires |states| == |ops| + 1
    requires forall i :: 0 <= i < |states| ==> DistinctSockets(states[i], id)
    ensures TotalUnseen(states, ops, id, config) == 0
  {
    if ops != [] {
      NothingUnseen(states[1..], ops[1..], id, config);
      if !ops[0].Enhance? {
        forall i | 0 <= i < 2 && Target(states[i], id).Some?
          ensures Behind(Target(states[i], id).value.gemSockets, ops[0].socket) == []
        {
          NothingBehind(Target(states[i], id).value.gemSockets, ops[0].socket);
        }
      }
    }
  }

  /** In particular it is constant over every run with distinct socket numbers throughout. */
  lemma RunConservesItems(states: seq<Snapshot>, ops: seq<Op>, id: uint64, config: uint32)
    requires Run(states, ops, id) && config != 0
    requires forall i :: 0 <= i < |states| ==> DistinctSockets(states[i], id)
    ensures Conserved(states, ops, id, config)
  {
    RunConservesIff(states, ops, id, config);
    NothingUnseen(states, ops, id, config);
  }

  /** Over every non-empty run the target stays the same thing in the same place: bag, slot, identity,
      table values and socket definitions, with the rest of the equipment bag untouched. */
  lemma {:induction false} RunKeepsTarget(states: seq<Snapshot>, ops: seq<Op>, id: uint64)
    requires Run(states, ops, id) && ops != []
    ensures Fixed(states[0], states[|ops|], id)
  {
    TailRun(states, ops, id);
    StepFixed(ops[0], states[0], states[1], id);
    if |ops| > 1 {
      RunKeepsTarget(states[1..], ops[1..], id);
      FixedTransitive(states[0], states[1], states[|ops|], id);
    }
  }

  /** Field by field: what the target keeps over a run. */
  lemma FixedOnFields(a: Snapshot, b: Snapshot, id: uint64)
    requires Fixed(a, b, id)
    ensures
      var x, y := Target(a, id).value, Target(b, id).value;
      && x.itemId == y.itemId == id && x.configId == y.configId && x.count == y.count && x.maxStack == y.maxStack
      && x.equipKind == y.equipKind && x.name == y.name && x.description == y.description && x.iconKey == y.iconKey
      && x.equipLevel == y.equipLevel && x.equipClass == y.equipClass && x.equipClassName == y.equipClassName
      && x.affixes == y.affixes && x.enhanceMaxLevel == y.enhanceMaxLevel
      && x.gemType == y.gemType && x.gemAttr == y.gemAttr
      && |x.baseAttrs| == |y.baseAttrs|
      && forall i :: 0 <= i < |x.baseAttrs| ==>
           && x.baseAttrs[i].attrId == y.baseAttrs[i].attrId
           && x.baseAttrs[i].value - x.baseAttrs[i].enhanceBonus == y.baseAttrs[i].value - y.baseAttrs[i].enhanceBonus
  {
    var x, y := Identity(Target(a, id).value), Identity(Target(b, id).value);
    assert x == y;
  }

  lemma FixedTransitive(a: Snapshot, b: Snapshot, c: Snapshot, id: uint64)
    requires Fixed(a, b, id) && Fixed(b, c, id)
    ensures Fixed(a, c, id)
  {
    var x, y, z := Target(a, id).value, Target(b, id).value, Target(c, id).value;
    forall n: uint32 ensures SameSocketDefinition(x.gemSockets, z.gemSockets, n) {
      assert SameSocketDefinition(x.gemSockets, y.gemSockets, n) && SameSocketDefinition(y.gemSockets, z.gemSockets, n);
    }
  }

  /** The level at the end is what the last enhancement reported. */
  function LastLevel(ops: seq<Op>, initial: uint32): uint32 {
    if ops == [] then initial
    else if ops[|ops| - 1].Enhance? then ops[|ops| - 1].level
    else LastLevel(ops[..|ops| - 1], initial)
  }

  lemma StepLevel(op: Op, before: Snapshot, after: Snapshot, id: uint64)
    requires Accepted(op, before, after, id)
    ensures Target(after, id).Some? && Target(before, id).Some?
    ensures Target(after, id).value.enhanceLevel
         == if op.Enhance? then op.level else Target(before, id).value.enhanceLevel
  {
    if !op.Enhance? {
      assert SocketBlind(Target(before, id).value, op.socket).enhanceLevel
          == SocketBlind(Target(after, id).value, op.socket).enhanceLevel;
    }
  }

  lemma {:induction false} RunReportsLevel(states: seq<Snapshot>, ops: seq<Op>, id: uint64)
    requires Run(states, ops, id) && Target(states[0], id).Some?
    ensures Target(states[|ops|], id).Some?
    ensures Target(states[|ops|], id).value.enhanceLevel == LastLevel(ops, Target(states[0], id).value.enhanceLevel)
  {
    if ops != [] {
      var n := |ops| - 1;
      StepLevel(ops[n], states[n], states[n + 1], id);
      PrefixRun(states, ops, id);
      RunReportsLevel(states[..|ops|], ops[..n], id);
    }
  }

  lemma PrefixRun(states: seq<Snapshot>, ops: seq<Op>, id: uint64)
    requires Run(states, ops, id) && ops != []
    ensures Run(states[..|ops|], ops[..|ops| - 1], id)
  {
    var n := |ops| - 1;
    forall i | 0 <= i < n ensures Accepted(ops[..n][i], states[..|ops|][i], states[..|ops|][i + 1], id) {
      assert Accepted(ops[i], states[i], states[i + 1], id);
    }
  }

  // ------------------------------------------------------------------ inlay undone by remove

  function DefKey(): SocketDef -> int { (d: SocketDef) => d.socket }

  lemma SocketsOkTail(a: seq<GemSocket>, want: seq<SocketDef>)
    requires SocketsOk(a, want) && want != []
    ensures SocketOk(a[0], want[0]) && SocketsOk(a[1..], want[1..])
  {
    forall i | 0 <= i < |want[1..]| ensures SocketOk(a[1..][i], want[1..][i]) {
      assert SocketOk(a[i + 1], want[i + 1]);
    }
  }

  lemma ButHead(a: seq<GemSocket>, number: uint32)
    requires a != []
    ensures a[0].socket == number ==> SocketsBut(a, number) == SocketsBut(a[1..], number)
    ensures a[0].socket != number ==>
      && SocketsBut(a, number) != [] && SocketsBut(a, number)[0] == a[0]
      && SocketsBut(a, number)[1..] == SocketsBut(a[1..], number)
      && SocketOf(a, number) == SocketOf(a[1..], number)
  {
  }

  /** Sockets that follow the same definitions and agree on one number and on all others are equal. */
  lemma {:induction false} SocketsRebuilt(a: seq<GemSocket>, b: seq<GemSocket>, want: seq<SocketDef>, number: uint32)
    requires SocketsOk(a, want) && SocketsOk(b, want) && DistinctBy(want, DefKey())
    requires SocketsBut(a, number) == SocketsBut(b, number)
    requires SocketOf(a, number) == SocketOf(b, number)
    ensures a == b
  {
    if want != [] {
      assert a == [a[0]] + a[1..] && b == [b[0]] + b[1..];
      SocketsOkTail(a, want);
      SocketsOkTail(b, want);
      ButHead(a, number);
      ButHead(b, number);
      if want[0].socket == number {
        NumberAbsent(a[1..], want, number);
        NumberAbsent(b[1..], want, number);
        ButAbsent(a[1..], number);
        ButAbsent(b[1..], number);
      } else {
        TailKeeps(want, DefKey());
        SocketsRebuilt(a[1..], b[1..], want[1..], number);
      }
    }
  }

  lemma NumberAbsent(rest: seq<GemSocket>, want: seq<SocketDef>, number: uint32)
    requires want != [] && DistinctBy(want, DefKey()) && want[0].socket == number
    requires SocketsOk(rest, want[1..])
    ensures forall g :: g in rest ==> g.socket != number
  {
    forall g | g in rest ensures g.socket != number {
      var k :| 0 <= k < |rest| && rest[k] == g;
      assert SocketOk(rest[k], want[1..][k]);
      assert DefKey()(want[0]) != DefKey()(want[k + 1]);
    }
  }

  function IconAt(item: Item, socket: uint32): string {
    if SocketOf(item.gemSockets, socket).Some? then SocketOf(item.gemSockets, socket).value.gemIconKey else ""
  }

  /** Inlay then remove: gold, counts, place and the rest of the equipment come back exactly. The target
      comes back field by field if and only if the icon of that socket does, the one field no check reads. */
  lemma InlayThenRemove(
      s0: Snapshot, s1: Snapshot, s2: Snapshot, id: uint64, socket: uint32, gem: uint32, want: seq<SocketDef>)
    requires Inlaid(s0, s1, id, socket, gem) && Removed(s1, s2, id, socket)
    requires DistinctBy(want, DefKey())
    requires SocketsOk(Target(s0, id).value.gemSockets, want)
    requires Target(s2, id).Some? && SocketsOk(Target(s2, id).value.gemSockets, want)
    ensures Gold(s2.inventory) == Gold(s0.inventory)
    ensures forall c: uint32 :: CountOf(s2.inventory.items, c) == CountOf(s0.inventory.items, c)
    ensures SameContents(Without(s0.equipment, id), Without(s2.equipment, id))
    ensures Worn(s2, id) == Worn(s0, id)
    ensures SlotOf(Slots(Home(s2, id)), id) == SlotOf(Slots(Home(s0, id)), id)
    ensures Target(s2, id) == Target(s0, id)
       <==> IconAt(Target(s2, id).value, socket) == IconAt(Target(s0, id).value, socket)
  {
    var was, mid, now := Target(s0, id).value, Target(s1, id).value, Target(s2, id).value;
    assert SocketBlind(was, socket) == SocketBlind(mid, socket) == SocketBlind(now, socket);
    var hole, emptied := SocketOf(was.gemSockets, socket).value, SocketOf(now.gemSockets, socket).value;
    var k :| 0 <= k < |want| && was.gemSockets[k] == hole;
    assert SocketOk(was.gemSockets[k], want[k]);
    assert hole.(gemIconKey := "") == emptied.(gemIconKey := "");
    if hole.gemIconKey == emptied.gemIconKey {
      assert hole.(gemIconKey := "").(gemIconKey := hole.gemIconKey) == emptied;
      assert SocketBlind(was, socket).gemSockets == SocketBlind(now, socket).gemSockets;
      SocketsRebuilt(was.gemSockets, now.gemSockets, want, socket);
      assert was == SocketBlind(was, socket).(gemSockets := was.gemSockets) == now;
    }
  }

  // ------------------------------------------------------------------ the preview is honest

  /** A successful enhancement of a target that displayed correctly gives every base line exactly the
      previewed value, which is the table value scaled by the previewed permyriad; no line drops, and
      the reported bonus accounts for the whole difference to the table. */
  lemma EnhancementMatchesPreview(
      before: Snapshot, after: Snapshot, id: uint64, level: uint32, want: seq<BaseAttr>, i: nat)
    requires Enhanced(before, after, id, true, level)
    requires BaseLinesOk(Target(before, id).value, want) && NextOk(Target(before, id).value)
    requires i < |want|
    ensures i < |Target(after, id).value.baseAttrs|
    ensures
      var was, now := Target(before, id).value, Target(after, id).value;
      var next := was.enhanceNext.value;
      && now.enhanceBonusPermyriad == next.bonusPermyriad
      && now.baseAttrs[i].value == Scaled(want[i].value, next.bonusPermyriad) == was.baseAttrs[i].enhanceNextValue
      && now.baseAttrs[i].enhanceBonus == now.baseAttrs[i].value - want[i].value
      && now.baseAttrs[i].value >= was.baseAttrs[i].value
  {
    var was, now := Target(before, id).value, Target(after, id).value;
    var next := was.enhanceNext.value;
    assert (was.enhanceLevel + 1) % UINT32_BOUND != was.enhanceLevel;
    assert BaseLineOk(was, i, was.baseAttrs[i], want[i]);
    assert LineFollows(was.baseAttrs[i], now.baseAttrs[i], now.enhanceBonusPermyriad, true);
    ScaledMonotone(want[i].value, want[i].value, was.enhanceBonusPermyriad, next.bonusPermyriad);
  }
}
