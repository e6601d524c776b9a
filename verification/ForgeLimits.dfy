/** Concrete snapshots that the forge checkers accept although a stronger property fails on them. */
module ForgeLimits {
  import opened Ints
  import opened Bags
  import opened Forge
  import opened ForgeRuns

  const DAMAGE: AttrLine := AttrLine(1, "damage", 0, 5, 0, false, 0, 0, 0)

  function Weapon(sockets: seq<GemSocket>): Item {
    Item(1, WEAPON, 1, 1, 11, "sword", "", "", 1, 0, "", [], [], 0, 12, None, sockets, 0, None, 0)
  }

  const GEM: Item := Item(2, 2101, 1, 99, 0, "gem", "", "", 0, 0, "", [], [], 0, 0, None, [], 1, Some(DAMAGE), 0)

  function Socket(number: uint32, filled: bool, icon: string): GemSocket {
    if filled then GemSocket(number, 1, 2101, "gem", icon, Some(DAMAGE), "hole")
    else GemSocket(number, 1, 0, "", icon, None, "hole")
  }

  const EMPTY_BAG: Bag := Bag([], Some(Layout(2, 10, [], false, [])), None)

  function WithGem(sockets: seq<GemSocket>): Snapshot {
    Snapshot(Bag([Weapon(sockets), GEM], Some(Layout(0, 10, [], true, [])), None), EMPTY_BAG)
  }

  function NoGem(sockets: seq<GemSocket>): Snapshot {
    Snapshot(Bag([Weapon(sockets)], Some(Layout(0, 10, [], true, [])), None), EMPTY_BAG)
  }

  lemma Counts(sockets: seq<GemSocket>, c: uint32)
    ensures CountOf([Weapon(sockets)], c) == if c == WEAPON then 1 else 0
    ensures CountOf([Weapon(sockets), GEM], c) == (if c == WEAPON then 1 else 0) + if c == 2101 then 1 else 0
  {
    assert [Weapon(sockets)][..0] == [];
    assert [Weapon(sockets), GEM][..1] == [Weapon(sockets)];
  }

  lemma Targets(sockets: seq<GemSocket>)
    ensures Target(WithGem(sockets), 1) == Some(Weapon(sockets)) == Target(NoGem(sockets), 1)
    ensures !Worn(WithGem(sockets), 1) && !Worn(NoGem(sockets), 1)
  {
  }

  lemma InlayAccepted(was: seq<GemSocket>, now: seq<GemSocket>)
    requires SocketOf(was, 0).Some? && SocketOf(now, 0).Some?
    requires SocketOf(was, 0).value == Socket(0, false, SocketOf(was, 0).value.gemIconKey)
    requires SocketOf(now, 0).value == Socket(0, true, SocketOf(now, 0).value.gemIconKey)
    requires SocketsBut(was, 0) == SocketsBut(now, 0)
    ensures Inlaid(WithGem(was), NoGem(now), 1, 0, 2101)
  {
    Targets(was);
    Targets(now);
    forall c: uint32 ensures CountOf(WithGem(was).inventory.items, c)
                          == CountOf(NoGem(now).inventory.items, c) + if c == 2101 then 1 else 0 {
      Counts(was, c);
      Counts(now, c);
    }
    assert IsFirstStack(WithGem(was).inventory.items, 2101, GEM);
    assert FromFirstStack(WithGem(was).inventory, 2101, DAMAGE);
  }

  lemma RemoveAccepted(was: seq<GemSocket>, now: seq<GemSocket>)
    requires SocketOf(was, 0).Some? && SocketOf(now, 0).Some?
    requires SocketOf(was, 0).value == Socket(0, true, SocketOf(was, 0).value.gemIconKey)
    requires SocketOf(now, 0).value == Socket(0, false, SocketOf(now, 0).value.gemIconKey)
    requires SocketsBut(was, 0) == SocketsBut(now, 0)
    ensures Removed(NoGem(was), WithGem(now), 1, 0)
  {
    Targets(was);
    Targets(now);
    forall c: uint32 ensures CountOf(WithGem(now).inventory.items, c)
                          == CountOf(NoGem(was).inventory.items, c) + if c == 2101 then 1 else 0 {
      Counts(was, c);
      Counts(now, c);
    }
  }

  /** The icon of a socket is not restored by the checks: inlay and removal are both accepted,
      and the emptied socket still shows the gem's icon. */
  lemma IconMayStay()
    ensures exists s0: Snapshot, s1: Snapshot, s2: Snapshot ::
      && Inlaid(s0, s1, 1, 0, 2101) && Removed(s1, s2, 1, 0)
      && Target(s2, 1) != Target(s0, 1)
  {
    var before, filled, after := [Socket(0, false, "")], [Socket(0, true, "gem.png")], [Socket(0, false, "gem.png")];
    InlayAccepted(before, filled);
    RemoveAccepted(filled, after);
    Targets(before);
    Targets(after);
    assert before[0].gemIconKey != after[0].gemIconKey;
  }

  /** Without distinct socket numbers one inlaid gem may fill two sockets unnoticed. */
  lemma DuplicateSocketsMintGems()
    ensures exists s0: Snapshot, s1: Snapshot ::
      && Inlaid(s0, s1, 1, 0, 2101)
      && CountOf(s1.inventory.items, 2101) + HeldBy(s1, 1, 2101)
           == CountOf(s0.inventory.items, 2101) + HeldBy(s0, 1, 2101) + 1
  {
    var before, after := [Socket(0, false, ""), Socket(0, false, "")], [Socket(0, true, ""), Socket(0, true, "")];
    assert SocketsBut(before, 0) == [] == SocketsBut(after, 0);
    InlayAccepted(before, after);
    Counts(before, 2101);
    Counts(after, 2101);
    Targets(before);
    Targets(after);
    assert Held(before[1..], 2101) == 0 && Held(after[1..], 2101) == 1;
    assert HeldBy(WithGem(before), 1, 2101) == 0 && HeldBy(NoGem(after), 1, 2101) == 2;
  }
}
