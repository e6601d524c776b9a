/** Channel directories: the check of one, the comparison of two, and the choice of a line to switch to
    (robot/channel_smoke_scenario.go:711-803). */
module Channels {
  import opened Ints
  import opened Sorting

  datatype State = Unknown | Smooth | Busy | Full | Closing | Unavailable

  /** A line: its number, the scene behind it, and how full it is. */
  datatype Channel = Channel(no: uint32, scene: uint64, state: State)

  datatype Directory = Directory(zone: uint32, configId: uint32, channels: seq<Channel>, switchEnabled: bool)

  /** NotifySceneInfo: the directory and the scene ids of its scene_info. */
  datatype Push = Push(directory: Option<Directory>, sceneInfo: seq<uint64>)

  datatype Error =
    | NoDirectory | WrongZone | WrongMap | NoChannels
    | NumberTooSmall(line: nat) | NotIncreasing(line: nat) | NoScene(line: nat) | DuplicateScene(line: nat)
    | CurrentMissing | SwitchDisabled | WrongScene

  function SceneKey(): Channel -> int { (c: Channel) => c.scene }

  /** Numbers from 1 upwards strictly ascending, and a scene of its own behind every line. */
  ghost predicate Orderly(channels: seq<Channel>) {
    && (forall i :: 0 <= i < |channels| ==> channels[i].no >= 1 && channels[i].scene != 0)
    && (forall i, j :: 0 <= i < j < |channels| ==> channels[i].no < channels[j].no)
    && DistinctBy(channels, SceneKey())
  }

  predicate HeaderOk(dir: Directory, wantZone: uint32, wantConfig: uint32) {
    (wantZone == 0 || dir.zone == wantZone) && dir.configId == wantConfig && dir.channels != []
  }

  /** Line `i` is the one of this scene and no other line is. */
  ghost predicate OnlyLineOf(channels: seq<Channel>, scene: uint64, i: int) {
    && 0 <= i < |channels| && channels[i].scene == scene
    && forall j :: 0 <= j < |channels| && channels[j].scene == scene ==> j == i
  }

  ghost predicate Sound(push: Push, wantZone: uint32, wantConfig: uint32, current: uint64) {
    && push.directory.Some?
    && HeaderOk(push.directory.value, wantZone, wantConfig)
    && Orderly(push.directory.value.channels)
    && (exists i :: OnlyLineOf(push.directory.value.channels, current, i))
    && push.directory.value.switchEnabled
    && (push.sceneInfo != [] ==> push.sceneInfo[0] == current)
  }

  // ------------------------------------------------------------------ the single pass

  /** The scenes of the lines so far. */
  function ScenesOf(channels: seq<Channel>): set<uint64> {
    if channels == [] then {} else ScenesOf(channels[..|channels| - 1]) + {channels[|channels| - 1].scene}
  }

  lemma {:induction false} SceneHasLine(channels: seq<Channel>, scene: uint64)
    ensures scene in ScenesOf(channels) <==> exists i :: 0 <= i < |channels| && channels[i].scene == scene
  {
    if channels != [] {
      var n := |channels| - 1;
      SceneHasLine(channels[..n], scene);
      if scene in ScenesOf(channels[..n]) {
        var i :| 0 <= i < n && channels[..n][i].scene == scene;
        assert channels[i].scene == scene;
      } else if channels[n].scene == scene {
        assert 0 <= n < |channels| && channels[n].scene == scene;
      } else {
        assert forall i :: 0 <= i < n ==> channels[i] == channels[..n][i];
      }
    }
  }

  /** What is wrong with line `n` after an orderly beginning, in the order in which it is looked for. */
  ghost predicate LineDefect(channels: seq<Channel>, n: nat, e: Error)
    requires n < |channels|
  {
    && Orderly(channels[..n])
    && match e
       case NumberTooSmall(line) => line == n && channels[n].no < 1
       case NotIncreasing(line) =>
         line == n && channels[n].no >= 1 && exists i :: 0 <= i < n && channels[i].no >= channels[n].no
       case NoScene(line) => line == n && channels[n].scene == 0
       case DuplicateScene(line) =>
         line == n && channels[n].scene != 0 && exists i :: 0 <= i < n && channels[i].scene == channels[n].scene
       case _ => false
  }

  lemma OrderlyExtend(channels: seq<Channel>, n: nat)
    requires n < |channels| && Orderly(channels[..n])
    requires channels[n].no >= 1 && (n > 0 ==> channels[n].no > channels[n - 1].no)
    requires channels[n].scene != 0 && channels[n].scene !in ScenesOf(channels[..n])
    ensures Orderly(channels[..n + 1])
  {
    var before, after := channels[..n], channels[..n + 1];
    forall i, j | 0 <= i < j < |after| ensures after[i].no < after[j].no && after[i].scene != after[j].scene {
      assert after[i] == before[i];
      if j < n {
        assert after[j] == before[j] && SceneKey()(before[i]) != SceneKey()(before[j]);
      } else {
        assert before[i].no <= before[n - 1].no;
        SceneHasLine(before, channels[n].scene);
      }
    }
    forall i | 0 <= i < |after| ensures after[i].no >= 1 && after[i].scene != 0 {
      if i < n { assert after[i] == before[i]; }
    }
  }

  /** A scene seen before is a defect ... */
  lemma SceneRepeats(channels: seq<Channel>, n: nat)
    requires n < |channels| && Orderly(channels[..n])
    requires channels[n].scene != 0 && channels[n].scene in ScenesOf(channels[..n])
    ensures LineDefect(channels, n, DuplicateScene(n))
  {
    SceneHasLine(channels[..n], channels[n].scene);
    var i :| 0 <= i < n && channels[..n][i].scene == channels[n].scene;
    assert channels[i].scene == channels[n].scene;
  }

  /** ... and a defect is one of the whole directory. */
  lemma DefectSpoils(channels: seq<Channel>, n: nat, e: Error)
    requires n < |channels| && LineDefect(channels, n, e)
    ensures !Orderly(channels)
  {
    if e.DuplicateScene? {
      var i :| 0 <= i < n && channels[i].scene == channels[n].scene;
      assert SceneKey()(channels[i]) == SceneKey()(channels[n]);
    }
  }

  /** The loop of channelSmokeCheckDirectory: each number is compared only with the one before it. */
  method CheckLines(channels: seq<Channel>, current: uint64) returns (error: Option<Error>, foundCurrent: bool)
    ensures error.None? <==> Orderly(channels)
    ensures error.None? ==> (foundCurrent <==> exists i :: OnlyLineOf(channels, current, i))
    ensures error.Some? ==> exists n :: 0 <= n < |channels| && LineDefect(channels, n, error.value)
  {
    var seen: set<uint64> := {};
    var previous := 0;
    foundCurrent := false;
    for n := 0 to |channels|
      invariant seen == ScenesOf(channels[..n]) && (foundCurrent <==> current in seen)
      invariant Orderly(channels[..n])
      invariant previous == if n == 0 then 0 else channels[n - 1].no
    {
      var channel := channels[n];
      if channel.no < 1 {
        error := Some(NumberTooSmall(n));
        assert LineDefect(channels, n, error.value);
        DefectSpoils(channels, n, error.value);
        return;
      }
      if n > 0 && channel.no <= previous {
        error := Some(NotIncreasing(n));
        assert channels[n - 1].no >= channels[n].no;
        assert LineDefect(channels, n, error.value);
        DefectSpoils(channels, n, error.value);
        return;
      }
      previous := channel.no;
      if channel.scene == 0 {
        error := Some(NoScene(n));
        assert LineDefect(channels, n, error.value);
        DefectSpoils(channels, n, error.value);
        return;
      }
      if channel.scene in seen {
        error := Some(DuplicateScene(n));
        SceneRepeats(channels, n);
        DefectSpoils(channels, n, error.value);
        return;
      }
      OrderlyExtend(channels, n);
      assert channels[..n + 1][..n] == channels[..n];
      seen := seen + {channel.scene};
      if channel.scene == current { foundCurrent := true; }
    }
    assert channels[..|channels|] == channels;
    CurrentLine(channels, current);
    return None, foundCurrent;
  }

  /** Scenes being distinct, exactly one current line is the same as some current line. */
  lemma CurrentLine(channels: seq<Channel>, current: uint64)
    requires Orderly(channels)
    ensures current in ScenesOf(channels) <==> exists i :: OnlyLineOf(channels, current, i)
  {
    SceneHasLine(channels, current);
    if current in ScenesOf(channels) {
      var i :| 0 <= i < |channels| && channels[i].scene == current;
      forall j | 0 <= j < |channels| && channels[j].scene == current ensures j == i {
        assert SceneKey()(channels[i]) == SceneKey()(channels[j]);
      }
      assert OnlyLineOf(channels, current, i);
    }
  }

  /** channelSmokeCheckDirectory. */
  method CheckDirectory(push: Push, wantZone: uint32, wantConfig: uint32, current: uint64)
    returns (error: Option<Error>)
    ensures error.None? <==> Sound(push, wantZone, wantConfig, current)
    ensures error == Some(NoDirectory) <==> push.directory.None?
    ensures error.Some? && error.value in {WrongZone, WrongMap, NoChannels} <==>
      push.directory.Some? && !HeaderOk(push.directory.value, wantZone, wantConfig)
    ensures error == Some(SwitchDisabled) ==> !push.directory.value.switchEnabled
    ensures error == Some(WrongScene) ==> push.sceneInfo != [] && push.sceneInfo[0] != current
    ensures error.Some? && error.value in {CurrentMissing, SwitchDisabled, WrongScene} ==>
      && push.directory.Some? && Orderly(push.directory.value.channels)
      && (error.value.CurrentMissing? <==> !exists i :: OnlyLineOf(push.directory.value.channels, current, i))
  {
    if push.directory.None? { return Some(NoDirectory); }
    var dir := push.directory.value;
    if wantZone != 0 && dir.zone != wantZone { return Some(WrongZone); }
    if dir.configId != wantConfig { return Some(WrongMap); }
    if |dir.channels| == 0 { return Some(NoChannels); }
    var lineError, foundCurrent := CheckLines(dir.channels, current);
    if lineError.Some? { return lineError; }
    if !foundCurrent { return Some(CurrentMissing); }
    if !dir.switchEnabled { return Some(SwitchDisabled); }
    if |push.sceneInfo| > 0 && push.sceneInfo[0] != current { return Some(WrongScene); }
    return None;
  }

  // ------------------------------------------------------------------ two directories

  /** The number that a directory gives to a scene; of several lines the last one counts. */
  function NoOf(channels: seq<Channel>, scene: uint64): Option<uint32> {
    if channels == [] then None
    else if channels[|channels| - 1].scene == scene then Some(channels[|channels| - 1].no)
    else NoOf(channels[..|channels| - 1], scene)
  }

  /** The line is in the other directory too, under another number. */
  predicate Renumbered(before: seq<Channel>, c: Channel) {
    NoOf(before, c.scene).Some? && NoOf(before, c.scene).value != c.no
  }

  predicate NosStable(before: seq<Channel>, after: seq<Channel>) {
    forall i :: 0 <= i < |after| ==> !Renumbered(before, after[i])
  }

  function SharedCount(before: seq<Channel>, after: seq<Channel>): nat {
    if after == [] then 0
    else
      SharedCount(before, after[..|after| - 1]) + if NoOf(before, after[|after| - 1].scene).Some? then 1 else 0
  }

  /** channelSmokeCheckChannelNosStable, for any two directories. */
  method CheckNosStable(before: seq<Channel>, after: seq<Channel>) returns (shared: nat, ok: bool)
    ensures ok <==> NosStable(before, after)
    ensures ok ==> shared == SharedCount(before, after)
    ensures !ok ==>
      exists n ::
        0 <= n < |after| && Renumbered(before, after[n]) && NosStable(before, after[..n])
        && shared == SharedCount(before, after[..n + 1])
  {
    var beforeNo: map<uint64, uint32> := map[];
    for n := 0 to |before|
      invariant forall s: uint64 :: s in beforeNo <==> NoOf(before[..n], s).Some?
      invariant forall s: uint64 :: s in beforeNo ==> NoOf(before[..n], s) == Some(beforeNo[s])
    {
      assert before[..n + 1][..n] == before[..n];
      beforeNo := beforeNo[before[n].scene := before[n].no];
    }
    assert before[..|before|] == before;
    shared := 0;
    for n := 0 to |after|
      invariant NosStable(before, after[..n]) && shared == SharedCount(before, after[..n])
    {
      assert after[..n + 1][..n] == after[..n];
      var channel := after[n];
      if channel.scene in beforeNo {
        shared := shared + 1;
        if beforeNo[channel.scene] != channel.no {
          assert Renumbered(before, after[n]);
          return shared, false;
        }
      }
      assert forall i :: 0 <= i < n ==> after[..n + 1][i] == after[..n][i];
    }
    assert after[..|after|] == after;
    return shared, true;
  }

  /** In an orderly directory a scene has the number of its only line. */
  lemma {:induction false} NoOfLine(channels: seq<Channel>, i: nat)
    requires DistinctBy(channels, SceneKey()) && i < |channels|
    ensures NoOf(channels, channels[i].scene) == Some(channels[i].no)
  {
    var n := |channels| - 1;
    if i < n {
      assert SceneKey()(channels[i]) != SceneKey()(channels[n]);
      assert forall a, b :: 0 <= a < b < n ==> SceneKey()(channels[a]) != SceneKey()(channels[b]);
      NoOfLine(channels[..n], i);
    }
  }

  lemma {:induction false} NoOfScene(channels: seq<Channel>, scene: uint64)
    ensures NoOf(channels, scene).Some? <==> scene in ScenesOf(channels)
  {
    if channels != [] {
      NoOfScene(channels[..|channels| - 1], scene);
    }
  }

  /** The reported count is the number of scenes that both directories list. */
  lemma {:induction false} SharedIsIntersection(before: seq<Channel>, after: seq<Channel>)
    requires Orderly(after)
    ensures SharedCount(before, after) == |ScenesOf(before) * ScenesOf(after)|
  {
    if after != [] {
      var n := |after| - 1;
      var scene, earlier := after[n].scene, after[..n];
      assert forall a, b :: 0 <= a < b < n ==> SceneKey()(after[a]) != SceneKey()(after[b]);
      SharedIsIntersection(before, earlier);
      NoOfScene(before, scene);
      SceneHasLine(earlier, scene);
      assert forall a :: 0 <= a < n ==> SceneKey()(after[a]) != SceneKey()(after[n]);
      var both := ScenesOf(before) * ScenesOf(earlier);
      assert ScenesOf(before) * ScenesOf(after) == if scene in ScenesOf(before) then both + {scene} else both;
    }
  }

  /** What a stable pair means line by line: one scene, one number. */
  lemma StableMeaning(before: seq<Channel>, after: seq<Channel>)
    requires Orderly(before) && Orderly(after)
    ensures NosStable(before, after) <==>
      forall i, j :: 0 <= i < |before| && 0 <= j < |after| && before[i].scene == after[j].scene ==>
        before[i].no == after[j].no
  {
    forall i, j | NosStable(before, after) && 0 <= i < |before| && 0 <= j < |after| && before[i].scene == after[j].scene
      ensures before[i].no == after[j].no
    {
      NoOfLine(before, i);
      assert !Renumbered(before, after[j]);
    }
    forall j | 0 <= j < |after| && Renumbered(before, after[j])
      ensures exists i :: 0 <= i < |before| && before[i].scene == after[j].scene && before[i].no != after[j].no
    {
      NoOfScene(before, after[j].scene);
      SceneHasLine(before, after[j].scene);
      var i :| 0 <= i < |before| && before[i].scene == after[j].scene;
      NoOfLine(before, i);
    }
  }

  /** The comparison does not depend on which directory came first, in its verdict or in its count. */
  lemma StableIsSymmetric(before: seq<Channel>, after: seq<Channel>)
    requires Orderly(before) && Orderly(after)
    ensures NosStable(before, after) <==> NosStable(after, before)
    ensures SharedCount(before, after) == SharedCount(after, before)
  {
    StableMeaning(before, after);
    StableMeaning(after, before);
    SharedIsIntersection(before, after);
    SharedIsIntersection(after, before);
    assert ScenesOf(before) * ScenesOf(after) == ScenesOf(after) * ScenesOf(before);
  }

  /** Two sound and stable directories list the lines they share in the same order. */
  lemma SharedLinesKeepOrder(before: seq<Channel>, after: seq<Channel>, i: nat, j: nat, k: nat, l: nat)
    requires Orderly(before) && Orderly(after) && NosStable(before, after)
    requires i < |before| && j < |before| && k < |after| && l < |after|
    requires before[i].scene == after[k].scene && before[j].scene == after[l].scene
    ensures i < j <==> k < l
  {
    StableMeaning(before, after);
    assert before[i].no == after[k].no && before[j].no == after[l].no;
  }

  // ------------------------------------------------------------------ the choice of a target

  predicate Selectable(state: State) { state.Smooth? || state.Busy? }

  predicate Candidate(c: Channel, current: uint64) { c.scene != current && Selectable(c.state) }

  /** channelSmokePickTarget: the first candidate, which in an orderly directory is the one of least number. */
  method PickTarget(channels: seq<Channel>, current: uint64) returns (target: Option<Channel>)
    ensures target.None? <==>
      forall i :: 0 <= i < |channels| ==> channels[i].scene == current || channels[i].state !in {Smooth, Busy}
    ensures target.Some? ==> exists i :: FirstCandidate(channels, current, i) && target.value == channels[i]
    ensures target.Some? ==> target.value.scene != current && target.value.state in {Smooth, Busy}
    ensures target.Some? && Orderly(channels) ==>
      forall j :: 0 <= j < |channels| && Candidate(channels[j], current) ==> target.value.no <= channels[j].no
  {
    for n := 0 to |channels|
      invariant forall i :: 0 <= i < n ==> !Candidate(channels[i], current)
    {
      if channels[n].scene != current && Selectable(channels[n].state) {
        assert FirstCandidate(channels, current, n);
        return Some(channels[n]);
      }
    }
    return None;
  }

  ghost predicate FirstCandidate(channels: seq<Channel>, current: uint64, i: int) {
    && 0 <= i < |channels| && Candidate(channels[i], current)
    && forall j :: 0 <= j < i ==> !Candidate(channels[j], current)
  }

  // ------------------------------------------------------------------ field by field

  /** A sound push, field by field. */
  lemma SoundOnFields(push: Push, wantZone: uint32, wantConfig: uint32, current: uint64)
    ensures Sound(push, wantZone, wantConfig, current) <==>
      && push.directory.Some?
      && var dir := push.directory.value;
      && (wantZone != 0 ==> dir.zone == wantZone) && dir.configId == wantConfig && dir.switchEnabled
      && (forall i :: 0 <= i < |dir.channels| ==> dir.channels[i].no >= 1 && dir.channels[i].scene != 0)
      && (forall i, j :: 0 <= i < j < |dir.channels| ==>
            dir.channels[i].no < dir.channels[j].no && dir.channels[i].scene != dir.channels[j].scene)
      && (exists i :: 0 <= i < |dir.channels| && dir.channels[i].scene == current)
      && (|push.sceneInfo| > 0 ==> push.sceneInfo[0] == current)
  {
    if push.directory.Some? {
      var channels := push.directory.value.channels;
      assert DistinctBy(channels, SceneKey()) <==>
        forall i, j :: 0 <= i < j < |channels| ==> channels[i].scene != channels[j].scene;
      if Orderly(channels) {
        CurrentLine(channels, current);
        SceneHasLine(channels, current);
      }
    }
  }
}
