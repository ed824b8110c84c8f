/** The output side of `main`: numbering the interpolated poses as camera records,
    and the whole pipeline load, filter, interpolate, number. */
module CameraOutput {
  import opened NameOrder
  import opened Interpolation
  import opened PoseStore
  import opened ImageNames

  /** `pose.inverse().matrix()` split into its translation column and rotation block. */
  datatype Placement = Placement(position: seq<real>, rotation: seq<seq<real>>)

  /** The `CameraJson` record written for each output frame. */
  datatype CameraJson = CameraJson(
    id: int, imgName: string, width: int, height: int,
    position: seq<real>, rotation: seq<seq<real>>, fy: real, fx: real)

  /** The configuration block of `main`, without the file paths. `focal` is the value
      of `fov_to_focal(np.deg2rad(fov_degrees), width)` and `numFrames` the value of
      `int(dt * fps)`. */
  datatype Config = Config(prefix: string, width: int, height: int, focal: real, numFrames: int)

  /** The record loop of `main`: one record per pose, numbered from 0. */
  method BuildCameras<P>(poses: seq<P>, cfg: Config, placement: P -> Placement)
    returns (cameras: seq<CameraJson>)
    ensures |cameras| == |poses|
    ensures forall idx :: 0 <= idx < |cameras| ==>
              && cameras[idx].id == idx
              && cameras[idx].imgName == Format06(idx)
              && AllDigits(cameras[idx].imgName)
              && ParseDecimal(cameras[idx].imgName) == idx
              && (idx < 1000000 ==> |cameras[idx].imgName| == 6)
    ensures forall idx :: 0 <= idx < |cameras| ==>
              && cameras[idx].width == cfg.width
              && cameras[idx].height == cfg.height
              && cameras[idx].fx == cfg.focal
              && cameras[idx].fy == cameras[idx].fx
              && cameras[idx].position == placement(poses[idx]).position
              && cameras[idx].rotation == placement(poses[idx]).rotation
    ensures forall i, j :: 0 <= i < j < |cameras| && j < 1000000 ==>
              Less(cameras[i].imgName, cameras[j].imgName)
  {
    cameras := [];
    var idx := 0;
    while idx < |poses|
      invariant 0 <= idx <= |poses| && |cameras| == idx
      invariant forall k :: 0 <= k < idx ==>
                  && cameras[k].id == k
                  && cameras[k].imgName == Format06(k)
                  && AllDigits(cameras[k].imgName)
                  && ParseDecimal(cameras[k].imgName) == k
                  && (k < 1000000 ==> |cameras[k].imgName| == 6)
      invariant forall k :: 0 <= k < idx ==>
                  && cameras[k].width == cfg.width
                  && cameras[k].height == cfg.height
                  && cameras[k].fx == cfg.focal
                  && cameras[k].fy == cameras[k].fx
                  && cameras[k].position == placement(poses[k]).position
                  && cameras[k].rotation == placement(poses[k]).rotation
    {
      var twc := placement(poses[idx]);
      var camera := CameraJson(idx, Format06(idx), cfg.width, cfg.height,
                               twc.position, twc.rotation, cfg.focal, cfg.focal);
      Format06RoundTrip(idx);
      Format06Width(idx);
      cameras := cameras + [camera];
      idx := idx + 1;
    }
    forall i, j | 0 <= i < j < |cameras| && j < 1000000
      ensures Less(cameras[i].imgName, cameras[j].imgName)
    {
      Format06Ascending(i, j);
    }
  }

  /** The names of the input items that start with `prefix`. */
  function PrefixedNames<P>(items: seq<Keyframe<P>>, prefix: string): set<string> {
    set i | 0 <= i < |items| && StartsWith(items[i].name, prefix) :: items[i].name
  }

  /** The set of names in a list of entries. */
  function NamesOf<P>(s: seq<Entry<P>>): set<string> {
    set k | 0 <= k < |s| :: s[k].name
  }

  lemma {:induction false} DistinctNamesCount<P>(s: seq<Entry<P>>)
    requires DistinctNames(s)
    ensures |NamesOf(s)| == |s|
  {
    if s != [] {
      var t := s[1..];
      DistinctNamesCount(t);
      assert NamesOf(s) == NamesOf(t) + {s[0].name};
      assert s[0].name !in NamesOf(t);
    }
  }

  /** The entries kept from the ascending store have distinct names. */
  lemma KeptDistinct<P>(loaded: seq<Entry<P>>, prefix: string)
    requires Ascending(loaded)
    ensures DistinctNames(KeepPrefixed(loaded, prefix))
  {
    var kept := KeepPrefixed(loaded, prefix);
    KeepPrefixedAscending(loaded, prefix);
    forall i, j | 0 <= i < j < |kept| ensures kept[i].name != kept[j].name {
      LessIrreflexive(kept[i].name);
    }
  }

  /** The names kept from the loaded store are the input names carrying the prefix. */
  lemma KeptNames<P>(items: seq<Keyframe<P>>, invert: P -> P, prefix: string, loaded: seq<Entry<P>>)
    requires forall e :: e in loaded ==> e.name in NameToTcw(items, invert)
    requires forall name :: name in NameToTcw(items, invert) ==> Entry(name, NameToTcw(items, invert)[name]) in loaded
    ensures NamesOf(KeepPrefixed(loaded, prefix)) == PrefixedNames(items, prefix)
  {
    NameToTcwKeys(items, invert);
    var m := NameToTcw(items, invert);
    var kept := KeepPrefixed(loaded, prefix);
    forall name | name in NamesOf(kept) ensures name in PrefixedNames(items, prefix) {
      var k :| 0 <= k < |kept| && kept[k].name == name;
      assert kept[k] in loaded;
      assert name in m.Keys;
      var i :| 0 <= i < |items| && items[i].name == name;
    }
    forall name | name in PrefixedNames(items, prefix) ensures name in NamesOf(kept) {
      var i :| 0 <= i < |items| && StartsWith(items[i].name, prefix) && items[i].name == name;
      assert name in m.Keys;
      var e := Entry(name, m[name]);
      var k :| 0 <= k < |loaded| && loaded[k] == e;
      assert e in kept;
      var q :| 0 <= q < |kept| && kept[q] == e;
    }
  }

  /** One keyframe reaches the interpolator per distinct input name carrying the
      prefix: duplicates have collapsed into one dictionary entry each. */
  lemma SelectedCount<P>(items: seq<Keyframe<P>>, invert: P -> P, prefix: string, loaded: seq<Entry<P>>)
    requires Ascending(loaded)
    requires forall e :: e in loaded ==> e.name in NameToTcw(items, invert)
    requires forall name :: name in NameToTcw(items, invert) ==> Entry(name, NameToTcw(items, invert)[name]) in loaded
    ensures |KeepPrefixed(loaded, prefix)| == |PrefixedNames(items, prefix)|
  {
    KeptDistinct(loaded, prefix);
    DistinctNamesCount(KeepPrefixed(loaded, prefix));
    KeptNames(items, invert, prefix, loaded);
  }

  /** `main` on decoded input and an explicit configuration: load, keep the names with
      the prefix, interpolate, number the frames. It fails exactly when no name
      carries the prefix; otherwise it writes `1 + (K - 1) * max(num_frames, 1)`
      records for the `K` distinct names kept. */
  method Run<P>(items: seq<Keyframe<P>>, cfg: Config, invert: P -> P,
                interp: (P, P, real) -> P, placement: P -> Placement)
    returns (r: Result<seq<CameraJson>>)
    ensures r.Failure? <==> PrefixedNames(items, cfg.prefix) == {}
    ensures r.Failure? ==> r.error == IndexError
    ensures r.Success? ==>
              |r.value| == 1 + (|PrefixedNames(items, cfg.prefix)| - 1) * Step(cfg.numFrames)
    ensures r.Success? ==> forall idx :: 0 <= idx < |r.value| ==>
              && r.value[idx].id == idx
              && r.value[idx].imgName == Format06(idx)
              && r.value[idx].width == cfg.width
              && r.value[idx].height == cfg.height
              && r.value[idx].fx == cfg.focal
              && r.value[idx].fy == cfg.focal
  {
    var loaded := LoadCameraPoses(items, invert);
    var refPoses := FilterByPrefix(loaded, cfg.prefix);
    SelectedCount(items, invert, cfg.prefix, loaded);
    var interpolated := InterpolatePoses(refPoses, cfg.numFrames, interp);
    if interpolated.Failure? {
      return Failure(interpolated.error);
    }
    ExpandLength(refPoses, cfg.numFrames, interp);
    var cameras := BuildCameras(interpolated.value, cfg, placement);
    r := Success(cameras);
  }
}
