/** The frame-expansion schedule of `interpolate_poses`: the first keyframe, then for
    each consecutive pair of keyframes `num_frames - 1` in-between frames at
    `alpha = j / num_frames` followed by the pair's trailing keyframe.

    Poses are opaque values of a type parameter `P`. The rigid-transform
    interpolation of the numeric library is the parameter `interp`: the model
    says which arguments it is called with and where its results land, not
    what it computes. */
module Interpolation {

  /** Indexing `poses[0]` of an empty list raises `IndexError` in the source. */
  datatype Error = IndexError

  datatype Result<T> = Success(value: T) | Failure(error: Error)

  /** Output frames per keyframe pair: `range(1, num_frames)` in-between frames plus
      the trailing keyframe, that is `max(num_frames, 1)`. */
  function Step(numFrames: int): nat {
    if numFrames <= 1 then 1 else numFrames
  }

  /** The interpolation fraction `j / num_frames` (true division). */
  function Alpha(j: int, numFrames: int): real
    requires numFrames > 0
  {
    j as real / numFrames as real
  }

  /** What the source appends for the keyframe pair (a, b). */
  function Segment<P>(a: P, b: P, numFrames: int, interp: (P, P, real) -> P): seq<P> {
    seq(Step(numFrames) - 1,
        k requires 0 <= k < Step(numFrames) - 1 => interp(a, b, Alpha(k + 1, numFrames)))
    + [b]
  }

  /** The list `interpolate_poses` returns for a non-empty list of keyframes, built
      pair by pair as the outer loop builds it. */
  function Expand<P>(poses: seq<P>, numFrames: int, interp: (P, P, real) -> P): seq<P>
    requires poses != []
    decreases |poses|
  {
    if |poses| == 1 then [poses[0]]
    else
      Expand(poses[..|poses| - 1], numFrames, interp)
      + Segment(poses[|poses| - 2], poses[|poses| - 1], numFrames, interp)
  }

  /** Closed form of output frame `q`: with `m = max(num_frames, 1)`, frame `q` is
      keyframe `q / m` when `m` divides `q`, and otherwise the frame interpolated
      between keyframes `q / m` and `q / m + 1` at `alpha = (q % m) / num_frames`. */
  function FrameAt<P>(poses: seq<P>, numFrames: int, interp: (P, P, real) -> P, q: nat): P
    requires poses != [] && q < 1 + (|poses| - 1) * Step(numFrames)
  {
    var m := Step(numFrames);
    SegmentBounds(|poses|, m, q);
    var i := q / m;
    if q % m == 0 then poses[i]
    else interp(poses[i], poses[i + 1], Alpha(q % m, numFrames))
  }

  /** Frame `q` of an expansion of `n` keyframes falls in a segment that exists:
      the keyframe indices `FrameAt` reads are in range. */
  lemma SegmentBounds(n: nat, m: nat, q: nat)
    requires n >= 1 && m >= 1 && q < 1 + (n - 1) * m
    ensures q / m < n
    ensures q % m != 0 ==> m > 1 && q / m + 1 < n
  {
  }

  lemma {:induction false} ExpandLength<P>(poses: seq<P>, numFrames: int, interp: (P, P, real) -> P)
    requires poses != []
    ensures |Expand(poses, numFrames, interp)| == 1 + (|poses| - 1) * Step(numFrames)
    decreases |poses|
  {
    if |poses| > 1 {
      var m := Step(numFrames);
      ExpandLength(poses[..|poses| - 1], numFrames, interp);
      assert (|poses| - 2) * m + m == (|poses| - 1) * m;
    }
  }

  /** Keyframe `k` is emitted once, unchanged, at output index `k * max(num_frames, 1)`. */
  lemma {:induction false} ExpandKeyframe<P>(poses: seq<P>, numFrames: int, interp: (P, P, real) -> P, k: nat)
    requires k < |poses|
    ensures k * Step(numFrames) < |Expand(poses, numFrames, interp)|
    ensures Expand(poses, numFrames, interp)[k * Step(numFrames)] == poses[k]
    decreases |poses|
  {
    var m := Step(numFrames);
    ExpandLength(poses, numFrames, interp);
    if |poses| > 1 {
      var init := poses[..|poses| - 1];
      ExpandLength(init, numFrames, interp);
      if k == |poses| - 1 {
        assert k * m == (|poses| - 2) * m + m;
      } else {
        ExpandKeyframe(init, numFrames, interp, k);
      }
    }
  }

  /** In-between frame `j` of pair `i` (for `1 <= j < num_frames`) is the pair's
      interpolation at `alpha = j / num_frames`, a fraction strictly between 0 and 1. */
  lemma {:induction false} ExpandInBetween<P>(poses: seq<P>, numFrames: int, interp: (P, P, real) -> P, i: nat, j: int)
    requires i + 1 < |poses| && 1 <= j < numFrames
    ensures i * Step(numFrames) + j < |Expand(poses, numFrames, interp)|
    ensures Expand(poses, numFrames, interp)[i * Step(numFrames) + j]
            == interp(poses[i], poses[i + 1], Alpha(j, numFrames))
    ensures 0.0 < Alpha(j, numFrames) < 1.0
    decreases |poses|
  {
    var m := Step(numFrames);
    AlphaBetween(j, numFrames);
    ExpandLength(poses, numFrames, interp);
    var init := poses[..|poses| - 1];
    ExpandLength(init, numFrames, interp);
    if i + 2 < |poses| {
      ExpandInBetween(init, numFrames, interp, i, j);
    } else {
      assert i * m + j == (|poses| - 2) * m + 1 + (j - 1);
    }
  }

  /** An in-between fraction lies strictly between 0 and 1. */
  lemma AlphaBetween(j: int, numFrames: int)
    requires 1 <= j < numFrames
    ensures 0.0 < Alpha(j, numFrames) < 1.0
  {
    var a, n := j as real, numFrames as real;
    assert Alpha(j, numFrames) * n == a;
  }

  /** Output frame `q` is the frame the closed form `FrameAt` names. */
  lemma ExpandFrame<P>(poses: seq<P>, numFrames: int, interp: (P, P, real) -> P, q: nat)
    requires poses != [] && q < 1 + (|poses| - 1) * Step(numFrames)
    ensures q < |Expand(poses, numFrames, interp)|
    ensures Expand(poses, numFrames, interp)[q] == FrameAt(poses, numFrames, interp, q)
  {
    var m := Step(numFrames);
    SegmentBounds(|poses|, m, q);
    if q % m == 0 {
      FrameAtKeyframe(poses, numFrames, interp, q);
    } else {
      FrameAtInBetween(poses, numFrames, interp, q);
    }
  }

  lemma FrameAtKeyframe<P>(poses: seq<P>, numFrames: int, interp: (P, P, real) -> P, q: nat)
    requires poses != [] && q < 1 + (|poses| - 1) * Step(numFrames)
    requires q % Step(numFrames) == 0
    ensures q < |Expand(poses, numFrames, interp)|
    ensures Expand(poses, numFrames, interp)[q] == FrameAt(poses, numFrames, interp, q)
  {
    var m := Step(numFrames);
    var i := q / m;
    assert i < |poses| by {
      SegmentBounds(|poses|, m, q);
    }
    assert q == i * m;
    ExpandKeyframe(poses, numFrames, interp, i);
  }

  lemma FrameAtInBetween<P>(poses: seq<P>, numFrames: int, interp: (P, P, real) -> P, q: nat)
    requires poses != [] && q < 1 + (|poses| - 1) * Step(numFrames)
    requires q % Step(numFrames) != 0
    ensures q < |Expand(poses, numFrames, interp)|
    ensures Expand(poses, numFrames, interp)[q] == FrameAt(poses, numFrames, interp, q)
  {
    var m := Step(numFrames);
    var i, j := q / m, q % m;
    assert 1 <= j < numFrames && i + 1 < |poses| by {
      SegmentBounds(|poses|, m, q);
    }
    assert q == i * m + j;
    ExpandInBetween(poses, numFrames, interp, i, j);
  }

  /** The whole expansion, frame by frame, equals the closed form `FrameAt`: every
      output frame is a keyframe at a multiple of `max(num_frames, 1)` or an
      in-between frame of the surrounding pair, and nothing else is emitted. */
  lemma ExpandIsFrameAt<P>(poses: seq<P>, numFrames: int, interp: (P, P, real) -> P)
    requires poses != []
    ensures |Expand(poses, numFrames, interp)| == 1 + (|poses| - 1) * Step(numFrames)
    ensures forall q :: 0 <= q < |Expand(poses, numFrames, interp)| ==>
              Expand(poses, numFrames, interp)[q] == FrameAt(poses, numFrames, interp, q)
  {
    ExpandLength(poses, numFrames, interp);
    forall q | 0 <= q < |Expand(poses, numFrames, interp)|
      ensures Expand(poses, numFrames, interp)[q] == FrameAt(poses, numFrames, interp, q)
    {
      ExpandFrame(poses, numFrames, interp, q);
    }
  }

  /** With `num_frames <= 1` (zero and negative included) no in-between frame is
      produced and the output is the input list itself. */
  lemma {:induction false} ExpandWithoutInBetweens<P>(poses: seq<P>, numFrames: int, interp: (P, P, real) -> P)
    requires poses != [] && numFrames <= 1
    ensures Expand(poses, numFrames, interp) == poses
    decreases |poses|
  {
    if |poses| > 1 {
      ExpandWithoutInBetweens(poses[..|poses| - 1], numFrames, interp);
      assert poses == poses[..|poses| - 1] + [poses[|poses| - 1]];
    }
  }

  /** The output starts with the first keyframe and ends with the last one. */
  lemma ExpandEnds<P>(poses: seq<P>, numFrames: int, interp: (P, P, real) -> P)
    requires poses != []
    ensures Expand(poses, numFrames, interp) != []
    ensures Expand(poses, numFrames, interp)[0] == poses[0]
    ensures Expand(poses, numFrames, interp)[|Expand(poses, numFrames, interp)| - 1] == poses[|poses| - 1]
  {
    ExpandKeyframe(poses, numFrames, interp, 0);
    ExpandKeyframe(poses, numFrames, interp, |poses| - 1);
    ExpandLength(poses, numFrames, interp);
  }

  /** `interpolate_poses(poses, dt, fps)` with `num_frames = int(dt * fps)` given
      directly: the nested loops append to `out` exactly the frames of `Expand`. */
  method InterpolatePoses<P>(poses: seq<P>, numFrames: int, interp: (P, P, real) -> P)
    returns (r: Result<seq<P>>)
    ensures poses == [] <==> r == Failure(IndexError)
    ensures poses != [] ==> r == Success(Expand(poses, numFrames, interp))
  {
    if |poses| == 0 {
      return Failure(IndexError);
    }
    var out := [poses[0]];
    var i := 0;
    while i < |poses| - 1
      invariant 0 <= i <= |poses| - 1
      invariant out == Expand(poses[..i + 1], numFrames, interp)
    {
      var pre, next := poses[i], poses[i + 1];
      ghost var before := out;
      var j := 1;
      while j < numFrames
        invariant 1 <= j <= Step(numFrames)
        invariant |out| == |before| + j - 1
        invariant out[..|before|] == before
        invariant forall k :: |before| <= k < |out| ==> out[k] == interp(pre, next, Alpha(k - |before| + 1, numFrames))
      {
        out := out + [interp(pre, next, j as real / numFrames as real)];
        j := j + 1;
      }
      out := out + [next];
      assert out == before + Segment(pre, next, numFrames, interp);
      assert poses[..i + 2][..i + 1] == poses[..i + 1];
      i := i + 1;
    }
    assert poses[..i + 1] == poses;
    r := Success(out);
  }
}
