/** `getFramesFromVideo`: the checks on the requested range and the loop
    that reads the frames. The opened capture is abstracted to the frame
    rate and frame count it reports and the outcomes of its successive
    `read()` calls after the seek to the start frame. */
module Extraction {
  import opened Builtins
  import opened Timestamp

  /** One `src.read()`: `(True, frame)` or `(False, None)`. */
  datatype ReadOutcome<F> = Grabbed(frame: F) | Failed

  /** What the extraction can learn from an opened capture: `CAP_PROP_FPS`,
      `CAP_PROP_FRAME_COUNT` and the outcomes of the reads after the seek.
      Reads past the end of `outcomes` fail, as they do at the end of a stream. */
  datatype Video<F> = Video(fps: Fps, frameCount: nat, outcomes: seq<ReadOutcome<F>>)

  /** The outcome of the read with index `i` (counting from 0). */
  function ReadAt<F>(v: Video<F>, i: nat): ReadOutcome<F>
  {
    if i < |v.outcomes| then v.outcomes[i] else Failed
  }

  /** The outcomes of the first `n` reads. */
  function ReadsMade<F>(v: Video<F>, n: nat): seq<ReadOutcome<F>>
  {
    seq(n, i requires 0 <= i => ReadAt(v, i))
  }

  /** The frames of the successful reads among `rs`, in read order. */
  function Kept<F>(rs: seq<ReadOutcome<F>>): seq<F>
  {
    if |rs| == 0 then []
    else
      Kept(rs[..|rs| - 1]) + match rs[|rs| - 1] { case Grabbed(f) => [f] case Failed => [] }
  }

  /** No more frames than reads, and as many exactly when every read succeeded. */
  lemma {:induction false} KeptLength<F>(rs: seq<ReadOutcome<F>>)
    ensures |Kept(rs)| <= |rs|
    ensures |Kept(rs)| == |rs| <==> forall i :: 0 <= i < |rs| ==> rs[i].Grabbed?
  {
    if |rs| > 0 {
      var init := rs[..|rs| - 1];
      KeptLength(init);
      if forall i :: 0 <= i < |rs| ==> rs[i].Grabbed? {
        assert forall i :: 0 <= i < |init| ==> init[i].Grabbed? by {
          forall i | 0 <= i < |init| ensures init[i].Grabbed? {
            assert init[i] == rs[i];
          }
        }
      } else if rs[|rs| - 1].Grabbed? {
        var j :| 0 <= j < |rs| && !rs[j].Grabbed?;
        assert init[j] == rs[j];
      }
    }
  }

  /** The kept frames keep read order: reads done later contribute frames later. */
  lemma {:induction false} KeptAppend<F>(a: seq<ReadOutcome<F>>, b: seq<ReadOutcome<F>>)
    ensures Kept(a + b) == Kept(a) + Kept(b)
    decreases |b|
  {
    if |b| == 0 {
      assert a + b == a;
    } else {
      var b' := b[..|b| - 1];
      KeptAppend(a, b');
      assert (a + b)[..|a + b| - 1] == a + b';
    }
  }

  /** A frame is kept exactly when some read grabbed it. */
  lemma {:induction false} KeptMembers<F>(rs: seq<ReadOutcome<F>>, f: F)
    ensures f in Kept(rs) <==> Grabbed(f) in rs
  {
    if |rs| > 0 {
      var init := rs[..|rs| - 1];
      KeptMembers(init, f);
      assert rs == init + [rs[|rs| - 1]];
    }
  }

  /** `int(duration * fps)`. */
  function FramesRequired(duration: int, fps: Fps): (n: int)
    ensures duration >= 0 ==> 0 <= n && n as real <= duration as real * fps < n as real + 1.0
  {
    assert duration >= 0 ==> duration as real * fps >= 0.0;
    Trunc(duration as real * fps)
  }

  /** Why an extraction returned no frames without reading. */
  datatype AbortReason =
    | NonPositiveDuration      // `duration <= 0`
    | BadTimestamp(error: PyError)  // `calculateStart` raised
    | StartAfterEnd            // `start > videoLength`
    | EndAfterEnd              // `framesRequired + start > videoLength`

  /** The decision taken before the read loop. */
  datatype Plan = Abort(reason: AbortReason) | ReadFrom(start: int, count: nat)

  /** The chain of early returns of `getFramesFromVideo`, in source order. */
  function PlanFor(startString: string, duration: int, fps: Fps, frameCount: nat): (p: Plan)
    // the range is read exactly when it ends at or before the last frame;
    // the separate `start > videoLength` test only picks the message
    ensures p.ReadFrom? <==>
      duration > 0 && CalculateStart(startString, fps).Ok? &&
      CalculateStart(startString, fps).value.frame + FramesRequired(duration, fps) <= frameCount
    ensures p.ReadFrom? ==>
      p.start == CalculateStart(startString, fps).value.frame &&
      p.count == FramesRequired(duration, fps) &&
      p.start <= frameCount && p.start + p.count <= frameCount
    ensures p == Abort(NonPositiveDuration) <==> duration <= 0
    ensures p.Abort? && p.reason.BadTimestamp? ==>
      duration > 0 && CalculateStart(startString, fps) == Raised(p.reason.error)
    ensures p == Abort(StartAfterEnd) ==>
      CalculateStart(startString, fps).Ok? && CalculateStart(startString, fps).value.frame > frameCount
    ensures p == Abort(EndAfterEnd) ==>
      CalculateStart(startString, fps).Ok? &&
      CalculateStart(startString, fps).value.frame <= frameCount <
        CalculateStart(startString, fps).value.frame + FramesRequired(duration, fps)
  {
    if duration <= 0 then
      Abort(NonPositiveDuration)
    else
      var framesRequired := FramesRequired(duration, fps);
      match CalculateStart(startString, fps)
      case Raised(e) => Abort(BadTimestamp(e))
      case Ok(start) =>
        if start.frame > frameCount then Abort(StartAfterEnd)
        else if framesRequired + start.frame > frameCount then Abort(EndAfterEnd)
        else ReadFrom(start.frame, framesRequired)
  }

  /** The pair `getFramesFromVideo` returns. */
  datatype Extracted<F> = Extracted(frames: seq<F>, fps: Fps)

  /** Reference definition of `getFramesFromVideo` on a capture `v`. */
  function Extract<F>(startString: string, duration: int, reverse: bool, v: Video<F>): (r: Extracted<F>)
    ensures duration <= 0 ==> r == Extracted([], 0.0)
    ensures duration > 0 ==> r.fps == v.fps
    ensures !PlanFor(startString, duration, v.fps, v.frameCount).ReadFrom? ==> r.frames == []
    ensures PlanFor(startString, duration, v.fps, v.frameCount).ReadFrom? ==>
      |r.frames| <= PlanFor(startString, duration, v.fps, v.frameCount).count
  {
    match PlanFor(startString, duration, v.fps, v.frameCount)
    case Abort(NonPositiveDuration) => Extracted([], 0.0)
    case Abort(_) => Extracted([], v.fps)
    case ReadFrom(_, n) =>
      var frames := Kept(ReadsMade(v, n));
      KeptLength(ReadsMade(v, n));
      ReverseLength(frames);
      Extracted(if reverse then Reverse(frames) else frames, v.fps)
  }

  /** `getFramesFromVideo(filepath, startString, duration, reverse)`, with the
      capture opened from `filepath` given as `v`. `readCalls` counts the
      calls of `src.read()`. */
  method GetFramesFromVideo<F>(startString: string, duration: int, reverse: bool, v: Video<F>)
    returns (frames: seq<F>, fps: Fps, readCalls: nat)
    ensures Extracted(frames, fps) == Extract(startString, duration, reverse, v)
    ensures readCalls ==
      match PlanFor(startString, duration, v.fps, v.frameCount)
      case ReadFrom(_, n) => n
      case Abort(_) => 0
  {
    if duration <= 0 {
      return [], 0.0, 0;
    }

    var result := [];
    fps := v.fps;
    var videoLength := v.frameCount;
    var framesRequired := FramesRequired(duration, fps);

    var parsed := CalculateStart(startString, fps);
    if parsed.Raised? {
      return result, fps, 0;
    }
    var start := parsed.value.frame;

    if start > videoLength {
      return result, fps, 0;
    }
    if framesRequired + start > videoLength {
      return result, fps, 0;
    }

    var readFrames := 0;
    while readFrames < framesRequired
      invariant 0 <= readFrames <= framesRequired
      invariant result == Kept(ReadsMade(v, readFrames))
    {
      var outcome := ReadAt(v, readFrames);
      assert ReadsMade(v, readFrames + 1)[..readFrames] == ReadsMade(v, readFrames);
      readFrames := readFrames + 1;
      match outcome {
        case Grabbed(frame) => result := result + [frame];
        case Failed =>
      }
    }

    if reverse {
      result := Reverse(result);
    }
    return result, fps, readFrames;
  }

  /** The `reverse` flag yields exactly the reverse of the non-reversed
      extraction, and reversing that again restores it. */
  lemma ExtractReverse<F>(startString: string, duration: int, v: Video<F>)
    ensures Extract(startString, duration, true, v).fps == Extract(startString, duration, false, v).fps
    ensures Extract(startString, duration, true, v).frames == Reverse(Extract(startString, duration, false, v).frames)
    ensures Reverse(Extract(startString, duration, true, v).frames) == Extract(startString, duration, false, v).frames
  {
    ReverseReverse(Extract(startString, duration, false, v).frames);
  }

  /** On a read plan: every frame returned was grabbed by one of the
      `framesRequired` reads, and all of them are returned exactly when no
      read failed. */
  lemma ExtractedFramesAreGrabbed<F>(startString: string, duration: int, v: Video<F>, f: F)
    requires PlanFor(startString, duration, v.fps, v.frameCount).ReadFrom?
    ensures var n := PlanFor(startString, duration, v.fps, v.frameCount).count;
      && (f in Extract(startString, duration, false, v).frames <==>
           exists i :: 0 <= i < n && ReadAt(v, i) == Grabbed(f))
      && (|Extract(startString, duration, false, v).frames| == n <==>
           forall i :: 0 <= i < n ==> ReadAt(v, i).Grabbed?)
  {
    var n := PlanFor(startString, duration, v.fps, v.frameCount).count;
    var rs := ReadsMade(v, n);
    KeptMembers(rs, f);
    KeptLength(rs);
    if Grabbed(f) in rs {
      var i :| 0 <= i < |rs| && rs[i] == Grabbed(f);
      assert ReadAt(v, i) == Grabbed(f);
    }
    if exists i :: 0 <= i < n && ReadAt(v, i) == Grabbed(f) {
      var i :| 0 <= i < n && ReadAt(v, i) == Grabbed(f);
      assert rs[i] == Grabbed(f);
    }
    if forall i :: 0 <= i < n ==> ReadAt(v, i).Grabbed? {
      assert forall i :: 0 <= i < |rs| ==> rs[i].Grabbed?;
    }
    if forall i :: 0 <= i < |rs| ==> rs[i].Grabbed? {
      forall i | 0 <= i < n ensures ReadAt(v, i).Grabbed? {
        assert rs[i] == ReadAt(v, i);
      }
    }
  }

  /** A start of `"10:00"` on a five-minute video at 30 fps (9000 frames)
      lies after the end: nothing is read. */
  lemma StartAfterEndExample<F>(outcomes: seq<ReadOutcome<F>>)
    ensures PlanFor("10:00", 2, 30.0, 9000) == Abort(StartAfterEnd)
    ensures Extract("10:00", 2, false, Video(30.0, 9000, outcomes)).frames == []
  {
    TenMinutesAtThirtyFps();
  }
}
