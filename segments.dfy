/** Extraction of speeding segments: the optional open start and the list of
    closed (start, end) frame intervals kept by the frame loop. */
module Segments {
  import opened Shapes

  /** An inclusive interval of frame numbers. */
  datatype Segment = Segment(start: int, end: int)

  /** What the frame loop feeds the extractor for one frame: either no kept
      detection at all, or some kept detections, with whether any continued
      one was over the limit. */
  datatype FrameSignal = NoDetections | Detected(speeding: bool)

  /** The extractor's state: the open segment's start, if any, and the
      segments closed so far. */
  datatype Extractor = Extractor(open: Option<int>, closed: seq<Segment>)

  const Idle := Extractor(None, [])

  /** One frame of the machine. A speeding frame opens a segment when none is
      open; a frame without detections closes the open one at the previous
      frame; a frame with detections never closes one. */
  function Step(m: Extractor, frameNum: int, s: FrameSignal): Extractor
  {
    match s
    case NoDetections =>
      if m.open.Some? then Extractor(None, m.closed + [Segment(m.open.value, frameNum - 1)]) else m
    case Detected(speeding) =>
      if speeding && m.open.None? then Extractor(Some(frameNum), m.closed) else m
  }

  /** The state after frames 0 .. n-1. */
  function Run(signals: seq<FrameSignal>, n: nat): Extractor
    requires n <= |signals|
  {
    if n == 0 then Idle else Step(Run(signals, n - 1), n - 1, signals[n - 1])
  }

  /** After the loop: a segment still open ends at frameCount - 1. */
  function Flush(m: Extractor, frameCount: int): seq<Segment>
  {
    if m.open.Some? then m.closed + [Segment(m.open.value, frameCount - 1)] else m.closed
  }

  /** The segments returned for the frames processed, out of frameCount
      announced (the loop may stop early). */
  function Extract(signals: seq<FrameSignal>, frameCount: int): seq<Segment>
  {
    Flush(Run(signals, |signals|), frameCount)
  }

  /** Each segment is non-empty, and each ends before the next begins, so
      starts strictly increase and no two overlap. */
  ghost predicate Ordered(segs: seq<Segment>)
  {
    (forall k :: 0 <= k < |segs| ==> segs[k].start <= segs[k].end) &&
    (forall k, l :: 0 <= k < l < |segs| ==> segs[k].end < segs[l].start)
  }

  /** The shape of the state after n frames: the closed segments are ordered
      and lie before frame n, closed by a later frame; the open one started
      before frame n and after every closed one. */
  ghost predicate Shaped(n: nat, m: Extractor)
  {
    Ordered(m.closed) &&
    (forall k :: 0 <= k < |m.closed| ==> 0 <= m.closed[k].start && m.closed[k].end + 1 < n) &&
    (m.open.Some? ==>
       0 <= m.open.value < n && forall k :: 0 <= k < |m.closed| ==> m.closed[k].end < m.open.value)
  }

  /** Every closed segment starts on a speeding frame and was closed by the
      frame without detections right after it; the open one started on a
      speeding frame. */
  ghost predicate Witnessed(signals: seq<FrameSignal>, n: nat, m: Extractor)
    requires n <= |signals|
  {
    (forall k :: 0 <= k < |m.closed| ==>
       0 <= m.closed[k].start < n && 0 <= m.closed[k].end + 1 < n &&
       signals[m.closed[k].start] == Detected(true) && signals[m.closed[k].end + 1] == NoDetections) &&
    (m.open.Some? ==> 0 <= m.open.value < n && signals[m.open.value] == Detected(true))
  }

  /** Every speeding frame before n lies in a closed segment or at or after
      the open segment's start. */
  ghost predicate Covered(signals: seq<FrameSignal>, n: nat, m: Extractor)
    requires n <= |signals|
  {
    forall f :: 0 <= f < n && signals[f] == Detected(true) ==>
      (m.open.Some? && m.open.value <= f) ||
      exists k :: 0 <= k < |m.closed| && m.closed[k].start <= f <= m.closed[k].end
  }

  ghost predicate Reachable(signals: seq<FrameSignal>, n: nat, m: Extractor)
    requires n <= |signals|
  {
    Shaped(n, m) && Witnessed(signals, n, m) && Covered(signals, n, m)
  }

  lemma StepShaped(n: nat, m: Extractor, s: FrameSignal)
    requires Shaped(n, m)
    ensures Shaped(n + 1, Step(m, n, s))
  {
    var m' := Step(m, n, s);
    if s == NoDetections && m.open.Some? {
      var seg := Segment(m.open.value, n - 1);
      assert m'.closed == m.closed + [seg];
      forall k, l | 0 <= k < l < |m'.closed| ensures m'.closed[k].end < m'.closed[l].start {
        if l == |m.closed| {
          assert m'.closed[k] == m.closed[k];
        }
      }
    }
  }

  lemma StepWitnessed(signals: seq<FrameSignal>, n: nat, m: Extractor)
    requires n < |signals| && Shaped(n, m) && Witnessed(signals, n, m)
    ensures Witnessed(signals, n + 1, Step(m, n, signals[n]))
  {
    StepShaped(n, m, signals[n]);
    var m' := Step(m, n, signals[n]);
    if signals[n] == NoDetections && m.open.Some? {
      assert m'.closed == m.closed + [Segment(m.open.value, n - 1)];
    }
  }

  lemma StepCovered(signals: seq<FrameSignal>, n: nat, m: Extractor)
    requires n < |signals| && Shaped(n, m) && Covered(signals, n, m)
    ensures Covered(signals, n + 1, Step(m, n, signals[n]))
  {
    var m' := Step(m, n, signals[n]);
    forall g | 0 <= g < n + 1 && signals[g] == Detected(true)
      ensures (m'.open.Some? && m'.open.value <= g) ||
        exists k :: 0 <= k < |m'.closed| && m'.closed[k].start <= g <= m'.closed[k].end
    {
      if signals[n] == NoDetections && m.open.Some? {
        var seg := Segment(m.open.value, n - 1);
        assert m'.closed == m.closed + [seg];
        if m.open.value <= g {
          assert m'.closed[|m.closed|] == seg;
        } else {
          var k :| 0 <= k < |m.closed| && m.closed[k].start <= g <= m.closed[k].end;
          assert m'.closed[k] == m.closed[k];
        }
      } else if g < n {
        assert m'.closed == m.closed;
        assert m.open.Some? ==> m'.open == m.open;
      }
    }
  }

  lemma {:induction false} RunShaped(signals: seq<FrameSignal>, n: nat)
    requires n <= |signals|
    ensures Shaped(n, Run(signals, n))
  {
    if n > 0 {
      RunShaped(signals, n - 1);
      StepShaped(n - 1, Run(signals, n - 1), signals[n - 1]);
    }
  }

  lemma {:induction false} RunWitnessed(signals: seq<FrameSignal>, n: nat)
    requires n <= |signals|
    ensures Witnessed(signals, n, Run(signals, n))
  {
    if n > 0 {
      RunShaped(signals, n - 1);
      RunWitnessed(signals, n - 1);
      StepWitnessed(signals, n - 1, Run(signals, n - 1));
    }
  }

  lemma {:induction false} RunCovered(signals: seq<FrameSignal>, n: nat)
    requires n <= |signals|
    ensures Covered(signals, n, Run(signals, n))
  {
    if n > 0 {
      RunShaped(signals, n - 1);
      RunCovered(signals, n - 1);
      StepCovered(signals, n - 1, Run(signals, n - 1));
    }
  }

  lemma RunReachable(signals: seq<FrameSignal>, n: nat)
    requires n <= |signals|
    ensures Reachable(signals, n, Run(signals, n))
  {
    RunShaped(signals, n);
    RunWitnessed(signals, n);
    RunCovered(signals, n);
  }

  /** No frame without detections before n lies inside a closed segment,
      or at or after the open segment's start. */
  ghost predicate Unbroken(signals: seq<FrameSignal>, n: nat, m: Extractor)
    requires n <= |signals|
  {
    (forall k, f :: 0 <= k < |m.closed| && m.closed[k].start <= f <= m.closed[k].end && 0 <= f < n ==>
       signals[f] != NoDetections) &&
    (m.open.Some? ==> forall f :: m.open.value <= f < n && 0 <= f ==> signals[f] != NoDetections)
  }

  lemma StepUnbroken(signals: seq<FrameSignal>, n: nat, m: Extractor)
    requires n < |signals| && Shaped(n, m) && Unbroken(signals, n, m)
    ensures Unbroken(signals, n + 1, Step(m, n, signals[n]))
  {
    var m' := Step(m, n, signals[n]);
    if signals[n] == NoDetections && m.open.Some? {
      var seg := Segment(m.open.value, n - 1);
      assert m'.closed == m.closed + [seg];
      forall k, f | 0 <= k < |m'.closed| && m'.closed[k].start <= f <= m'.closed[k].end && 0 <= f < n + 1
        ensures signals[f] != NoDetections
      {
        if k < |m.closed| {
          assert m'.closed[k] == m.closed[k];
        }
      }
    }
  }

  lemma {:induction false} RunUnbroken(signals: seq<FrameSignal>, n: nat)
    requires n <= |signals|
    ensures Unbroken(signals, n, Run(signals, n))
  {
    if n > 0 {
      RunShaped(signals, n - 1);
      RunUnbroken(signals, n - 1);
      StepUnbroken(signals, n - 1, Run(signals, n - 1));
    }
  }

  /** Every speeding frame processed lies in one of segs. */
  ghost predicate CoversSpeeding(signals: seq<FrameSignal>, segs: seq<Segment>)
  {
    forall f :: 0 <= f < |signals| && signals[f] == Detected(true) ==>
      exists k :: 0 <= k < |segs| && segs[k].start <= f <= segs[k].end
  }

  /** Every segment starts on a speeding frame processed and ends before frameCount. */
  ghost predicate StartsSpeeding(signals: seq<FrameSignal>, frameCount: int, segs: seq<Segment>)
  {
    forall k :: 0 <= k < |segs| ==>
      0 <= segs[k].start < |signals| && segs[k].end < frameCount &&
      signals[segs[k].start] == Detected(true)
  }

  lemma FlushOrdered(m: Extractor, n: nat, frameCount: int)
    requires n <= frameCount && Shaped(n, m)
    ensures Ordered(Flush(m, frameCount))
    ensures forall k :: 0 <= k < |Flush(m, frameCount)| ==> Flush(m, frameCount)[k].end < frameCount
  {
    var segs := Flush(m, frameCount);
    if m.open.Some? {
      assert segs == m.closed + [Segment(m.open.value, frameCount - 1)];
      forall k, l | 0 <= k < l < |segs| ensures segs[k].end < segs[l].start {
        if l == |m.closed| {
          assert segs[k] == m.closed[k];
        }
      }
    }
  }

  lemma FlushStarts(signals: seq<FrameSignal>, m: Extractor, frameCount: int)
    requires |signals| <= frameCount && Shaped(|signals|, m) && Witnessed(signals, |signals|, m)
    ensures StartsSpeeding(signals, frameCount, Flush(m, frameCount))
  {
    if m.open.Some? {
      assert Flush(m, frameCount) == m.closed + [Segment(m.open.value, frameCount - 1)];
    }
  }

  lemma FlushCovers(signals: seq<FrameSignal>, m: Extractor, frameCount: int)
    requires |signals| <= frameCount && Covered(signals, |signals|, m)
    ensures CoversSpeeding(signals, Flush(m, frameCount))
  {
    var segs := Flush(m, frameCount);
    if m.open.Some? {
      var last := Segment(m.open.value, frameCount - 1);
      assert segs == m.closed + [last];
      forall f | 0 <= f < |signals| && signals[f] == Detected(true)
        ensures exists k :: 0 <= k < |segs| && segs[k].start <= f <= segs[k].end
      {
        if m.open.value <= f {
          assert segs[|m.closed|] == last;
        } else {
          var k :| 0 <= k < |m.closed| && m.closed[k].start <= f <= m.closed[k].end;
          assert segs[k] == m.closed[k];
        }
      }
    }
  }

  /** The returned segments are ordered and non-overlapping, lie within the
      announced frames, start on speeding frames, and cover every speeding
      frame processed. */
  lemma ExtractProperties(signals: seq<FrameSignal>, frameCount: int)
    requires |signals| <= frameCount
    ensures Ordered(Extract(signals, frameCount))
    ensures StartsSpeeding(signals, frameCount, Extract(signals, frameCount))
    ensures CoversSpeeding(signals, Extract(signals, frameCount))
  {
    var m := Run(signals, |signals|);
    RunReachable(signals, |signals|);
    FlushOrdered(m, |signals|, frameCount);
    FlushStarts(signals, m, frameCount);
    FlushCovers(signals, m, frameCount);
  }

  /** A speeding frame processed lies in one of the returned segments. */
  lemma SpeedingFrameCovered(signals: seq<FrameSignal>, frameCount: int, f: nat)
    requires |signals| <= frameCount && f < |signals| && signals[f] == Detected(true)
    ensures exists k :: (0 <= k < |Extract(signals, frameCount)| &&
                         Extract(signals, frameCount)[k].start <= f <= Extract(signals, frameCount)[k].end)
  {
    ExtractProperties(signals, frameCount);
  }

  lemma FlushClosedBeforeEmptyFrame(signals: seq<FrameSignal>, m: Extractor, frameCount: int, k: nat)
    requires |signals| <= frameCount && Shaped(|signals|, m) && Witnessed(signals, |signals|, m)
    requires k < |Flush(m, frameCount)| && Flush(m, frameCount)[k].end < |signals| - 1
    ensures 0 <= Flush(m, frameCount)[k].end + 1
    ensures signals[Flush(m, frameCount)[k].end + 1] == NoDetections
  {
    if k == |m.closed| {
      assert false;
    }
    assert Flush(m, frameCount)[k] == m.closed[k];
  }

  /** Every segment but a final flushed one ends right before a frame without
      detections: a frame with detections never closes a segment. */
  lemma ClosedBeforeEmptyFrame(signals: seq<FrameSignal>, frameCount: int, k: nat)
    requires |signals| <= frameCount
    requires k < |Extract(signals, frameCount)| && Extract(signals, frameCount)[k].end < |signals| - 1
    ensures 0 <= Extract(signals, frameCount)[k].end + 1
    ensures signals[Extract(signals, frameCount)[k].end + 1] == NoDetections
  {
    RunShaped(signals, |signals|);
    RunWitnessed(signals, |signals|);
    FlushClosedBeforeEmptyFrame(signals, Run(signals, |signals|), frameCount, k);
  }

  lemma SegmentBounds(signals: seq<FrameSignal>, frameCount: int, k: nat)
    requires |signals| <= frameCount && k < |Extract(signals, frameCount)|
    ensures 0 <= Extract(signals, frameCount)[k].start <= Extract(signals, frameCount)[k].end < frameCount
  {
    ExtractProperties(signals, frameCount);
  }

  /** No frame processed inside a returned segment is without detections:
      together with ClosedBeforeEmptyFrame, a segment ends right before the
      first frame without detections after its start. */
  lemma SegmentHasNoEmptyFrame(signals: seq<FrameSignal>, frameCount: int, k: nat, f: nat)
    requires |signals| <= frameCount && k < |Extract(signals, frameCount)|
    requires Extract(signals, frameCount)[k].start <= f <= Extract(signals, frameCount)[k].end && f < |signals|
    ensures signals[f] != NoDetections
  {
    var m := Run(signals, |signals|);
    RunUnbroken(signals, |signals|);
    if k < |m.closed| {
      assert Extract(signals, frameCount)[k] == m.closed[k];
    } else {
      assert Extract(signals, frameCount)[k] == Segment(m.open.value, frameCount - 1);
    }
  }

  /** A segment reaching the last frame processed is the last segment, the
      one still open after the loop, and ends at frameCount - 1. */
  lemma OnlyFlushedReachesEnd(signals: seq<FrameSignal>, frameCount: int, k: nat)
    requires |signals| <= frameCount && k < |Extract(signals, frameCount)|
    requires Extract(signals, frameCount)[k].end >= |signals| - 1
    ensures k == |Extract(signals, frameCount)| - 1
    ensures Extract(signals, frameCount)[k].end == frameCount - 1
  {
    var m := Run(signals, |signals|);
    RunShaped(signals, |signals|);
    if k < |m.closed| {
      assert false;
    }
  }

  /** A segment ends at the frame before the first frame without detections
      after its start, or at frameCount - 1 when no such frame was processed. */
  lemma SegmentEnd(signals: seq<FrameSignal>, frameCount: int, k: nat)
    requires |signals| <= frameCount && k < |Extract(signals, frameCount)|
    ensures var seg := Extract(signals, frameCount)[k];
      0 <= seg.start <= seg.end &&
      (forall f :: seg.start <= f <= seg.end && f < |signals| ==> signals[f] != NoDetections) &&
      (seg.end < |signals| - 1 ==> signals[seg.end + 1] == NoDetections) &&
      (seg.end >= |signals| - 1 ==> k == |Extract(signals, frameCount)| - 1 && seg.end == frameCount - 1)
  {
    var seg := Extract(signals, frameCount)[k];
    SegmentBounds(signals, frameCount, k);
    forall f | seg.start <= f <= seg.end && f < |signals|
      ensures signals[f] != NoDetections
    {
      SegmentHasNoEmptyFrame(signals, frameCount, k, f);
    }
    if seg.end < |signals| - 1 {
      ClosedBeforeEmptyFrame(signals, frameCount, k);
    } else {
      OnlyFlushedReachesEnd(signals, frameCount, k);
    }
  }

  /** Only a frame without detections can close a segment; opening within a
      frame is idempotent, as the loop may ask once per speeding detection. */
  lemma StepFacts(m: Extractor, frameNum: int, speeding: bool)
    ensures Step(m, frameNum, Detected(speeding)).closed == m.closed
    ensures Step(Step(m, frameNum, Detected(true)), frameNum, Detected(true)) == Step(m, frameNum, Detected(true))
    ensures Step(m, frameNum, Detected(false)) == m
  {
  }

  /** Frames 2-4 and 6 speeding, 0, 1, 5 and 7 without detections. */
  lemma ExampleTwoSegments()
    ensures Extract([NoDetections, NoDetections, Detected(true), Detected(true), Detected(true),
                     NoDetections, Detected(true), NoDetections], 8) == [Segment(2, 4), Segment(6, 6)]
  {
  }

  /** A segment still open after the last frame ends at frameCount - 1. */
  lemma ExampleFlushedAtEnd()
    ensures Extract([NoDetections, Detected(true), Detected(true)], 3) == [Segment(1, 2)]
  {
  }

  /** A frame with detections none of which is speeding does not close the
      segment: it runs on until the frame without detections. */
  lemma ExampleNotSpeedingDoesNotClose()
    ensures Extract([Detected(true), Detected(false), Detected(false), NoDetections, Detected(false)], 5) == [Segment(0, 2)]
  {
  }

  /** A frame without detections closes the segment at once; a later frame
      with detections does not extend it. */
  lemma ExampleClosedAtFirstEmpty()
    ensures Extract([Detected(true), NoDetections, Detected(false)], 3) == [Segment(0, 0)]
  {
  }

  /** When the loop stops early, the open segment still ends at frameCount - 1. */
  lemma ExampleEarlyStop()
    ensures Extract([Detected(false), Detected(true)], 10) == [Segment(1, 9)]
  {
    var signals := [Detected(false), Detected(true)];
    assert Run(signals, 1) == Idle;
    assert Run(signals, 2) == Extractor(Some(1), []);
  }

  /** The two variables of the frame loop that hold the extractor. */
  class SegmentTracker {
    var segmentStart: Option<int>
    var segments: seq<Segment>

    function State(): Extractor
      reads this
    {
      Extractor(segmentStart, segments)
    }

    constructor ()
      ensures State() == Idle
    {
      segmentStart := None;
      segments := [];
    }

    /** A speeding detection on frame frameNum: record the start if none is open. */
    method OnSpeeding(frameNum: int)
      modifies this
      ensures State() == Step(old(State()), frameNum, Detected(true))
    {
      if segmentStart.None? {
        segmentStart := Some(frameNum);
      }
    }

    /** A frame without kept detections: close the open segment at the previous frame. */
    method OnEmptyFrame(frameNum: int)
      modifies this
      ensures State() == Step(old(State()), frameNum, NoDetections)
    {
      if segmentStart.Some? {
        segments := segments + [Segment(segmentStart.value, frameNum - 1)];
        segmentStart := None;
      }
    }

    /** After the loop: a segment still open ends at frameCount - 1. */
    method Finish(frameCount: int)
      modifies this
      ensures segments == Flush(old(State()), frameCount)
      ensures segmentStart == old(segmentStart)
    {
      if segmentStart.Some? {
        segments := segments + [Segment(segmentStart.value, frameCount - 1)];
      }
    }
  }
}
