/** The per-frame analytics of detect_speeding: the position table handed
    from frame to frame, the speed table, the segment extractor, the heatmap
    plane and the last categorisation. Each frame arrives as the record the
    detector adapter produces for it. */
module SpeedDetection {
  import opened Shapes
  import Detection
  import Categorize
  import HeatmapPlane
  import Segments

  /** The run's parameters: distance stands for calculate_distance, which is
      not part of this model; frameRate is the source's declared rate. */
  datatype Params = Params(distance: (Point, Point) -> real, speedLimit: real, frameRate: real)

  /** What the loop demands: a usable frame rate and well-formed records. */
  predicate ValidRun(frames: seq<FrameDetections>, p: Params)
  {
    p.frameRate != 0.0 && forall k :: 0 <= k < |frames| ==> WellFormed(frames[k])
  }

  /** frame_time = 1 / frame_rate. */
  function FrameTime(p: Params): (t: real)
    requires p.frameRate != 0.0
    ensures t * p.frameRate == 1.0 && t != 0.0
  {
    1.0 / p.frameRate
  }

  /** current_positions of frame k. */
  function Positions(frames: seq<FrameDetections>, k: nat): map<nat, Point>
    requires k < |frames| && WellFormed(frames[k])
  {
    Detection.PositionTable(frames[k].boxes, frames[k].indexes)
  }

  /** prev_positions while frame k is processed: frame k-1's table, and the
      empty table before the first frame. */
  function Prev(frames: seq<FrameDetections>, k: nat): map<nat, Point>
    requires k <= |frames| && forall k' :: 0 <= k' < |frames| ==> WellFormed(frames[k'])
  {
    if k == 0 then map[] else Positions(frames, k - 1)
  }

  /** The m-th kept index of frame k is continued: its raw index value has
      an entry in the previous table. */
  predicate Continued(frames: seq<FrameDetections>, k: nat, m: nat)
    requires k < |frames| && m < |frames[k].indexes| && forall k' :: 0 <= k' < |frames| ==> WellFormed(frames[k'])
  {
    frames[k].indexes[m] in Prev(frames, k)
  }

  /** Raw index i is kept in frame k and has an entry in the previous table. */
  predicate ContinuedIndex(frames: seq<FrameDetections>, k: nat, i: nat)
    requires k < |frames| && forall k' :: 0 <= k' < |frames| ==> WellFormed(frames[k'])
  {
    i in frames[k].indexes && i in Prev(frames, k)
  }

  /** speed = distance / frame_time of raw index i in frame k. */
  function SpeedOfIndex(frames: seq<FrameDetections>, p: Params, k: nat, i: nat): real
    requires k < |frames| && ValidRun(frames, p) && ContinuedIndex(frames, k, i)
  {
    p.distance(Prev(frames, k)[i], Positions(frames, k)[i]) / FrameTime(p)
  }

  /** The speed of the m-th kept index of frame k. */
  function SpeedOf(frames: seq<FrameDetections>, p: Params, k: nat, m: nat): real
    requires k < |frames| && m < |frames[k].indexes| && ValidRun(frames, p)
    requires Continued(frames, k, m)
  {
    SpeedOfIndex(frames, p, k, frames[k].indexes[m])
  }

  /** Some of the first m kept indexes of frame k is continued. */
  predicate ContinuedAmong(frames: seq<FrameDetections>, k: nat, m: nat)
    requires k < |frames| && m <= |frames[k].indexes| && forall k' :: 0 <= k' < |frames| ==> WellFormed(frames[k'])
  {
    exists j :: 0 <= j < m && Continued(frames, k, j)
  }

  /** Some of the first m kept indexes of frame k is continued with a speed
      strictly above the limit. */
  predicate SpeedingAmong(frames: seq<FrameDetections>, p: Params, k: nat, m: nat)
    requires k < |frames| && m <= |frames[k].indexes| && ValidRun(frames, p)
  {
    exists j :: 0 <= j < m && Continued(frames, k, j) && SpeedOf(frames, p, k, j) > p.speedLimit
  }

  /** What the segment extractor sees of frame k. */
  function Signal(frames: seq<FrameDetections>, p: Params, k: nat): Segments.FrameSignal
    requires k < |frames| && ValidRun(frames, p)
  {
    if |frames[k].indexes| == 0 then Segments.NoDetections
    else Segments.Detected(SpeedingAmong(frames, p, k, |frames[k].indexes|))
  }

  function Signals(frames: seq<FrameDetections>, p: Params): seq<Segments.FrameSignal>
    requires ValidRun(frames, p)
  {
    seq(|frames|, k requires 0 <= k < |frames| => Signal(frames, p, k))
  }

  /** The speed table after the first m kept indexes of frame k, from base. */
  function UpdateSpeeds(base: map<nat, real>, frames: seq<FrameDetections>, p: Params, k: nat, m: nat): map<nat, real>
    requires k < |frames| && m <= |frames[k].indexes| && ValidRun(frames, p)
  {
    if m == 0 then base
    else
      var s := UpdateSpeeds(base, frames, p, k, m - 1);
      if Continued(frames, k, m - 1) then s[frames[k].indexes[m - 1] := SpeedOf(frames, p, k, m - 1)] else s
  }

  /** The speed table after frames 0 .. n-1. */
  function SpeedsAfter(frames: seq<FrameDetections>, p: Params, n: nat): map<nat, real>
    requires n <= |frames| && ValidRun(frames, p)
  {
    if n == 0 then map[]
    else UpdateSpeeds(SpeedsAfter(frames, p, n - 1), frames, p, n - 1, |frames[n - 1].indexes|)
  }

  /** categorize_movements of frame k. */
  function CategorizedAt(frames: seq<FrameDetections>, k: nat): Categorize.Movements
    requires k < |frames| && WellFormed(frames[k])
  {
    Categorize.Categorized(frames[k].labels, frames[k].boxes, frames[k].indexes)
  }

  /** categorized_movements after frames 0 .. n-1: recomputed on every frame
      with a continued detection, otherwise carried over. */
  function LastCategorized(frames: seq<FrameDetections>, n: nat): Categorize.Movements
    requires n <= |frames| && forall k' :: 0 <= k' < |frames| ==> WellFormed(frames[k'])
  {
    if n == 0 then Categorize.NoMovements
    else if ContinuedAmong(frames, n - 1, |frames[n - 1].indexes|) then CategorizedAt(frames, n - 1)
    else LastCategorized(frames, n - 1)
  }

  /** How many of the first m kept boxes of frame k cover cell (r, c). */
  function CoverCount(frames: seq<FrameDetections>, k: nat, m: nat, height: nat, width: nat, r: int, c: int): nat
    requires k < |frames| && WellFormed(frames[k]) && m <= |frames[k].indexes|
  {
    if m == 0 then 0
    else
      CoverCount(frames, k, m - 1, height, width, r, c) +
      (if HeatmapPlane.Covers(frames[k].boxes[frames[k].indexes[m - 1]], height, width, r, c) then 1 else 0)
  }

  /** How many kept boxes of frames 0 .. n-1 cover cell (r, c). */
  function Coverage(frames: seq<FrameDetections>, n: nat, height: nat, width: nat, r: int, c: int): nat
    requires n <= |frames| && forall k' :: 0 <= k' < |frames| ==> WellFormed(frames[k'])
  {
    if n == 0 then 0
    else Coverage(frames, n - 1, height, width, r, c) + CoverCount(frames, n - 1, |frames[n - 1].indexes|, height, width, r, c)
  }

  /** The plane g after the first m kept boxes of frame k are added. */
  function AddKeptBoxes(g: seq<seq<int>>, frames: seq<FrameDetections>, k: nat, m: nat, height: nat, width: nat): seq<seq<int>>
    requires k < |frames| && WellFormed(frames[k]) && m <= |frames[k].indexes|
  {
    if m == 0 then g
    else HeatmapPlane.AddedBox(AddKeptBoxes(g, frames, k, m - 1, height, width),
                               frames[k].boxes[frames[k].indexes[m - 1]], height, width)
  }

  /** The heatmap plane after frames 0 .. n-1, from the zero plane. */
  function PlaneAfter(frames: seq<FrameDetections>, n: nat, height: nat, width: nat): seq<seq<int>>
    requires n <= |frames| && forall k' :: 0 <= k' < |frames| ==> WellFormed(frames[k'])
  {
    if n == 0 then HeatmapPlane.Zeros(height, width)
    else AddKeptBoxes(PlaneAfter(frames, n - 1, height, width), frames, n - 1, |frames[n - 1].indexes|, height, width)
  }

  lemma WrapIncrement(a: nat)
    ensures (a % HeatmapPlane.CellModulus + 1) % HeatmapPlane.CellModulus == (a + 1) % HeatmapPlane.CellModulus
  {
  }

  lemma {:induction false} AddKeptBoxesCount(g: seq<seq<int>>, base: seq<seq<nat>>, frames: seq<FrameDetections>,
                                             k: nat, m: nat, height: nat, width: nat)
    requires k < |frames| && WellFormed(frames[k]) && m <= |frames[k].indexes|
    requires HeatmapPlane.IsPlane(g, height, width)
    requires |base| == height && forall r :: 0 <= r < height ==> |base[r]| == width
    requires forall r, c :: 0 <= r < height && 0 <= c < width ==> g[r][c] == base[r][c] % HeatmapPlane.CellModulus
    ensures HeatmapPlane.IsPlane(AddKeptBoxes(g, frames, k, m, height, width), height, width)
    ensures forall r, c :: 0 <= r < height && 0 <= c < width ==>
      AddKeptBoxes(g, frames, k, m, height, width)[r][c] ==
        (base[r][c] + CoverCount(frames, k, m, height, width, r, c)) % HeatmapPlane.CellModulus
  {
    if m > 0 {
      AddKeptBoxesCount(g, base, frames, k, m - 1, height, width);
      var prev := AddKeptBoxes(g, frames, k, m - 1, height, width);
      var b := frames[k].boxes[frames[k].indexes[m - 1]];
      HeatmapPlane.AddedBoxCells(prev, b, height, width);
      forall r, c | 0 <= r < height && 0 <= c < width
        ensures AddKeptBoxes(g, frames, k, m, height, width)[r][c] ==
          (base[r][c] + CoverCount(frames, k, m, height, width, r, c)) % HeatmapPlane.CellModulus
      {
        if HeatmapPlane.Covers(b, height, width, r, c) {
          WrapIncrement(base[r][c] + CoverCount(frames, k, m - 1, height, width, r, c));
        }
      }
    }
  }

  /** The coverage counts of frames 0 .. n-1, as a grid. */
  function CoverageGrid(frames: seq<FrameDetections>, n: nat, height: nat, width: nat): seq<seq<nat>>
    requires n <= |frames| && forall k' :: 0 <= k' < |frames| ==> WellFormed(frames[k'])
  {
    seq(height, r => seq(width, c => Coverage(frames, n, height, width, r, c)))
  }

  /** Every cell of the plane holds, modulo 256, the number of kept boxes
      of frames 0 .. n-1 whose slice covers it. */
  lemma {:induction false} PlaneCountsCoverage(frames: seq<FrameDetections>, n: nat, height: nat, width: nat)
    requires n <= |frames| && forall k' :: 0 <= k' < |frames| ==> WellFormed(frames[k'])
    ensures HeatmapPlane.IsPlane(PlaneAfter(frames, n, height, width), height, width)
    ensures forall r, c :: 0 <= r < height && 0 <= c < width ==>
      PlaneAfter(frames, n, height, width)[r][c] == Coverage(frames, n, height, width, r, c) % HeatmapPlane.CellModulus
  {
    if n > 0 {
      PlaneCountsCoverage(frames, n - 1, height, width);
      AddKeptBoxesCount(PlaneAfter(frames, n - 1, height, width), CoverageGrid(frames, n - 1, height, width),
                        frames, n - 1, |frames[n - 1].indexes|, height, width);
    }
  }

  lemma SpeedingStep(frames: seq<FrameDetections>, p: Params, k: nat, m: nat)
    requires k < |frames| && m < |frames[k].indexes| && ValidRun(frames, p)
    ensures SpeedingAmong(frames, p, k, m + 1) <==>
      SpeedingAmong(frames, p, k, m) || (Continued(frames, k, m) && SpeedOf(frames, p, k, m) > p.speedLimit)
    ensures ContinuedAmong(frames, k, m + 1) <==> ContinuedAmong(frames, k, m) || Continued(frames, k, m)
  {
  }

  /** How each table of the run advances by one frame. */
  lemma NextFrame(frames: seq<FrameDetections>, p: Params, n: nat, height: nat, width: nat)
    requires ValidRun(frames, p) && n < |frames|
    ensures Prev(frames, n + 1) == Positions(frames, n)
    ensures Segments.Run(Signals(frames, p), n + 1) ==
      Segments.Step(Segments.Run(Signals(frames, p), n), n, Signal(frames, p, n))
    ensures SpeedsAfter(frames, p, n + 1) == UpdateSpeeds(SpeedsAfter(frames, p, n), frames, p, n, |frames[n].indexes|)
    ensures LastCategorized(frames, n + 1) ==
      if ContinuedAmong(frames, n, |frames[n].indexes|) then CategorizedAt(frames, n) else LastCategorized(frames, n)
    ensures PlaneAfter(frames, n + 1, height, width) ==
      AddKeptBoxes(PlaneAfter(frames, n, height, width), frames, n, |frames[n].indexes|, height, width)
    ensures |frames[n].indexes| == 0 ==>
      Signal(frames, p, n) == Segments.NoDetections &&
      SpeedsAfter(frames, p, n + 1) == SpeedsAfter(frames, p, n) &&
      LastCategorized(frames, n + 1) == LastCategorized(frames, n) &&
      PlaneAfter(frames, n + 1, height, width) == PlaneAfter(frames, n, height, width)
  {
  }

  /** The previous table in frame k+1 is frame k's table: its keys are
      exactly frame k's kept indexes, so it is empty after a frame without
      detections, and a continued index was kept in the frame just before. */
  lemma PreviousIsLastTable(frames: seq<FrameDetections>, k: nat, i: nat)
    requires k < |frames| && forall k' :: 0 <= k' < |frames| ==> WellFormed(frames[k'])
    ensures k + 1 <= |frames| ==> (i in Prev(frames, k + 1) <==> i in frames[k].indexes)
    ensures frames[k].indexes == [] ==> Prev(frames, k + 1) == map[]
    ensures ContinuedIndex(frames, k, i) ==> k > 0 && i in frames[k - 1].indexes
  {
  }

  /** After the first m kept indexes of frame k, the table holds base's
      entries and one entry per continued index among them, at its speed. */
  lemma {:induction false} UpdateSpeedsExactly(base: map<nat, real>, frames: seq<FrameDetections>, p: Params,
                                               k: nat, m: nat, i: nat)
    requires k < |frames| && m <= |frames[k].indexes| && ValidRun(frames, p)
    ensures var s := UpdateSpeeds(base, frames, p, k, m);
      var hit := exists j :: 0 <= j < m && frames[k].indexes[j] == i && Continued(frames, k, j);
      (i in s <==> i in base || hit) &&
      (hit ==> ContinuedIndex(frames, k, i) && s[i] == SpeedOfIndex(frames, p, k, i)) &&
      (!hit && i in base ==> s[i] == base[i])
  {
    if m > 0 {
      UpdateSpeedsExactly(base, frames, p, k, m - 1, i);
    }
  }

  /** One frame's update: continued indexes get their speed, every other
      entry is untouched. */
  lemma FrameSpeeds(base: map<nat, real>, frames: seq<FrameDetections>, p: Params, k: nat, i: nat)
    requires k < |frames| && ValidRun(frames, p)
    ensures var s := UpdateSpeeds(base, frames, p, k, |frames[k].indexes|);
      (i in s <==> i in base || ContinuedIndex(frames, k, i)) &&
      (ContinuedIndex(frames, k, i) ==> s[i] == SpeedOfIndex(frames, p, k, i)) &&
      (!ContinuedIndex(frames, k, i) && i in base ==> s[i] == base[i])
  {
    UpdateSpeedsExactly(base, frames, p, k, |frames[k].indexes|, i);
    if ContinuedIndex(frames, k, i) {
      var j :| 0 <= j < |frames[k].indexes| && frames[k].indexes[j] == i;
      assert Continued(frames, k, j);
    }
  }

  /** speeds holds an entry for i exactly when i was continued in some frame. */
  lemma {:induction false} SpeedsKeys(frames: seq<FrameDetections>, p: Params, n: nat, i: nat)
    requires n <= |frames| && ValidRun(frames, p)
    ensures i in SpeedsAfter(frames, p, n) <==> exists k :: 0 <= k < n && ContinuedIndex(frames, k, i)
  {
    if n > 0 {
      SpeedsKeys(frames, p, n - 1, i);
      FrameSpeeds(SpeedsAfter(frames, p, n - 1), frames, p, n - 1, i);
      if i in SpeedsAfter(frames, p, n - 1) {
        var k :| 0 <= k < n - 1 && ContinuedIndex(frames, k, i);
        assert 0 <= k < n && ContinuedIndex(frames, k, i);
      }
      if exists k :: 0 <= k < n && ContinuedIndex(frames, k, i) {
        var k :| 0 <= k < n && ContinuedIndex(frames, k, i);
        if k < n - 1 {
          assert i in SpeedsAfter(frames, p, n - 1);
        }
      }
    }
  }

  /** speeds[i] holds the speed of the last frame in which i was continued. */
  lemma {:induction false} SpeedsHoldLatest(frames: seq<FrameDetections>, p: Params, n: nat, k: nat, i: nat)
    requires n <= |frames| && ValidRun(frames, p)
    requires k < n && ContinuedIndex(frames, k, i)
    requires forall k' :: k < k' < n ==> !ContinuedIndex(frames, k', i)
    ensures i in SpeedsAfter(frames, p, n) && SpeedsAfter(frames, p, n)[i] == SpeedOfIndex(frames, p, k, i)
  {
    FrameSpeeds(SpeedsAfter(frames, p, n - 1), frames, p, n - 1, i);
    if k < n - 1 {
      SpeedsHoldLatest(frames, p, n - 1, k, i);
    }
  }

  /** With no frame holding a continued detection, the returned
      categorisation is the three empty buckets. */
  lemma {:induction false} CategorizedNone(frames: seq<FrameDetections>, n: nat)
    requires n <= |frames| && forall k' :: 0 <= k' < |frames| ==> WellFormed(frames[k'])
    requires forall k :: 0 <= k < n ==> !ContinuedAmong(frames, k, |frames[k].indexes|)
    ensures LastCategorized(frames, n) == Categorize.NoMovements
  {
    if n > 0 {
      CategorizedNone(frames, n - 1);
    }
  }

  /** The returned categorisation is that of the last frame with a
      continued detection. */
  lemma {:induction false} CategorizedIsLast(frames: seq<FrameDetections>, n: nat, k: nat)
    requires n <= |frames| && forall k' :: 0 <= k' < |frames| ==> WellFormed(frames[k'])
    requires k < n && ContinuedAmong(frames, k, |frames[k].indexes|)
    requires forall k' :: k < k' < n ==> !ContinuedAmong(frames, k', |frames[k'].indexes|)
    ensures LastCategorized(frames, n) == CategorizedAt(frames, k)
  {
    if k < n - 1 {
      CategorizedIsLast(frames, n - 1, k);
    }
  }

  /** The segments of a run are non-empty, ordered and disjoint. */
  lemma RunSegmentsOrdered(frames: seq<FrameDetections>, p: Params, frameCount: nat)
    requires ValidRun(frames, p) && |frames| <= frameCount
    ensures Segments.Ordered(Segments.Extract(Signals(frames, p), frameCount))
  {
    Segments.ExtractProperties(Signals(frames, p), frameCount);
  }

  /** Each segment starts on a frame read with a continued detection
      strictly over the limit, and ends before frameCount. */
  lemma SegmentStartsSpeeding(frames: seq<FrameDetections>, p: Params, frameCount: nat, k: nat)
    requires ValidRun(frames, p) && |frames| <= frameCount
    requires k < |Segments.Extract(Signals(frames, p), frameCount)|
    ensures var seg := Segments.Extract(Signals(frames, p), frameCount)[k];
      0 <= seg.start < |frames| && seg.end < frameCount &&
      0 < |frames[seg.start].indexes| && SpeedingAmong(frames, p, seg.start, |frames[seg.start].indexes|)
  {
    var signals := Signals(frames, p);
    Segments.ExtractProperties(signals, frameCount);
    var seg := Segments.Extract(signals, frameCount)[k];
    assert signals[seg.start] == Segments.Detected(true);
  }

  /** Every frame with a continued detection strictly over the limit lies
      in a segment. */
  lemma SpeedingFrameInSegment(frames: seq<FrameDetections>, p: Params, frameCount: nat, f: nat)
    requires ValidRun(frames, p) && |frames| <= frameCount
    requires f < |frames| && 0 < |frames[f].indexes| && SpeedingAmong(frames, p, f, |frames[f].indexes|)
    ensures var segs := Segments.Extract(Signals(frames, p), frameCount);
      exists k :: 0 <= k < |segs| && segs[k].start <= f <= segs[k].end
  {
    Segments.SpeedingFrameCovered(Signals(frames, p), frameCount, f);
  }

  /** A segment ending before the last frame read is followed by a frame
      without kept detections: only such a frame closes a segment. */
  lemma SegmentClosedByEmptyFrame(frames: seq<FrameDetections>, p: Params, frameCount: nat, k: nat)
    requires ValidRun(frames, p) && |frames| <= frameCount
    requires k < |Segments.Extract(Signals(frames, p), frameCount)|
    requires Segments.Extract(Signals(frames, p), frameCount)[k].end < |frames| - 1
    ensures var seg := Segments.Extract(Signals(frames, p), frameCount)[k];
      0 <= seg.end + 1 && frames[seg.end + 1].indexes == []
  {
    var signals := Signals(frames, p);
    Segments.ClosedBeforeEmptyFrame(signals, frameCount, k);
    var seg := Segments.Extract(signals, frameCount)[k];
    assert signals[seg.end + 1] == Segments.NoDetections;
  }

  /** A segment ends at the frame before the first frame after its start
      without kept detections: every frame read inside it has kept
      detections, and the frame after it has none, unless the segment reaches
      the last frame read, in which case it is the last segment and ends at
      frameCount - 1. */
  lemma SegmentEndsAtFirstEmptyFrame(frames: seq<FrameDetections>, p: Params, frameCount: nat, k: nat)
    requires ValidRun(frames, p) && |frames| <= frameCount
    requires k < |Segments.Extract(Signals(frames, p), frameCount)|
    ensures var segs := Segments.Extract(Signals(frames, p), frameCount);
      0 <= segs[k].start <= segs[k].end &&
      (forall f :: segs[k].start <= f <= segs[k].end && f < |frames| ==> frames[f].indexes != []) &&
      (segs[k].end < |frames| - 1 ==> frames[segs[k].end + 1].indexes == []) &&
      (segs[k].end >= |frames| - 1 ==> k == |segs| - 1 && segs[k].end == frameCount - 1)
  {
    var signals := Signals(frames, p);
    var seg := Segments.Extract(signals, frameCount)[k];
    Segments.SegmentEnd(signals, frameCount, k);
    forall f | seg.start <= f <= seg.end && f < |frames|
      ensures frames[f].indexes != []
    {
      assert signals[f] != Segments.NoDetections;
    }
    if seg.end < |frames| - 1 {
      assert signals[seg.end + 1] == Segments.NoDetections;
    }
  }

  /** Speeds equal to the limit never open a segment: with no continued
      speed strictly above it, the run has no segment. */
  lemma AtLimitNoSegment(frames: seq<FrameDetections>, p: Params, frameCount: nat)
    requires ValidRun(frames, p) && |frames| <= frameCount
    requires forall k, j :: 0 <= k < |frames| && 0 <= j < |frames[k].indexes| && Continued(frames, k, j) ==>
      SpeedOf(frames, p, k, j) <= p.speedLimit
    ensures Segments.Extract(Signals(frames, p), frameCount) == []
  {
    if |Segments.Extract(Signals(frames, p), frameCount)| > 0 {
      SegmentStartsSpeeding(frames, p, frameCount, 0);
      assert false;
    }
  }

  /** Accumulating the unit box (0, 0, 1, 1) once per frame over n frames
      leaves n in cell (0, 0) and nothing elsewhere. */
  lemma {:induction false} UnitBoxCoverage(frames: seq<FrameDetections>, n: nat, height: nat, width: nat, r: nat, c: nat)
    requires n <= |frames| && forall k' :: 0 <= k' < |frames| ==> WellFormed(frames[k'])
    requires forall k :: 0 <= k < |frames| ==>
      frames[k].indexes == [0] && 0 < |frames[k].boxes| && frames[k].boxes[0] == Box(0, 0, 1, 1)
    requires r < height && c < width
    ensures Coverage(frames, n, height, width, r, c) == if r == 0 && c == 0 then n else 0
  {
    if n > 0 {
      UnitBoxCoverage(frames, n - 1, height, width, r, c);
      assert CoverCount(frames, n - 1, 1, height, width, r, c) == if r == 0 && c == 0 then 1 else 0;
    }
  }

  /** The plane after n frames of the unit box: cell (0, 0) holds n modulo
      256 and every other cell is zero. */
  lemma UnitBoxPlane(frames: seq<FrameDetections>, n: nat, height: nat, width: nat, r: nat, c: nat)
    requires n <= |frames| && forall k' :: 0 <= k' < |frames| ==> WellFormed(frames[k'])
    requires forall k :: 0 <= k < |frames| ==>
      frames[k].indexes == [0] && 0 < |frames[k].boxes| && frames[k].boxes[0] == Box(0, 0, 1, 1)
    requires r < height && c < width
    ensures var g := PlaneAfter(frames, n, height, width);
      |g| == height && |g[r]| == width && g[r][c] == if r == 0 && c == 0 then n % HeatmapPlane.CellModulus else 0
  {
    PlaneCountsCoverage(frames, n, height, width);
    UnitBoxCoverage(frames, n, height, width, r, c);
  }

  /** The body of the per-index loop for the j-th kept index of frame k: a
      continued index gets its speed stored, opens a segment when over the
      limit and none is open, and recomputes the categorisation; the box is
      added to the plane in any case. */
  method TrackIndex(frames: seq<FrameDetections>, p: Params, k: nat, j: nat,
                    prevPositions: map<nat, Point>, currentPositions: map<nat, Point>, frameTime: real,
                    tracker: Segments.SegmentTracker, heat: HeatmapPlane.Heatmap,
                    speeds0: map<nat, real>, categorized0: Categorize.Movements)
    returns (speeds: map<nat, real>, categorized: Categorize.Movements)
    requires ValidRun(frames, p) && k < |frames| && j < |frames[k].indexes|
    requires prevPositions == Prev(frames, k) && currentPositions == Positions(frames, k)
    requires frameTime == FrameTime(p)
    requires heat.Valid()
    modifies tracker, heat, heat.cells
    ensures speeds == if Continued(frames, k, j) then speeds0[frames[k].indexes[j] := SpeedOf(frames, p, k, j)] else speeds0
    ensures tracker.State() ==
      if Continued(frames, k, j) && SpeedOf(frames, p, k, j) > p.speedLimit
      then Segments.Step(old(tracker.State()), k, Segments.Detected(true)) else old(tracker.State())
    ensures categorized == if Continued(frames, k, j) then CategorizedAt(frames, k) else categorized0
    ensures heat.Valid()
    ensures heat.plane == HeatmapPlane.AddedBox(old(heat.plane), frames[k].boxes[frames[k].indexes[j]],
                                                heat.cells.Length0, heat.cells.Length1)
  {
    var fr := frames[k];
    var i := fr.indexes[j];
    speeds, categorized := speeds0, categorized0;
    if i in prevPositions {
      var distance := p.distance(prevPositions[i], currentPositions[i]);
      var speed := distance / frameTime;
      speeds := speeds[i := speed];
      if speed > p.speedLimit {
        tracker.OnSpeeding(k);
      }
      categorized := Categorize.CategorizeMovements(fr.labels, fr.boxes, fr.indexes);
    }
    heat.AddBox(fr.boxes[i]);
  }

  /** The loop over one frame's kept indexes, for a frame with at least one:
      the speed table, the segment start, the categorisation and the plane
      advance index by index. */
  method TrackDetections(frames: seq<FrameDetections>, p: Params, frameNum: nat,
                         prevPositions: map<nat, Point>, currentPositions: map<nat, Point>, frameTime: real,
                         tracker: Segments.SegmentTracker, heat: HeatmapPlane.Heatmap,
                         speeds0: map<nat, real>, categorized0: Categorize.Movements)
    returns (speeds: map<nat, real>, categorized: Categorize.Movements)
    requires ValidRun(frames, p) && frameNum < |frames| && |frames[frameNum].indexes| > 0
    requires prevPositions == Prev(frames, frameNum) && currentPositions == Positions(frames, frameNum)
    requires frameTime == FrameTime(p)
    requires heat.Valid()
    modifies tracker, heat, heat.cells
    ensures speeds == UpdateSpeeds(speeds0, frames, p, frameNum, |frames[frameNum].indexes|)
    ensures tracker.State() == Segments.Step(old(tracker.State()), frameNum, Signal(frames, p, frameNum))
    ensures categorized ==
      if ContinuedAmong(frames, frameNum, |frames[frameNum].indexes|) then CategorizedAt(frames, frameNum) else categorized0
    ensures heat.Valid()
    ensures heat.plane ==
      AddKeptBoxes(old(heat.plane), frames, frameNum, |frames[frameNum].indexes|, heat.cells.Length0, heat.cells.Length1)
  {
    speeds, categorized := speeds0, categorized0;
    ghost var before := tracker.State();
    ghost var plane := heat.plane;
    var j := 0;
    while j < |frames[frameNum].indexes|
      invariant 0 <= j <= |frames[frameNum].indexes|
      invariant speeds == UpdateSpeeds(speeds0, frames, p, frameNum, j)
      invariant tracker.State() ==
        if SpeedingAmong(frames, p, frameNum, j) then Segments.Step(before, frameNum, Segments.Detected(true)) else before
      invariant categorized == if ContinuedAmong(frames, frameNum, j) then CategorizedAt(frames, frameNum) else categorized0
      invariant heat.Valid() && heat.plane == AddKeptBoxes(plane, frames, frameNum, j, heat.cells.Length0, heat.cells.Length1)
    {
      SpeedingStep(frames, p, frameNum, j);
      speeds, categorized :=
        TrackIndex(frames, p, frameNum, j, prevPositions, currentPositions, frameTime, tracker, heat, speeds, categorized);
      j := j + 1;
    }
  }

  /** One pass of detect_speeding's outer loop over frame n: builds the
      position table, runs the per-index loop on a frame with kept
      detections and otherwise lets the tracker see an empty frame; each
      table moves from its value after n frames to its value after n+1. */
  method ProcessFrame(frames: seq<FrameDetections>, p: Params, n: nat, prevPositions: map<nat, Point>,
                      frameTime: real, tracker: Segments.SegmentTracker, heat: HeatmapPlane.Heatmap,
                      speeds0: map<nat, real>, categorized0: Categorize.Movements)
    returns (currentPositions: map<nat, Point>, speeds: map<nat, real>, categorized: Categorize.Movements)
    requires ValidRun(frames, p) && n < |frames| && frameTime == FrameTime(p)
    requires prevPositions == Prev(frames, n)
    requires tracker.State() == Segments.Run(Signals(frames, p), n)
    requires speeds0 == SpeedsAfter(frames, p, n) && categorized0 == LastCategorized(frames, n)
    requires heat.Valid() && heat.plane == PlaneAfter(frames, n, heat.cells.Length0, heat.cells.Length1)
    modifies tracker, heat, heat.cells
    ensures currentPositions == Prev(frames, n + 1)
    ensures tracker.State() == Segments.Run(Signals(frames, p), n + 1)
    ensures speeds == SpeedsAfter(frames, p, n + 1) && categorized == LastCategorized(frames, n + 1)
    ensures heat.Valid() && heat.plane == PlaneAfter(frames, n + 1, heat.cells.Length0, heat.cells.Length1)
  {
    var fr := frames[n];
    NextFrame(frames, p, n, heat.cells.Length0, heat.cells.Length1);
    currentPositions := Detection.BuildPositions(fr.boxes, fr.indexes);
    if |fr.indexes| > 0 {
      speeds, categorized :=
        TrackDetections(frames, p, n, prevPositions, currentPositions, frameTime, tracker, heat, speeds0, categorized0);
    } else {
      tracker.OnEmptyFrame(n);
      speeds, categorized := speeds0, categorized0;
    }
  }

  /** The frame loop of detect_speeding over the frames actually read (the
      loop stops early when a read fails, or after a frame on a quit key):
      the heatmap plane is allocated on the first frame, and after the loop
      every table holds its value after all those frames. */
  method RunFrames(frames: seq<FrameDetections>, frameCount: int, height: nat, width: nat, p: Params,
                   tracker: Segments.SegmentTracker)
    returns (categorized: Categorize.Movements, speeds: map<nat, real>, heat: HeatmapPlane.Heatmap?)
    requires ValidRun(frames, p) && (frames == [] || |frames| <= frameCount)
    requires tracker.State() == Segments.Idle
    modifies tracker
    ensures tracker.State() == Segments.Run(Signals(frames, p), |frames|)
    ensures categorized == LastCategorized(frames, |frames|)
    ensures speeds == SpeedsAfter(frames, p, |frames|)
    ensures (heat == null) == (|frames| == 0)
    ensures heat != null ==>
      fresh(heat) && fresh(heat.cells) && heat.Valid() &&
      heat.cells.Length0 == height && heat.cells.Length1 == width &&
      heat.plane == PlaneAfter(frames, |frames|, height, width)
  {
    var prevPositions: map<nat, Point> := map[];
    categorized := Categorize.NoMovements;
    speeds := map[];
    var frameTime := 1.0 / p.frameRate;
    heat := null;

    var frameNum := 0;
    while frameNum < frameCount
      invariant 0 <= frameNum <= |frames|
      invariant prevPositions == Prev(frames, frameNum)
      invariant tracker.State() == Segments.Run(Signals(frames, p), frameNum)
      invariant categorized == LastCategorized(frames, frameNum)
      invariant speeds == SpeedsAfter(frames, p, frameNum)
      invariant (heat == null) == (frameNum == 0)
      invariant heat != null ==>
        fresh(heat) && fresh(heat.cells) && heat.Valid() &&
        heat.cells.Length0 == height && heat.cells.Length1 == width &&
        heat.plane == PlaneAfter(frames, frameNum, height, width)
    {
      if frameNum == |frames| {
        break;
      }
      if heat == null {
        heat := new HeatmapPlane.Heatmap(height, width);
      }
      prevPositions, speeds, categorized :=
        ProcessFrame(frames, p, frameNum, prevPositions, frameTime, tracker, heat, speeds, categorized);
      frameNum := frameNum + 1;
    }
  }

  /** detect_speeding: runs the frame loop, then flushes a segment still
      open with end frameCount - 1. Returns the segments, the last
      categorisation, the speed table and the heatmap plane (null when no
      frame was read). */
  method DetectSpeeding(frames: seq<FrameDetections>, frameCount: int, height: nat, width: nat, p: Params)
    returns (segments: seq<Segments.Segment>, categorized: Categorize.Movements, speeds: map<nat, real>,
             heat: HeatmapPlane.Heatmap?)
    requires ValidRun(frames, p) && (frames == [] || |frames| <= frameCount)
    ensures segments == Segments.Extract(Signals(frames, p), frameCount)
    ensures categorized == LastCategorized(frames, |frames|)
    ensures speeds == SpeedsAfter(frames, p, |frames|)
    ensures (heat == null) == (|frames| == 0)
    ensures heat != null ==>
      fresh(heat) && fresh(heat.cells) && heat.Valid() &&
      heat.cells.Length0 == height && heat.cells.Length1 == width &&
      heat.plane == PlaneAfter(frames, |frames|, height, width)
  {
    var tracker := new Segments.SegmentTracker();
    categorized, speeds, heat := RunFrames(frames, frameCount, height, width, p, tracker);
    tracker.Finish(frameCount);
    segments := tracker.segments;
  }
}
