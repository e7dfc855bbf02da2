/** The detector adapter: filtering the detector's raw candidates by
    confidence into parallel lists, and the centroid table of the kept
    detections. The forward pass and duplicate suppression are external and
    enter as inputs. */
module Detection {
  import opened Shapes

  /** One raw detector row: its box, already in integer pixels, and its
      per-class scores. */
  datatype Candidate = Candidate(box: Box, scores: seq<real>)

  /** A candidate that passed the confidence filter, as the four parallel
      lists hold it at one position. */
  datatype Kept = Kept(box: Box, confidence: real, classId: nat, className: string)

  const ConfidenceThreshold: real := 0.5

  /** The index of the first maximal score (numpy's argmax). */
  function FirstArgMax(s: seq<real>): (k: nat)
    requires |s| > 0
    ensures k < |s|
    ensures forall j :: 0 <= j < |s| ==> s[j] <= s[k]
    ensures forall j :: 0 <= j < k ==> s[j] < s[k]
  {
    if |s| == 1 then 0
    else
      var k' := FirstArgMax(s[..|s| - 1]);
      if s[|s| - 1] > s[k'] then |s| - 1 else k'
  }

  /** The best class score of a candidate. */
  function Confidence(c: Candidate): real
    requires |c.scores| > 0
  {
    c.scores[FirstArgMax(c.scores)]
  }

  /** What the filter needs of a candidate: some score to take the argmax of,
      and, when it passes, a class name for its best class. */
  predicate Readable(c: Candidate, classes: seq<string>)
  {
    |c.scores| > 0 &&
    (Confidence(c) > ConfidenceThreshold ==> FirstArgMax(c.scores) < |classes|)
  }

  predicate ReadableAll(cs: seq<Candidate>, classes: seq<string>)
  {
    forall k :: 0 <= k < |cs| ==> Readable(cs[k], classes)
  }

  predicate ReadableOutputs(outs: seq<seq<Candidate>>, classes: seq<string>)
  {
    forall o :: 0 <= o < |outs| ==> ReadableAll(outs[o], classes)
  }

  /** The candidates of all output layers, layer after layer. */
  function Flatten(outs: seq<seq<Candidate>>): seq<Candidate>
  {
    if outs == [] then [] else Flatten(outs[..|outs| - 1]) + outs[|outs| - 1]
  }

  lemma {:induction false} FlattenReadable(outs: seq<seq<Candidate>>, classes: seq<string>)
    requires ReadableOutputs(outs, classes)
    ensures ReadableAll(Flatten(outs), classes)
  {
    if outs != [] {
      FlattenReadable(outs[..|outs| - 1], classes);
    }
  }

  /** A candidate is in the flattened list exactly when it is a row of some
      output layer: the nested loops visit every row of every layer. */
  lemma {:induction false} FlattenMembers(outs: seq<seq<Candidate>>, c: Candidate)
    ensures c in Flatten(outs) <==> exists o :: 0 <= o < |outs| && c in outs[o]
  {
    if outs != [] {
      var init := outs[..|outs| - 1];
      FlattenMembers(init, c);
      if c in Flatten(init) {
        var o :| 0 <= o < |init| && c in init[o];
        assert outs[o] == init[o];
      }
      if exists o :: 0 <= o < |outs| && c in outs[o] {
        var o :| 0 <= o < |outs| && c in outs[o];
        if o < |outs| - 1 {
          assert init[o] == outs[o];
        }
      }
    }
  }

  lemma FlattenPrefix(outs: seq<seq<Candidate>>, o: nat)
    requires o < |outs|
    ensures Flatten(outs[..o + 1]) == Flatten(outs[..o]) + outs[o]
  {
    assert outs[..o + 1][..o] == outs[..o];
  }

  /** The entry a passing candidate contributes to the parallel lists. */
  function Adopt(c: Candidate, classes: seq<string>): Kept
    requires Readable(c, classes) && Confidence(c) > ConfidenceThreshold
  {
    var id := FirstArgMax(c.scores);
    Kept(c.box, c.scores[id], id, classes[id])
  }

  /** Reference filter: the candidates whose best score is strictly above the
      threshold, in detector order. */
  function Admitted(cs: seq<Candidate>, classes: seq<string>): seq<Kept>
    requires ReadableAll(cs, classes)
  {
    if cs == [] then []
    else
      var c := cs[|cs| - 1];
      Admitted(cs[..|cs| - 1], classes) + (if Confidence(c) > ConfidenceThreshold then [Adopt(c, classes)] else [])
  }

  /** Every admitted entry comes from a candidate whose best score is strictly
      above 0.5, and carries that candidate's box, its best score, the first
      maximal class and that class's name. */
  lemma {:induction false} AdmittedSound(cs: seq<Candidate>, classes: seq<string>, j: nat)
    requires ReadableAll(cs, classes)
    requires j < |Admitted(cs, classes)|
    ensures exists k :: (0 <= k < |cs| && Confidence(cs[k]) > ConfidenceThreshold &&
                         Admitted(cs, classes)[j] == Adopt(cs[k], classes))
  {
    var init := cs[..|cs| - 1];
    if j < |Admitted(init, classes)| {
      AdmittedSound(init, classes, j);
      var k :| 0 <= k < |init| && Confidence(init[k]) > ConfidenceThreshold &&
        Admitted(init, classes)[j] == Adopt(init[k], classes);
      assert cs[k] == init[k];
    } else {
      assert Admitted(cs, classes)[j] == Adopt(cs[|cs| - 1], classes);
    }
  }

  /** Every candidate whose best score is strictly above 0.5 is admitted. */
  lemma {:induction false} AdmittedComplete(cs: seq<Candidate>, classes: seq<string>, k: nat)
    requires ReadableAll(cs, classes)
    requires k < |cs| && Confidence(cs[k]) > ConfidenceThreshold
    ensures Adopt(cs[k], classes) in Admitted(cs, classes)
  {
    var init := cs[..|cs| - 1];
    if k < |cs| - 1 {
      AdmittedComplete(init, classes, k);
      assert cs[k] == init[k];
    }
  }

  /** Row d of output layer o, when its best score is strictly above 0.5,
      contributes its entry to the parallel lists. */
  lemma AdmittedEveryPassingRow(outs: seq<seq<Candidate>>, classes: seq<string>, o: nat, d: nat)
    requires ReadableOutputs(outs, classes)
    requires o < |outs| && d < |outs[o]| && Confidence(outs[o][d]) > ConfidenceThreshold
    ensures ReadableAll(Flatten(outs), classes)
    ensures Adopt(outs[o][d], classes) in Admitted(Flatten(outs), classes)
  {
    FlattenReadable(outs, classes);
    FlattenMembers(outs, outs[o][d]);
    var cs := Flatten(outs);
    var k :| 0 <= k < |cs| && cs[k] == outs[o][d];
    AdmittedComplete(cs, classes, k);
  }

  /** Appending one candidate appends its entry exactly when its best score is
      strictly above 0.5; a score equal to the threshold adds nothing. */
  lemma AdmittedSnoc(cs: seq<Candidate>, c: Candidate, classes: seq<string>)
    requires ReadableAll(cs, classes) && Readable(c, classes)
    ensures ReadableAll(cs + [c], classes)
    ensures Admitted(cs + [c], classes) ==
      Admitted(cs, classes) + (if Confidence(c) > ConfidenceThreshold then [Adopt(c, classes)] else [])
  {
    assert (cs + [c])[..|cs|] == cs;
  }

  /** Position j of the four lists holds the j-th admitted entry. */
  predicate Parallel(boxes: seq<Box>, confidences: seq<real>, classIds: seq<nat>, labels: seq<string>, adm: seq<Kept>)
  {
    |boxes| == |confidences| == |classIds| == |labels| == |adm| &&
    forall j :: 0 <= j < |adm| ==> Kept(boxes[j], confidences[j], classIds[j], labels[j]) == adm[j]
  }

  lemma ParallelSnoc(boxes: seq<Box>, confidences: seq<real>, classIds: seq<nat>, labels: seq<string>,
                     adm: seq<Kept>, e: Kept)
    requires Parallel(boxes, confidences, classIds, labels, adm)
    ensures Parallel(boxes + [e.box], confidences + [e.confidence], classIds + [e.classId], labels + [e.className], adm + [e])
  {
  }

  /** The inner loop over the rows of one output layer: each row whose best
      score is strictly above 0.5 appends one position to the four lists. */
  method FilterLayer(layer: seq<Candidate>, classes: seq<string>, ghost before: seq<Candidate>,
                     boxes0: seq<Box>, confidences0: seq<real>, classIds0: seq<nat>, labels0: seq<string>)
    returns (boxes: seq<Box>, confidences: seq<real>, classIds: seq<nat>, labels: seq<string>)
    requires ReadableAll(before, classes) && ReadableAll(layer, classes)
    requires Parallel(boxes0, confidences0, classIds0, labels0, Admitted(before, classes))
    ensures ReadableAll(before + layer, classes)
    ensures Parallel(boxes, confidences, classIds, labels, Admitted(before + layer, classes))
  {
    boxes, confidences, classIds, labels := boxes0, confidences0, classIds0, labels0;
    var d := 0;
    assert before + layer[..d] == before;
    while d < |layer|
      invariant 0 <= d <= |layer|
      invariant ReadableAll(before + layer[..d], classes)
      invariant Parallel(boxes, confidences, classIds, labels, Admitted(before + layer[..d], classes))
    {
      var detection := layer[d];
      ghost var seen := before + layer[..d];
      AdmittedSnoc(seen, detection, classes);
      assert before + layer[..d + 1] == seen + [detection];
      var scores := detection.scores;
      var classId := FirstArgMax(scores);
      var confidence := scores[classId];
      if confidence > ConfidenceThreshold {
        ParallelSnoc(boxes, confidences, classIds, labels, Admitted(seen, classes), Adopt(detection, classes));
        boxes := boxes + [detection.box];
        confidences := confidences + [confidence];
        classIds := classIds + [classId];
        labels := labels + [classes[classId]];
      }
      d := d + 1;
    }
    assert layer[..d] == layer;
  }

  /** The loops over the output layers: boxes, confidences, class ids and
      labels are appended together, one position per admitted candidate. */
  method FilterCandidates(outs: seq<seq<Candidate>>, classes: seq<string>)
    returns (boxes: seq<Box>, confidences: seq<real>, classIds: seq<nat>, labels: seq<string>)
    requires ReadableOutputs(outs, classes)
    ensures ReadableAll(Flatten(outs), classes)
    ensures Parallel(boxes, confidences, classIds, labels, Admitted(Flatten(outs), classes))
  {
    boxes, confidences, classIds, labels := [], [], [], [];
    var o := 0;
    while o < |outs|
      invariant 0 <= o <= |outs|
      invariant ReadableAll(Flatten(outs[..o]), classes)
      invariant Parallel(boxes, confidences, classIds, labels, Admitted(Flatten(outs[..o]), classes))
    {
      boxes, confidences, classIds, labels :=
        FilterLayer(outs[o], classes, Flatten(outs[..o]), boxes, confidences, classIds, labels);
      FlattenPrefix(outs, o);
      o := o + 1;
    }
    assert outs[..o] == outs;
  }

  /** The centroid of a box with floor halving: cx is the largest integer with
      2 * (cx - x) <= w, and likewise cy. */
  function Centroid(b: Box): (p: Point)
    ensures 2 * (p.cx - b.x) <= b.w < 2 * (p.cx - b.x) + 2
    ensures 2 * (p.cy - b.y) <= b.h < 2 * (p.cy - b.y) + 2
  {
    Point(b.x + b.w / 2, b.y + b.h / 2)
  }

  /** Reference position table: one entry per kept index, mapped to its centroid. */
  function PositionTable(boxes: seq<Box>, indexes: seq<nat>): (t: map<nat, Point>)
    requires forall k :: 0 <= k < |indexes| ==> indexes[k] < |boxes|
    ensures forall i :: i in t <==> i in indexes
    ensures forall i :: i in t ==> i < |boxes| && t[i] == Centroid(boxes[i])
  {
    map i | i in indexes :: Centroid(boxes[i])
  }

  /** The loop filling current_positions from the kept indexes. */
  method BuildPositions(boxes: seq<Box>, indexes: seq<nat>) returns (currentPositions: map<nat, Point>)
    requires forall k :: 0 <= k < |indexes| ==> indexes[k] < |boxes|
    ensures currentPositions == PositionTable(boxes, indexes)
  {
    currentPositions := map[];
    if |indexes| > 0 {
      var k := 0;
      while k < |indexes|
        invariant 0 <= k <= |indexes|
        invariant currentPositions == PositionTable(boxes, indexes[..k])
      {
        var i := indexes[k];
        currentPositions := currentPositions[i := Centroid(boxes[i])];
        assert indexes[..k + 1] == indexes[..k] + [i];
        k := k + 1;
      }
      assert indexes[..k] == indexes;
    }
  }

  /** What duplicate suppression may return: indexes into the boxes it was given. */
  ghost predicate SuppressionInRange(nms: (seq<Box>, seq<real>) -> seq<nat>)
  {
    forall bs, cs, k :: 0 <= k < |nms(bs, cs)| ==> nms(bs, cs)[k] < |bs|
  }

  /** detect_and_track_objects, from the detector rows on: filter, suppress,
      build the position table. prevPositions is accepted and never read. */
  method DetectAndTrack(outs: seq<seq<Candidate>>, classes: seq<string>,
                        nms: (seq<Box>, seq<real>) -> seq<nat>, prevPositions: map<nat, Point>)
    returns (fr: FrameDetections, currentPositions: map<nat, Point>)
    requires ReadableOutputs(outs, classes)
    requires SuppressionInRange(nms)
    ensures WellFormed(fr)
    ensures ReadableAll(Flatten(outs), classes)
    ensures var adm := Admitted(Flatten(outs), classes);
      |fr.boxes| == |adm| &&
      (forall j :: 0 <= j < |adm| ==> fr.boxes[j] == adm[j].box && fr.labels[j] == adm[j].className) &&
      fr.indexes == nms(fr.boxes, seq(|adm|, j requires 0 <= j < |adm| => adm[j].confidence))
    ensures currentPositions == PositionTable(fr.boxes, fr.indexes)
  {
    var boxes, confidences, classIds, labels := FilterCandidates(outs, classes);
    FlattenReadable(outs, classes);
    ghost var adm := Admitted(Flatten(outs), classes);
    assert confidences == seq(|adm|, j requires 0 <= j < |adm| => adm[j].confidence);
    var indexes := nms(boxes, confidences);
    fr := FrameDetections(boxes, labels, indexes);
    currentPositions := BuildPositions(boxes, indexes);
  }
}
