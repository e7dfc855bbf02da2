/** Values shared by the detector adapter, the categorizer and the frame loop. */
module Shapes {

  /** A detection box in pixel coordinates: top-left corner (x, y), width w, height h. */
  datatype Box = Box(x: int, y: int, w: int, h: int)

  /** A centroid in pixel coordinates. */
  datatype Point = Point(cx: int, cy: int)

  datatype Option<T> = None | Some(value: T)

  /** The per-frame record the detector adapter hands to the frame loop:
      the surviving candidates' boxes and labels (parallel lists) and the
      indexes kept by duplicate suppression, in suppression order. */
  datatype FrameDetections = FrameDetections(boxes: seq<Box>, labels: seq<string>, indexes: seq<nat>)

  /** Every kept index addresses a box and a label. */
  predicate WellFormed(fr: FrameDetections)
  {
    |fr.boxes| == |fr.labels| &&
    forall k :: 0 <= k < |fr.indexes| ==> fr.indexes[k] < |fr.boxes|
  }
}
