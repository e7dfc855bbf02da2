/** The fixed label-to-category bucketing of one frame's kept detections. */
module Categorize {
  import opened Shapes

  datatype Category = Human | Bike | Vehicle

  /** The three buckets of the result; a record, so the result always has
      exactly the keys human, bike and vehicle. */
  datatype Movements = Movements(human: seq<Box>, bike: seq<Box>, vehicle: seq<Box>)

  const NoMovements := Movements([], [], [])

  /** The six labels that land in some bucket. */
  const KnownLabels: set<string> := {"person", "bicycle", "motorbike", "car", "bus", "truck"}

  /** The case-sensitive lookup table of the chained label tests. */
  function CategoryOf(name: string): Option<Category>
  {
    if name == "person" then Some(Human)
    else if name == "bicycle" || name == "motorbike" then Some(Bike)
    else if name == "car" || name == "bus" || name == "truck" then Some(Vehicle)
    else None
  }

  /** The kept indexes whose label falls in category c, in the order of indexes. */
  function Select(labels: seq<string>, indexes: seq<nat>, c: Category): seq<nat>
    requires forall k :: 0 <= k < |indexes| ==> indexes[k] < |labels|
  {
    if indexes == [] then []
    else
      var i := indexes[|indexes| - 1];
      Select(labels, indexes[..|indexes| - 1], c) + (if CategoryOf(labels[i]) == Some(c) then [i] else [])
  }

  /** The boxes at the given indexes. */
  function BoxesAt(boxes: seq<Box>, sel: seq<nat>): seq<Box>
    requires forall k :: 0 <= k < |sel| ==> sel[k] < |boxes|
  {
    seq(|sel|, k requires 0 <= k < |sel| => boxes[sel[k]])
  }

  lemma {:induction false} SelectInRange(labels: seq<string>, indexes: seq<nat>, c: Category)
    requires forall k :: 0 <= k < |indexes| ==> indexes[k] < |labels|
    ensures forall k :: 0 <= k < |Select(labels, indexes, c)| ==> Select(labels, indexes, c)[k] in indexes
  {
    if indexes != [] {
      SelectInRange(labels, indexes[..|indexes| - 1], c);
    }
  }

  /** The reference result: three order-preserving filters of the kept boxes. */
  function Categorized(labels: seq<string>, boxes: seq<Box>, indexes: seq<nat>): Movements
    requires |labels| == |boxes|
    requires forall k :: 0 <= k < |indexes| ==> indexes[k] < |labels|
  {
    SelectInRange(labels, indexes, Human);
    SelectInRange(labels, indexes, Bike);
    SelectInRange(labels, indexes, Vehicle);
    Movements(BoxesAt(boxes, Select(labels, indexes, Human)),
              BoxesAt(boxes, Select(labels, indexes, Bike)),
              BoxesAt(boxes, Select(labels, indexes, Vehicle)))
  }

  /** categorize_movements: one pass over the kept indexes appending each box
      to the bucket its label selects; labels outside the table are skipped. */
  method CategorizeMovements(labels: seq<string>, boxes: seq<Box>, indexes: seq<nat>) returns (r: Movements)
    requires |labels| == |boxes|
    requires forall k :: 0 <= k < |indexes| ==> indexes[k] < |labels|
    ensures r == Categorized(labels, boxes, indexes)
  {
    r := NoMovements;
    if |indexes| > 0 {
      var j := 0;
      while j < |indexes|
        invariant 0 <= j <= |indexes|
        invariant r == Categorized(labels, boxes, indexes[..j])
      {
        var i := indexes[j];
        var name := labels[i];
        var box := boxes[i];
        assert indexes[..j + 1][..j] == indexes[..j];
        if name == "person" {
          r := r.(human := r.human + [box]);
        } else if name == "bicycle" || name == "motorbike" {
          r := r.(bike := r.bike + [box]);
        } else if name == "car" || name == "bus" || name == "truck" {
          r := r.(vehicle := r.vehicle + [box]);
        }
        j := j + 1;
      }
      assert indexes[..j] == indexes;
    }
  }

  /** An index is selected for c exactly when it is kept and its label maps to c. */
  lemma {:induction false} SelectExactly(labels: seq<string>, indexes: seq<nat>, c: Category, i: nat)
    requires forall k :: 0 <= k < |indexes| ==> indexes[k] < |labels|
    ensures i in Select(labels, indexes, c) <==> i in indexes && CategoryOf(labels[i]) == Some(c)
  {
    if indexes != [] {
      var init := indexes[..|indexes| - 1];
      SelectExactly(labels, init, c, i);
      assert indexes == init + [indexes[|indexes| - 1]];
    }
  }

  /** A kept "car", "bus" or "truck" box is in the vehicle bucket. */
  lemma VehicleLabelsLandInVehicle(labels: seq<string>, boxes: seq<Box>, indexes: seq<nat>, k: nat)
    requires |labels| == |boxes|
    requires forall k :: 0 <= k < |indexes| ==> indexes[k] < |labels|
    requires k < |indexes| && labels[indexes[k]] in {"car", "bus", "truck"}
    ensures boxes[indexes[k]] in Categorized(labels, boxes, indexes).vehicle
  {
    var i := indexes[k];
    SelectExactly(labels, indexes, Vehicle, i);
    var sel := Select(labels, indexes, Vehicle);
    var m :| 0 <= m < |sel| && sel[m] == i;
    assert Categorized(labels, boxes, indexes).vehicle[m] == boxes[i];
  }

  /** A kept "person" box is in the human bucket. */
  lemma PersonLandsInHuman(labels: seq<string>, boxes: seq<Box>, indexes: seq<nat>, k: nat)
    requires |labels| == |boxes|
    requires forall k :: 0 <= k < |indexes| ==> indexes[k] < |labels|
    requires k < |indexes| && labels[indexes[k]] == "person"
    ensures boxes[indexes[k]] in Categorized(labels, boxes, indexes).human
  {
    var i := indexes[k];
    SelectExactly(labels, indexes, Human, i);
    var sel := Select(labels, indexes, Human);
    var m :| 0 <= m < |sel| && sel[m] == i;
    assert Categorized(labels, boxes, indexes).human[m] == boxes[i];
  }

  /** A kept "bicycle" or "motorbike" box is in the bike bucket. */
  lemma TwoWheelersLandInBike(labels: seq<string>, boxes: seq<Box>, indexes: seq<nat>, k: nat)
    requires |labels| == |boxes|
    requires forall k :: 0 <= k < |indexes| ==> indexes[k] < |labels|
    requires k < |indexes| && labels[indexes[k]] in {"bicycle", "motorbike"}
    ensures boxes[indexes[k]] in Categorized(labels, boxes, indexes).bike
  {
    var i := indexes[k];
    SelectExactly(labels, indexes, Bike, i);
    var sel := Select(labels, indexes, Bike);
    var m :| 0 <= m < |sel| && sel[m] == i;
    assert Categorized(labels, boxes, indexes).bike[m] == boxes[i];
  }

  /** An index whose label is outside the table (case variants included) is
      selected into no bucket. */
  lemma UnknownLabelsDropped(labels: seq<string>, indexes: seq<nat>, i: nat)
    requires forall k :: 0 <= k < |indexes| ==> indexes[k] < |labels|
    requires i < |labels| && labels[i] !in KnownLabels
    ensures i !in Select(labels, indexes, Human)
    ensures i !in Select(labels, indexes, Bike)
    ensures i !in Select(labels, indexes, Vehicle)
  {
    SelectExactly(labels, indexes, Human, i);
    SelectExactly(labels, indexes, Bike, i);
    SelectExactly(labels, indexes, Vehicle, i);
  }

  /** Number of kept indexes carrying one of the six known labels. */
  function KnownCount(labels: seq<string>, indexes: seq<nat>): nat
    requires forall k :: 0 <= k < |indexes| ==> indexes[k] < |labels|
  {
    if indexes == [] then 0
    else KnownCount(labels, indexes[..|indexes| - 1]) + (if labels[indexes[|indexes| - 1]] in KnownLabels then 1 else 0)
  }

  /** The buckets together hold one box per kept index with a known label;
      with no kept index all three are empty. */
  lemma {:induction false} BucketTotal(labels: seq<string>, boxes: seq<Box>, indexes: seq<nat>)
    requires |labels| == |boxes|
    requires forall k :: 0 <= k < |indexes| ==> indexes[k] < |labels|
    ensures var m := Categorized(labels, boxes, indexes);
      |m.human| + |m.bike| + |m.vehicle| == KnownCount(labels, indexes)
    ensures indexes == [] ==> Categorized(labels, boxes, indexes) == NoMovements
  {
    if indexes != [] {
      BucketTotal(labels, boxes, indexes[..|indexes| - 1]);
    }
  }
}
