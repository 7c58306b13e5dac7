/**
 * What the monitor draws for one frame: every detection gets a marker
 * circle at its centroid and a shaded box over its bounding box, red when
 * the detection is in the violation set and green otherwise; a dark status
 * panel at the bottom-left carries the number of violators.
 *
 * Pixels are not modelled: a drawing is recorded as the mark it asks for.
 */
module Annotation {
  import opened Detections
  import opened Proximity

  /** A colour in OpenCV's (blue, green, red) channel order. */
  datatype Color = Color(b: int, g: int, r: int)

  const Green: Color := Color(0, 255, 0)
  const Red: Color := Color(0, 0, 255)
  const PanelShade: Color := Color(10, 10, 10)
  const CaptionColor: Color := Color(200, 200, 200)
  const MarkerRadius: nat := 5
  const MarkerThickness: nat := 1

  /**
   * The annotation of one detection: a circle (radius and line thickness)
   * around its centroid and a shaded box over its bounding box.
   */
  datatype Mark = Mark(centroid: Point, radius: nat, thickness: nat, bbox: Box, color: Color)

  /** The status panel: a shaded rectangle and a caption giving the violation count. */
  datatype StatusBar = StatusBar(panel: Box, shade: Color, count: nat, origin: Point, textColor: Color)

  /** Red marks a violator, green everyone else. */
  function ColorOf(i: nat, violate: set<nat>): (color: Color)
    ensures color == Red <==> i in violate
    ensures color == Green <==> i !in violate
  {
    if i in violate then Red else Green
  }

  /**
   * The rendering loop: one mark per detection, in detection order, with
   * the colour chosen by membership in the violation set.
   */
  method Annotate(results: seq<Detection>, violate: set<nat>) returns (marks: seq<Mark>)
    ensures |marks| == |results|
    ensures forall i :: 0 <= i < |results| ==>
              marks[i] == Mark(results[i].centroid, MarkerRadius, MarkerThickness, results[i].bbox, ColorOf(i, violate))
    ensures forall i :: 0 <= i < |results| ==> (marks[i].color == Red <==> i in violate)
  {
    marks := [];
    for i := 0 to |results|
      invariant |marks| == i
      invariant forall k :: 0 <= k < i ==>
                  marks[k] == Mark(results[k].centroid, MarkerRadius, MarkerThickness, results[k].bbox, ColorOf(k, violate))
    {
      var color := Green;
      if i in violate {
        color := Red;
      }
      marks := marks + [Mark(results[i].centroid, MarkerRadius, MarkerThickness, results[i].bbox, color)];
    }
  }

  /**
   * The status panel of a frame h pixels high: the box from (0, h-50) to
   * (150, h-10), with the caption at (10, h-25) counting the violators.
   */
  function Status(h: int, violate: set<nat>): (s: StatusBar)
    ensures s.count == |violate|
    ensures s.panel == Box(0, h - 50, 150, h - 10)
    ensures s.panel.startX < s.origin.x < s.panel.endX && s.panel.startY < s.origin.y < s.panel.endY
    ensures s.shade == PanelShade && s.textColor == CaptionColor
  {
    StatusBar(Box(0, h - 50, 150, h - 10), PanelShade, |violate|, Point(10, h - 25), CaptionColor)
  }

  /**
   * One frame end to end: the violation set, the per-detection marks and
   * the status panel. A detection is drawn red exactly when another
   * detection stands strictly closer than m, and the caption counts the
   * red marks.
   *
   * For a frame with no detections this returns an empty list of marks and
   * a caption with count 0, an output the script never produces: it fails
   * with a division by zero (the unused violation percentage) after
   * drawing the panel and before drawing the caption.
   */
  method ProcessFrame(results: seq<Detection>, m: nat, h: int) returns (marks: seq<Mark>, status: StatusBar)
    ensures |marks| == |results|
    ensures forall i :: 0 <= i < |results| ==>
              marks[i].centroid == results[i].centroid && marks[i].bbox == results[i].bbox
    ensures forall i :: 0 <= i < |results| ==>
              (marks[i].color == Red <==> HasCloseNeighbour(Centroids(results), m, i))
    ensures forall i :: 0 <= i < |results| ==>
              (marks[i].color == Green <==> !HasCloseNeighbour(Centroids(results), m, i))
    ensures status.count == |Violations(Centroids(results), m)| <= |results|
    ensures status.count == |set i | 0 <= i < |marks| && marks[i].color == Red|
    ensures status.panel == Box(0, h - 50, 150, h - 10)
  {
    var violate := ComputeViolations(results, m);
    marks := Annotate(results, violate);
    status := Status(h, violate);
    ViolationsBounded(Centroids(results), m);
    assert violate == set i | 0 <= i < |marks| && marks[i].color == Red;
  }
}
