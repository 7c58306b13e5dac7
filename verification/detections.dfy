/**
 * The detections of one frame, as the person detector hands them to the
 * distance monitor: each one a confidence, a bounding box and a centroid,
 * all in integer pixel coordinates. A detection's position in the frame's
 * sequence is its identity for that frame.
 */
module Detections {

  /** A pixel position (x, y). */
  datatype Point = Point(x: int, y: int)

  /** A pixel rectangle (startX, startY, endX, endY). */
  datatype Box = Box(startX: int, startY: int, endX: int, endY: int)

  /** One person detection. The confidence is carried along but never inspected. */
  datatype Detection = Detection(prob: real, bbox: Box, centroid: Point)

  /** The centroid of every detection, in detection order. */
  function Centroids(results: seq<Detection>): (c: seq<Point>)
    ensures |c| == |results|
    ensures forall i :: 0 <= i < |results| ==> c[i] == results[i].centroid
  {
    seq(|results|, i requires 0 <= i < |results| => results[i].centroid)
  }
}
