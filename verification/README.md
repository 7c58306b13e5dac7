# Social-distance violation detector (covid19-distance-monitor)

A Dafny model of the core of the distance monitor's single-image script:
given the people detected in a frame (each a confidence, a bounding box
and an integer centroid) and a minimum distance `m` in pixels, find the set of detections that stand strictly closer than
`m` to some other detection, colour each detection red (violator) or green,
and report the number of violators.

- `detections.dfy`, module `Detections`: the per-frame detection records and
  the centroid list.
- `proximity.dfy`, module `Proximity`: the distance matrix, the specification
  of the violation set (`Violations`: every index with a strictly closer
  neighbour), the script's nested upper-triangle loop (`ComputeViolations`)
  proved equal to it, and the properties of that set.
- `annotation.dfy`, module `Annotation`: the colour choice, the rendering loop
  (one mark per detection), the status panel with the count, and the whole
  frame (`ProcessFrame`).

Distances are compared in integers: the script's test
`sqrt(dx*dx + dy*dy) < m` is modelled as `dx*dx + dy*dy < m*m`, and
`EuclideanTestAgrees` proves the two agree for a non-negative threshold.
`MIN_DISTANCE` comes from a configuration module (`utils/config` is not part
of this model), so `m` is a parameter.

Being flagged is a property of one detection, not of a pair. Two flagged
detections need not be close to each other: each may be close to a third
one. `FlaggedPairNeedNotBeClose` proves this with a chain of three centroids.
So "both are flagged" follows from "closer than `m`" but does not imply it.

## Model

| member | source | states |
|---|---|---|
| `Detections.Centroids` | run-image.py:63 | one centroid per detection, in detection order |
| `Proximity.DistanceMatrix` | run-image.py:63-64 | the pairwise (squared) distance matrix is n by n, symmetric and zero on its diagonal |
| `Proximity.ComputeViolations` | run-image.py:56-76 | the set built by the guarded upper-triangle loop equals the set of detections with a strictly closer other detection |
| `Proximity.ViolationsBounded` | run-image.py:67-68 | every flagged index is a valid detection index, so the set has at most as many members as there are detections |
| `Proximity.FewerThanTwoNoViolations` | run-image.py:56-60 | with fewer than two detections the violation set is empty |
| `Proximity.ClosePairFlagged` | run-image.py:72-76 | both ends of every pair of distinct detections closer than `m` are flagged |
| `Proximity.FlaggedHasNeighbour` | run-image.py:67-76 | a flagged index is a detection with some other detection strictly closer than `m` |
| `Proximity.TwoDetections` | run-image.py:67-76 | for two detections, both are flagged when closer than `m` and neither otherwise |
| `Proximity.AtThresholdNotFlagged` | run-image.py:72 | a pair exactly `m` apart is not a violation (strict comparison) |
| `Proximity.SingleDetectionNotFlagged` | run-image.py:67-68 | self-pairs are never compared: a lone detection is never flagged, although its distance to itself is below any positive threshold |
| `Proximity.FlaggedPairNeedNotBeClose` | run-image.py:72-76 | two flagged detections need not be within `m` of each other |
| `Proximity.ThreeDetectionsExample` | run-image.py:56-76 | centroids (0,0), (5,0), (100,100) with `m` = 10 give the set {0, 1} |
| `Proximity.SwapRelabels` | run-image.py:63-76 | swapping two detections in the input swaps their indices in the violation set and changes no other membership |
| `Proximity.EuclideanTestAgrees` | run-image.py:64-72 | for the Euclidean distance `d` and a non-negative threshold, `d < m` exactly when the squared distance is below `m*m` |
| `Annotation.ColorOf` | run-image.py:84-89 | a detection is red (0,0,255) exactly when its index is in the violation set, and green (0,255,0) exactly when it is not |
| `Annotation.Annotate` | run-image.py:79-95 | one mark per detection, in order, at its centroid (radius 5, thickness 1) and bounding box, red exactly for the flagged indices |
| `Annotation.Status` | run-image.py:99-103 | the status panel spans (0, h-50) to (150, h-10) in shade (10,10,10), its caption (colour (200,200,200)) lies strictly inside it and shows the size of the violation set |
| `Annotation.ProcessFrame` | run-image.py:56-101 | a detection is drawn red exactly when another detection is strictly closer than `m` (green otherwise); the count equals the number of red marks and is at most the number of detections |

## Left out

- Argument parsing, loading the class labels and the YOLO network, and GPU backend selection (run-image.py:17-43): configuration and I/O.
- Reading and resizing the image and running the person detector (run-image.py:47-52): the detector (`utils/detection.py`) is not part of this model; its output is the input sequence of detections, and the frame height `h` is a parameter.
- Floating-point distances from `scipy`'s `cdist` (run-image.py:64): replaced by exact integer squared distances; `EuclideanTestAgrees` relates the two over the reals, rounding of `sqrt` is not modelled.
- A fractional `MIN_DISTANCE`: the threshold is a non-negative integer number of pixels.
- `violationPerc` (run-image.py:100): a float that is never used; note that it divides by zero when no person is detected, which stops the script before anything is shown. `Annotation.ProcessFrame` still returns marks and a status for an empty frame; the script produces no output in that case.
- Pixel drawing and display (`cv2.circle`, `cv2.putText`, `cv2.imshow`, `cv2.waitKey`, `cv2.destroyAllWindows`, run-image.py:94, 102-112): each drawing call is recorded as the mark or status panel it asks for; the caption's text formatting (`"Violations: N"`) is recorded as the count `N`; the caption's font, scale and line thickness (run-image.py:102-103) are not recorded.
- `transparent_box` (utils/overlay_bbox.py:3-17): a copy, an OpenCV filled rectangle and an OpenCV weighted blend with a float opacity. Its clipping, rounding and saturation are OpenCV's, and the function itself neither clips the box nor checks the opacity. Only its arguments (box and colour) are recorded; its default opacity 0.5 is not, since it is a float and the same for every call.
- The detection confidence is carried in the data model but never inspected, as in the script.
