/**
 * The social-distance violation detector: from the centroids of one frame's
 * detections and a minimum distance m (in pixels), the set of detection
 * indices that stand strictly closer than m to some other detection.
 *
 * Distances are compared squared and in integers: for a non-negative
 * threshold, "Euclidean distance < m" and "squared distance < m * m" agree
 * (lemma EuclideanTestAgrees).
 */
module Proximity {
  import opened Detections

  /** The squared Euclidean distance between two pixel positions. */
  function SqDist(p: Point, q: Point): int
  {
    Square(p.x - q.x) + Square(p.y - q.y)
  }

  function Square(a: int): int
  {
    a * a
  }

  lemma SqDistSymmetric(p: Point, q: Point)
    ensures SqDist(p, q) == SqDist(q, p)
  {
    assert Square(p.x - q.x) == Square(q.x - p.x);
    assert Square(p.y - q.y) == Square(q.y - p.y);
  }

  /**
   * The pairwise distance matrix of the centroids (squared): square,
   * symmetric and zero on the diagonal, as the Euclidean metric makes it.
   */
  function DistanceMatrix(c: seq<Point>): (d: seq<seq<int>>)
    ensures |d| == |c|
    ensures forall i :: 0 <= i < |c| ==> |d[i]| == |c|
    ensures forall i, j :: 0 <= i < |c| && 0 <= j < |c| ==> d[i][j] == SqDist(c[i], c[j])
    ensures forall i, j :: 0 <= i < |c| && 0 <= j < |c| ==> d[i][j] == d[j][i]
    ensures forall i :: 0 <= i < |c| ==> d[i][i] == 0
  {
    var d := seq(|c|, i requires 0 <= i < |c| => seq(|c|, j requires 0 <= j < |c| => SqDist(c[i], c[j])));
    assert forall i, j :: 0 <= i < |c| && 0 <= j < |c| ==> d[i][j] == d[j][i] by {
      forall i, j | 0 <= i < |c| && 0 <= j < |c| ensures d[i][j] == d[j][i] {
        SqDistSymmetric(c[i], c[j]);
      }
    }
    d
  }

  /** Detections i and j both exist and stand strictly closer than m. */
  ghost predicate Close(c: seq<Point>, m: nat, i: int, j: int)
  {
    0 <= i < |c| && 0 <= j < |c| && SqDist(c[i], c[j]) < m * m
  }

  lemma CloseSymmetric(c: seq<Point>, m: nat, i: int, j: int)
    ensures Close(c, m, i, j) == Close(c, m, j, i)
  {
    if 0 <= i < |c| && 0 <= j < |c| {
      SqDistSymmetric(c[i], c[j]);
    }
  }

  /** Some OTHER detection stands strictly closer than m to detection k. */
  ghost predicate HasCloseNeighbour(c: seq<Point>, m: nat, k: int)
  {
    exists l :: 0 <= l < |c| && l != k && Close(c, m, k, l)
  }

  /** The intended violation set: every detection with a close neighbour. */
  ghost function Violations(c: seq<Point>, m: nat): set<nat>
  {
    set k: nat | k < |c| && HasCloseNeighbour(c, m, k)
  }

  /** Every index in v is a detection with a close neighbour. */
  ghost predicate OnlyNeighboured(c: seq<Point>, m: nat, v: set<nat>)
  {
    forall k :: k in v ==> HasCloseNeighbour(c, m, k)
  }

  /**
   * The upper triangle has been walked up to row i, column j: both ends
   * of every close pair (a, b) with a < b, visited before (i, j) in row
   * order, are in v.
   */
  ghost predicate PairsFlagged(c: seq<Point>, m: nat, v: set<nat>, i: int, j: int)
  {
    forall a, b :: 0 <= a < b < |c| && (a < i || (a == i && b < j)) && Close(c, m, a, b) ==> a in v && b in v
  }

  /**
   * The violation set as the script computes it: nothing unless there are
   * at least two detections; otherwise walk the strict upper triangle of
   * the distance matrix and add both ends of every pair closer than m.
   */
  method ComputeViolations(results: seq<Detection>, m: nat) returns (violate: set<nat>)
    ensures violate == Violations(Centroids(results), m)
  {
    violate := {};
    ghost var c := Centroids(results);
    if |results| >= 2 {
      var centroids := Centroids(results);
      var d := DistanceMatrix(centroids);
      var n := |d|;
      for i := 0 to n
        invariant OnlyNeighboured(c, m, violate)
        invariant PairsFlagged(c, m, violate, i, i + 1)
      {
        for j := i + 1 to n
          invariant OnlyNeighboured(c, m, violate)
          invariant PairsFlagged(c, m, violate, i, j)
        {
          ghost var before := violate;
          if d[i][j] < m * m {
            CloseSymmetric(c, m, i, j);
            violate := violate + {i, j};
          }
          PairsFlaggedStep(c, m, before, violate, i, j);
        }
      }
      UpperTriangleSuffices(c, m, violate);
    }
  }

  /** Visiting pair (i, j) extends the walked part of the triangle by one cell. */
  lemma PairsFlaggedStep(c: seq<Point>, m: nat, v: set<nat>, v': set<nat>, i: int, j: int)
    requires PairsFlagged(c, m, v, i, j) && v <= v'
    requires Close(c, m, i, j) ==> i in v' && j in v'
    ensures PairsFlagged(c, m, v', i, j + 1)
  {
  }

  /**
   * A set of indices that only holds detections with a close neighbour,
   * and holds both ends of every close pair i < j, is the violation set.
   */
  lemma UpperTriangleSuffices(c: seq<Point>, m: nat, v: set<nat>)
    requires OnlyNeighboured(c, m, v)
    requires PairsFlagged(c, m, v, |c|, |c| + 1)
    ensures v == Violations(c, m)
  {
    forall k | k in v ensures k in Violations(c, m) {
      var l :| 0 <= l < |c| && l != k && Close(c, m, k, l);
    }
    forall k | k in Violations(c, m) ensures k in v {
      var l :| 0 <= l < |c| && l != k && Close(c, m, k, l);
      CloseSymmetric(c, m, k, l);
    }
  }

  /** The set holds detection indices only, so its size is at most the number of detections. */
  lemma ViolationsBounded(c: seq<Point>, m: nat)
    ensures forall k :: k in Violations(c, m) ==> k < |c|
    ensures |Violations(c, m)| <= |c|
  {
    BelowSize(Violations(c, m), |c|);
  }

  /** A set of naturals all below n has at most n members. */
  lemma {:induction false} BelowSize(v: set<nat>, n: nat)
    requires forall k :: k in v ==> k < n
    ensures |v| <= n
  {
    if n > 0 {
      var rest := v - {n - 1};
      BelowSize(rest, n - 1);
      assert v <= rest + {n - 1};
      assert |v| <= |rest| + 1;
    }
  }

  /** With fewer than two detections there is no pair, so nothing is flagged. */
  lemma FewerThanTwoNoViolations(c: seq<Point>, m: nat)
    requires |c| < 2
    ensures Violations(c, m) == {}
  {
  }

  /** Both ends of every pair strictly closer than m are flagged. */
  lemma ClosePairFlagged(c: seq<Point>, m: nat, i: nat, j: nat)
    requires i < |c| && j < |c| && i != j
    requires SqDist(c[i], c[j]) < m * m
    ensures i in Violations(c, m) && j in Violations(c, m)
  {
    CloseSymmetric(c, m, i, j);
    assert Close(c, m, j, i);
  }

  /** A flagged index has another detection strictly closer than m. */
  lemma FlaggedHasNeighbour(c: seq<Point>, m: nat, k: nat)
    requires k in Violations(c, m)
    ensures k < |c|
    ensures exists l :: 0 <= l < |c| && l != k && SqDist(c[k], c[l]) < m * m
  {
    var l :| 0 <= l < |c| && l != k && Close(c, m, k, l);
    assert SqDist(c[k], c[l]) < m * m;
  }

  /**
   * Two detections on their own: both are flagged when they stand strictly
   * closer than m, neither otherwise.
   */
  lemma TwoDetections(p: Point, q: Point, m: nat)
    ensures Violations([p, q], m) == if SqDist(p, q) < m * m then {0, 1} else {}
  {
    var c := [p, q];
    if SqDist(p, q) < m * m {
      ClosePairFlagged(c, m, 0, 1);
    } else {
      SqDistSymmetric(p, q);
      assert !Close(c, m, 0, 1) && !Close(c, m, 1, 0);
    }
  }

  /** The comparison is strict: a pair exactly m apart is not a violation. */
  lemma AtThresholdNotFlagged(p: Point, q: Point, m: nat)
    requires SqDist(p, q) == m * m
    ensures Violations([p, q], m) == {}
  {
    TwoDetections(p, q, m);
  }

  /**
   * Self-pairs are never compared: a single detection is never flagged,
   * although its distance to itself (0) is below any positive threshold.
   */
  lemma SingleDetectionNotFlagged(p: Point, m: nat)
    ensures m > 0 ==> SqDist(p, p) < m * m
    ensures Violations([p], m) == {}
  {
    FewerThanTwoNoViolations([p], m);
  }

  /**
   * Being flagged is not a pairwise relation: two flagged detections need
   * not be close to each other, as in a chain of three where only
   * neighbours are close.
   */
  lemma FlaggedPairNeedNotBeClose()
    ensures var c := [Point(0, 0), Point(6, 0), Point(12, 0)];
            0 in Violations(c, 10) && 2 in Violations(c, 10) && SqDist(c[0], c[2]) >= 10 * 10
  {
    var c := [Point(0, 0), Point(6, 0), Point(12, 0)];
    ClosePairFlagged(c, 10, 0, 1);
    ClosePairFlagged(c, 10, 1, 2);
  }

  /**
   * The worked example: centroids (0,0), (5,0), (100,100) with m = 10;
   * only the first two are within 10 pixels of each other.
   */
  lemma ThreeDetectionsExample()
    ensures Violations([Point(0, 0), Point(5, 0), Point(100, 100)], 10) == {0, 1}
  {
    var c := [Point(0, 0), Point(5, 0), Point(100, 100)];
    ClosePairFlagged(c, 10, 0, 1);
    assert !Close(c, 10, 2, 0) && !Close(c, 10, 2, 1);
  }

  /** The index that k becomes when detections p and q trade places. */
  function SwapIndex(k: nat, p: nat, q: nat): nat
  {
    if k == p then q else if k == q then p else k
  }

  /** The frame with detections p and q trading places. */
  function Swapped(c: seq<Point>, p: nat, q: nat): (s: seq<Point>)
    requires p < |c| && q < |c|
    ensures |s| == |c|
    ensures forall k :: 0 <= k < |c| ==> s[k] == c[SwapIndex(k, p, q)]
  {
    c[p := c[q]][q := c[p]]
  }

  /**
   * Relabelling: swapping two detections in the input swaps their indices
   * in the violation set and changes nothing else.
   */
  lemma SwapRelabels(c: seq<Point>, m: nat, p: nat, q: nat)
    requires p < |c| && q < |c|
    ensures forall k: nat :: k in Violations(Swapped(c, p, q), m) <==> SwapIndex(k, p, q) in Violations(c, m)
  {
    var s := Swapped(c, p, q);
    forall k: nat ensures k in Violations(s, m) <==> SwapIndex(k, p, q) in Violations(c, m) {
      var k' := SwapIndex(k, p, q);
      if k in Violations(s, m) {
        var l :| 0 <= l < |s| && l != k && Close(s, m, k, l);
        var l' := SwapIndex(l, p, q);
        assert Close(c, m, k', l');
      }
      if k' in Violations(c, m) {
        var l' :| 0 <= l' < |c| && l' != k' && Close(c, m, k', l');
        var l := SwapIndex(l', p, q);
        assert SwapIndex(l, p, q) == l';
        assert Close(s, m, k, l);
      }
    }
  }

  /**
   * The integer test stands for the script's floating-point one: for the
   * Euclidean distance d (d >= 0 with d * d the squared distance) and a
   * non-negative threshold, d < m exactly when the squared distance is
   * below m * m.
   */
  lemma EuclideanTestAgrees(p: Point, q: Point, m: nat, d: real)
    requires d >= 0.0 && d * d == SqDist(p, q) as real
    ensures d < m as real <==> SqDist(p, q) < m * m
  {
    var r := m as real;
    assert (m * m) as real == r * r;
    if d < r {
      SquareMonotone(d, r);
    } else if r < d {
      SquareMonotone(r, d);
    }
  }

  /** Squaring is strictly increasing on the non-negative reals. */
  lemma SquareMonotone(x: real, y: real)
    requires 0.0 <= x < y
    ensures x * x < y * y
  {
    PositiveProduct(y - x, y);
    NonNegativeProduct(x, y - x);
    assert (y - x) * y == y * y - x * y;
    assert x * (y - x) == x * y - x * x;
    LessThanThrough(x * x, x * y, y * y);
  }

  lemma PositiveProduct(a: real, b: real)
    requires a > 0.0 && b > 0.0
    ensures a * b > 0.0
  {
  }

  lemma NonNegativeProduct(a: real, b: real)
    requires a >= 0.0 && b > 0.0
    ensures a * b >= 0.0
  {
  }

  lemma LessThanThrough(a: real, b: real, c: real)
    requires a <= b && b < c
    ensures a < c
  {
  }
}
