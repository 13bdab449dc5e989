/** Data points shared by the interpolation methods. */
module Samples {

  /** A data point (x, y). */
  type Point = (real, real)

  /** No two points share an abscissa: Python's
      `len(x_values) == len(set(x_values))`. */
  predicate DistinctX(pts: seq<Point>)
  {
    forall i, j :: 0 <= i < j < |pts| ==> pts[i].0 != pts[j].0
  }

  /** Any two different indices, in either order, hold different abscissas. */
  lemma DistinctAt(pts: seq<Point>, a: nat, b: nat)
    requires DistinctX(pts) && a < |pts| && b < |pts| && a != b
    ensures pts[a].0 != pts[b].0
  {
    if b < a {
      assert pts[b].0 != pts[a].0;
    }
  }
}
