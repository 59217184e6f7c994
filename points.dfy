/** The `Point` record: a share's index x (a Java int) and value y (a Java long). */
module Points {
  import opened Radix

  datatype Point = Point(x: Int32, y: Int64)

  /** The x coordinates, as the doubles the interpolation reads (exactly, here). */
  function XsOf(points: seq<Point>): (xs: seq<real>)
    ensures |xs| == |points|
    ensures forall i :: 0 <= i < |points| ==> xs[i] == points[i].x as real
  {
    seq(|points|, i requires 0 <= i < |points| => points[i].x as real)
  }

  function YsOf(points: seq<Point>): (ys: seq<real>)
    ensures |ys| == |points|
    ensures forall i :: 0 <= i < |points| ==> ys[i] == points[i].y as real
  {
    seq(|points|, i requires 0 <= i < |points| => points[i].y as real)
  }

  /** No two points share an x coordinate. */
  predicate DistinctX(points: seq<Point>) {
    forall i, j :: 0 <= i < |points| && 0 <= j < |points| && i != j ==> points[i].x != points[j].x
  }
}
