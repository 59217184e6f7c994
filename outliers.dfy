/**
 * findWrongPoints: the points whose y exceeds 10^14, in their input order.
 * The source compares the long y with the double Math.pow(10, 14). That
 * double is exactly 10^14, and converting y to double cannot carry it across
 * 10^14 (every long up to 2^53 converts exactly, and 2^53 > 10^14), so the
 * comparison is the integer test y > 10^14 used here.
 */
module Outliers {
  import opened Points

  const THRESHOLD: int := 100_000_000_000_000

  /** "Values that are too large." */
  predicate IsWrong(p: Point) {
    p.y > THRESHOLD
  }

  /** The points over the threshold, in order. */
  function WrongPoints(points: seq<Point>): (r: seq<Point>)
    ensures |r| <= |points|
  {
    if |points| == 0 then []
    else
      var init, p := points[..|points| - 1], points[|points| - 1];
      if IsWrong(p) then WrongPoints(init) + [p] else WrongPoints(init)
  }

  /** The loop of findWrongPoints, appending each point over the threshold. */
  method FindWrongPoints(points: seq<Point>) returns (wrongPoints: seq<Point>)
    ensures wrongPoints == WrongPoints(points)
  {
    wrongPoints := [];
    for i := 0 to |points|
      invariant wrongPoints == WrongPoints(points[..i])
    {
      var point := points[i];
      assert points[..i + 1][..i] == points[..i];
      if point.y > THRESHOLD {
        wrongPoints := wrongPoints + [point];
      }
    }
    assert points[..|points|] == points;
  }

  /** Exactly the input points over the threshold are reported. */
  lemma {:induction false} WrongPointsMembers(points: seq<Point>, p: Point)
    ensures p in WrongPoints(points) <==> p in points && IsWrong(p)
  {
    if |points| > 0 {
      var init, q := points[..|points| - 1], points[|points| - 1];
      assert points == init + [q];
      WrongPointsMembers(init, p);
    }
  }

  /** The filter splits over concatenation, so it keeps the input order. */
  lemma {:induction false} WrongPointsAppend(a: seq<Point>, b: seq<Point>)
    ensures WrongPoints(a + b) == WrongPoints(a) + WrongPoints(b)
    decreases |b|
  {
    if |b| == 0 {
      assert a + b == a;
    } else {
      var init, q := b[..|b| - 1], b[|b| - 1];
      WrongPointsAppend(a, init);
      assert (a + b)[..|a + b| - 1] == a + init;
      assert (a + b)[|a + b| - 1] == q;
      if IsWrong(q) {
        assert WrongPoints(a) + WrongPoints(init) + [q] == WrongPoints(a) + (WrongPoints(init) + [q]);
      }
    }
  }

  /** A single point is reported iff it is over the threshold. */
  lemma WrongPointsSingle(p: Point)
    ensures WrongPoints([p]) == if IsWrong(p) then [p] else []
  {
    assert [p][..0] == [];
  }

  /** Points all over the threshold come back unchanged; points all under it give nothing. */
  lemma {:induction false} WrongPointsExtremes(points: seq<Point>)
    ensures (forall i :: 0 <= i < |points| ==> IsWrong(points[i])) ==> WrongPoints(points) == points
    ensures (forall i :: 0 <= i < |points| ==> !IsWrong(points[i])) ==> WrongPoints(points) == []
  {
    if |points| > 0 {
      var init := points[..|points| - 1];
      WrongPointsExtremes(init);
      assert forall i :: 0 <= i < |init| ==> init[i] == points[i];
      assert init + [points[|points| - 1]] == points;
    }
  }

  /** Every reported point is over the threshold. */
  lemma WrongPointsAllWrong(points: seq<Point>)
    ensures forall i :: 0 <= i < |WrongPoints(points)| ==> IsWrong(WrongPoints(points)[i])
  {
    forall i | 0 <= i < |WrongPoints(points)|
      ensures IsWrong(WrongPoints(points)[i])
    {
      WrongPointsMembers(points, WrongPoints(points)[i]);
    }
  }

  /** Filtering twice is filtering once. */
  lemma WrongPointsIdempotent(points: seq<Point>)
    ensures WrongPoints(WrongPoints(points)) == WrongPoints(points)
  {
    WrongPointsAllWrong(points);
    WrongPointsExtremes(WrongPoints(points));
  }

  /** (1, 5), (2, 2·10^14): only the second is too large. */
  lemma WrongPointsExample()
    ensures WrongPoints([Point(1, 5), Point(2, 200_000_000_000_000)]) == [Point(2, 200_000_000_000_000)]
  {
    var p, q := Point(1, 5), Point(2, 200_000_000_000_000);
    WrongPointsSingle(p);
    WrongPointsSingle(q);
    WrongPointsAppend([p], [q]);
    assert [p] + [q] == [p, q];
  }
}
