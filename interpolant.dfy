/**
 * An interpolating polynomial for the points lagrangeInterpolation receives,
 * built in Newton's form. It passes through every point and has degree below
 * the number of points, so by the exactness theorem the loops compute its
 * value at 0. A reordering of the points passes through the same polynomial,
 * so the reconstructed secret does not depend on the order of the points.
 */
module Interpolant {
  import opened Polynomials
  import opened Points
  import opened Lagrange

  /** 1/d, and 0 for d = 0 only so that it is total. */
  function Inv(d: real): real {
    if d == 0.0 then 0.0 else 1.0 / d
  }

  /**
   * Newton's form of the interpolating polynomial of the first m points:
   * P_0 = 0 and P_{n+1} = P_n + c·Π_{j<n}(X - x_j), where c makes P_{n+1}(x_n) = y_n.
   */
  function NewtonPoly(xs: seq<real>, ys: seq<real>, m: nat): (p: seq<real>)
    requires |ys| == |xs| && m <= |xs|
    ensures |p| <= m
  {
    if m == 0 then []
    else
      var n := m - 1;
      var r := NewtonPoly(xs, ys, n);
      Add(r, Scale(FromRoots(xs[..n]), NewtonCoeff(xs, ys, n, r)))
  }

  /** The coefficient that corrects r at node n: (y_n - r(x_n)) / Π_{j<n}(x_n - x_j). */
  function NewtonCoeff(xs: seq<real>, ys: seq<real>, n: nat, r: seq<real>): real
    requires |ys| == |xs| && n < |xs|
  {
    Inv(NodeProd(xs[..n], xs[n])) * (ys[n] - Eval(r, xs[n]))
  }

  /** P_m passes through each of the first m points; v is its value at node k. */
  lemma {:induction false} NewtonAtNodes(xs: seq<real>, ys: seq<real>, m: nat, k: nat, v: real)
    requires Distinct(xs) && |ys| == |xs| && k < m <= |xs|
    requires v == Eval(NewtonPoly(xs, ys, m), xs[k])
    ensures v == ys[k]
  {
    var rv := Eval(NewtonPoly(xs, ys, m - 1), xs[k]);
    NewtonStep(xs, ys, m, k, v, rv);
    if k < m - 1 {
      NewtonAtNodes(xs, ys, m - 1, k, rv);
    }
  }

  /**
   * One Newton step keeps the values at the earlier nodes and hits y at the new one;
   * v = P_m(x_k) and rv = P_{m-1}(x_k).
   */
  lemma NewtonStep(xs: seq<real>, ys: seq<real>, m: nat, k: nat, v: real, rv: real)
    requires Distinct(xs) && |ys| == |xs| && k < m <= |xs|
    requires v == Eval(NewtonPoly(xs, ys, m), xs[k]) && rv == Eval(NewtonPoly(xs, ys, m - 1), xs[k])
    ensures k < m - 1 ==> v == rv
    ensures k == m - 1 ==> v == ys[k]
  {
    var n := m - 1;
    var r, w := NewtonPoly(xs, ys, n), xs[..n];
    var c, x := NewtonCoeff(xs, ys, n, r), xs[k];
    var fv := NodeProd(w, x);
    NewtonValue(xs, ys, m, x, v, rv, fv, c);
    if k < n {
      NewtonKeeps(xs, n, k, rv, c, fv, v);
    } else {
      NewtonCorrects(xs, ys, n, r, rv, c, fv, v);
    }
  }

  /** The added term vanishes at the earlier nodes, so P_m agrees with P_{m-1} there. */
  lemma NewtonKeeps(xs: seq<real>, n: nat, k: nat, rv: real, c: real, fv: real, v: real)
    requires k < n <= |xs| && fv == NodeProd(xs[..n], xs[k]) && v == rv + c * fv
    ensures v == rv
  {
    var w := xs[..n];
    assert w[k] == xs[k];
    NodeProdAtRoot(w, k);
    Unchanged(rv, c, fv, v);
  }

  /** At the new node the coefficient makes P_m hit y_n. */
  lemma NewtonCorrects(xs: seq<real>, ys: seq<real>, n: nat, r: seq<real>, rv: real, c: real, fv: real, v: real)
    requires Distinct(xs) && |ys| == |xs| && n < |xs|
    requires rv == Eval(r, xs[n]) && c == NewtonCoeff(xs, ys, n, r)
    requires fv == NodeProd(xs[..n], xs[n]) && v == rv + c * fv
    ensures v == ys[n]
  {
    var w := xs[..n];
    forall j | 0 <= j < |w|
      ensures w[j] != xs[n]
    {
      assert w[j] == xs[j];
    }
    NodeProdElsewhere(w, xs[n]);
    NewtonCoeffIs(xs, ys, n, r, fv, rv, c);
    Corrected(fv, c, ys[n], rv, v);
  }

  /** P_m(x) = P_{m-1}(x) + c·Π_{j<m-1}(x - x_j), over the values v = P_m(x), rv = P_{m-1}(x) and fv = the product. */
  lemma NewtonValue(xs: seq<real>, ys: seq<real>, m: nat, x: real, v: real, rv: real, fv: real, c: real)
    requires |ys| == |xs| && 0 < m <= |xs|
    requires v == Eval(NewtonPoly(xs, ys, m), x) && rv == Eval(NewtonPoly(xs, ys, m - 1), x)
    requires fv == NodeProd(xs[..m - 1], x) && c == NewtonCoeff(xs, ys, m - 1, NewtonPoly(xs, ys, m - 1))
    ensures v == rv + c * fv
  {
    var r, f := NewtonPoly(xs, ys, m - 1), FromRoots(xs[..m - 1]);
    var s := Scale(f, c);
    var sv := Eval(s, x);
    NewtonUnfold(xs, ys, m, NewtonPoly(xs, ys, m), r, c);
    AddSpec(r, s, x, rv, sv, v);
    FromRootsSpec(xs[..m - 1], x);
    ScaleSpec(f, c, x, fv, sv);
  }

  lemma NewtonUnfold(xs: seq<real>, ys: seq<real>, m: nat, p: seq<real>, r: seq<real>, c: real)
    requires |ys| == |xs| && 0 < m <= |xs|
    requires p == NewtonPoly(xs, ys, m) && r == NewtonPoly(xs, ys, m - 1)
    requires c == NewtonCoeff(xs, ys, m - 1, r)
    ensures p == Add(r, Scale(FromRoots(xs[..m - 1]), c))
  {
  }

  lemma NewtonCoeffIs(xs: seq<real>, ys: seq<real>, n: nat, r: seq<real>, d: real, rn: real, c: real)
    requires |ys| == |xs| && n < |xs|
    requires d == NodeProd(xs[..n], xs[n]) && rn == Eval(r, xs[n]) && c == NewtonCoeff(xs, ys, n, r)
    ensures c == Inv(d) * (ys[n] - rn)
  {
  }

  lemma Unchanged(rv: real, c: real, fv: real, v: real)
    requires fv == 0.0 && v == rv + c * fv
    ensures v == rv
  {
  }

  lemma Corrected(d: real, c: real, y: real, rn: real, v: real)
    requires d != 0.0 && c == Inv(d) * (y - rn) && v == rn + c * d
    ensures v == y
  {
    assert c * d == y - rn;
  }

  /** The interpolating polynomial passes through every point. */
  lemma Interpolates(xs: seq<real>, ys: seq<real>)
    requires Distinct(xs) && |ys| == |xs|
    ensures forall k :: 0 <= k < |xs| ==> Eval(NewtonPoly(xs, ys, |xs|), xs[k]) == ys[k]
  {
    forall k | 0 <= k < |xs|
      ensures Eval(NewtonPoly(xs, ys, |xs|), xs[k]) == ys[k]
    {
      NewtonAtNodes(xs, ys, |xs|, k, Eval(NewtonPoly(xs, ys, |xs|), xs[k]));
    }
  }

  /** What the nested loops compute is the interpolating polynomial's value at 0. */
  lemma InterpolateIsNewtonPoly(xs: seq<real>, ys: seq<real>)
    requires Distinct(xs) && |ys| == |xs|
    ensures Interpolate(xs, ys) == Eval(NewtonPoly(xs, ys, |xs|), 0.0)
  {
    Interpolates(xs, ys);
    Exact(xs, ys, NewtonPoly(xs, ys, |xs|));
  }

  // ---------------------------------------------------------------------
  // Reordering the points

  /** With distinct x, no point occurs twice. */
  lemma {:induction false} DistinctXNoRepeats(s: seq<Point>)
    requires DistinctX(s)
    ensures forall p :: multiset(s)[p] <= 1
  {
    if |s| > 0 {
      var init, last := s[..|s| - 1], s[|s| - 1];
      assert s == init + [last];
      assert DistinctX(init) by {
        forall a, b | 0 <= a < |init| && 0 <= b < |init| && a != b
          ensures init[a].x != init[b].x
        {
          assert init[a] == s[a] && init[b] == s[b];
        }
      }
      DistinctXNoRepeats(init);
      forall a | 0 <= a < |init|
        ensures init[a] != last
      {
        assert init[a] == s[a];
      }
      assert last !in multiset(init);
    }
  }

  /** Two positions holding the same point make it occur at least twice. */
  lemma CountTwo(s: seq<Point>, i: nat, j: nat)
    requires i < j < |s|
    ensures multiset(s)[s[i]] >= if s[i] == s[j] then 2 else 1
  {
    assert s == s[..j] + s[j..];
    assert s[..j][i] == s[i];
    assert s[j..][0] == s[j];
  }

  /** A reordering of points with distinct x has distinct x. */
  lemma DistinctXReordered(points: seq<Point>, points': seq<Point>)
    requires DistinctX(points) && multiset(points') == multiset(points)
    ensures DistinctX(points')
  {
    DistinctXNoRepeats(points);
    forall i, j | 0 <= i < |points'| && 0 <= j < |points'| && i != j
      ensures points'[i].x != points'[j].x
    {
      if i < j { CountTwo(points', i, j); } else { CountTwo(points', j, i); }
      assert points'[i] in multiset(points) && points'[j] in multiset(points);
      var a :| 0 <= a < |points| && points[a] == points'[i];
      var b :| 0 <= b < |points| && points[b] == points'[j];
    }
  }

  /**
   * With exact arithmetic the secret does not depend on the order of the
   * selected points: any reordering gives the same constant term.
   */
  lemma ConstantTermOrderIndependent(points: seq<Point>, points': seq<Point>)
    requires DistinctX(points) && multiset(points') == multiset(points)
    ensures DistinctX(points')
    ensures ConstantTerm(points') == ConstantTerm(points)
  {
    DistinctXReordered(points, points');
    DistinctXsOf(points);
    DistinctXsOf(points');
    var xs, ys, xs', ys' := XsOf(points), YsOf(points), XsOf(points'), YsOf(points');
    assert |points'| == |points| by {
      assert |multiset(points')| == |multiset(points)|;
    }
    var p := NewtonPoly(xs, ys, |xs|);
    Interpolates(xs, ys);
    forall i | 0 <= i < |xs'|
      ensures ys'[i] == Eval(p, xs'[i])
    {
      assert points'[i] in multiset(points);
      var a :| 0 <= a < |points| && points[a] == points'[i];
      assert xs[a] == xs'[i] && ys[a] == ys'[i];
    }
    Exact(xs, ys, p);
    Exact(xs', ys', p);
  }
}
