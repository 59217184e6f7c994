/**
 * lagrangeInterpolation: the value at x = 0 of the polynomial through the
 * given points, as the sum over i of y_i · L_i(0), where the basis value
 * L_i(0) is the product over j ≠ i of (0 - x_j) / (x_i - x_j).
 * The arithmetic is exact (real), not IEEE double.
 */
module Lagrange {
  import opened Polynomials
  import opened Points
  import opened Radix

  /** Pairwise-distinct abscissae: no denominator x_i - x_j is zero. */
  predicate Distinct(xs: seq<real>) {
    forall i, j :: 0 <= i < |xs| && 0 <= j < |xs| && i != j ==> xs[i] != xs[j]
  }

  /**
   * What the inner loop multiplies in for index j while computing point i's
   * basis. A repeated abscissa (where the source divides by zero) is outside
   * every contract below; the function yields 0 there only to be total.
   */
  function Factor(xs: seq<real>, i: nat, j: nat): real
    requires i < |xs| && j < |xs|
  {
    if i == j then 1.0
    else if xs[i] == xs[j] then 0.0
    else (0.0 - xs[j]) / (xs[i] - xs[j])
  }

  /** Point i's basis after the inner loop has visited j = 0 .. m-1. */
  function BasisUpTo(xs: seq<real>, i: nat, m: nat): real
    requires i < |xs| && m <= |xs|
  {
    if m == 0 then 1.0 else BasisUpTo(xs, i, m - 1) * Factor(xs, i, m - 1)
  }

  /** L_i(0). */
  function Basis(xs: seq<real>, i: nat): real
    requires i < |xs|
  {
    BasisUpTo(xs, i, |xs|)
  }

  /** The basis values L_0(0), ..., L_{n-1}(0). */
  function Weights(xs: seq<real>): (w: seq<real>)
    ensures |w| == |xs|
    ensures forall i :: 0 <= i < |xs| ==> w[i] == Basis(xs, i)
  {
    seq(|xs|, i requires 0 <= i < |xs| => Basis(xs, i))
  }

  /** Σ_{i < m} ys[i] · w[i]: the outer loop's accumulator after i = 0 .. m-1. */
  function DotUpTo(ys: seq<real>, w: seq<real>, m: nat): real
    requires |ys| == |w| && m <= |w|
  {
    if m == 0 then 0.0 else DotUpTo(ys, w, m - 1) + ys[m - 1] * w[m - 1]
  }

  function Dot(ys: seq<real>, w: seq<real>): real
    requires |ys| == |w|
  {
    DotUpTo(ys, w, |w|)
  }

  /** Σ_i ys[i] · L_i(0): the value at 0 of the polynomial through (xs[i], ys[i]). */
  function Interpolate(xs: seq<real>, ys: seq<real>): real
    requires |ys| == |xs|
  {
    Dot(ys, Weights(xs))
  }

  lemma DistinctXsOf(points: seq<Point>)
    requires DistinctX(points)
    ensures Distinct(XsOf(points))
  {
  }

  /** The result lagrangeInterpolation(points) promises, over exact arithmetic. */
  function ConstantTerm(points: seq<Point>): real
    requires DistinctX(points)
  {
    Interpolate(XsOf(points), YsOf(points))
  }

  /** lagrangeInterpolation: the two nested loops of the source. */
  method LagrangeInterpolation(points: seq<Point>) returns (constantTerm: real)
    requires DistinctX(points)
    ensures constantTerm == ConstantTerm(points)
  {
    ghost var xs, ys := XsOf(points), YsOf(points);
    var k := |points|;
    constantTerm := 0.0;
    for i := 0 to k
      invariant constantTerm == DotUpTo(ys, Weights(xs), i)
    {
      var x_i := points[i].x as real;
      var y_i := points[i].y as real;
      var basis := 1.0;
      for j := 0 to k
        invariant basis == BasisUpTo(xs, i, j)
      {
        var x_j := points[j].x as real;
        BasisStep(xs, i, j, basis, x_i, x_j);
        if i != j {
          basis := basis * ((0.0 - x_j) / (x_i - x_j));
        }
      }
      AccumulateStep(xs, ys, i, constantTerm, y_i, basis);
      constantTerm := constantTerm + y_i * basis;
    }
  }

  /** One pass of the inner loop, in terms of the values the loop holds. */
  lemma BasisStep(xs: seq<real>, i: nat, j: nat, basis: real, x_i: real, x_j: real)
    requires i < |xs| && j < |xs| && (i != j ==> x_i != x_j)
    requires basis == BasisUpTo(xs, i, j) && x_i == xs[i] && x_j == xs[j]
    ensures i == j ==> BasisUpTo(xs, i, j + 1) == basis
    ensures i != j ==> x_i - x_j != 0.0
    ensures i != j ==> BasisUpTo(xs, i, j + 1) == basis * ((0.0 - x_j) / (x_i - x_j))
  {
    BasisUpToStep(xs, i, j + 1);
  }

  /** One pass of the outer loop, in terms of the values the loop holds. */
  lemma AccumulateStep(xs: seq<real>, ys: seq<real>, i: nat, acc: real, y_i: real, basis: real)
    requires |ys| == |xs| && i < |xs|
    requires acc == DotUpTo(ys, Weights(xs), i) && y_i == ys[i] && basis == BasisUpTo(xs, i, |xs|)
    ensures DotUpTo(ys, Weights(xs), i + 1) == acc + y_i * basis
  {
  }

  lemma BasisUpToStep(xs: seq<real>, i: nat, m: nat)
    requires i < |xs| && 0 < m <= |xs|
    ensures BasisUpTo(xs, i, m) == BasisUpTo(xs, i, m - 1) * Factor(xs, i, m - 1)
  {
  }

  // ---------------------------------------------------------------------
  // Weighted sums, for any values and weights

  lemma DotStep(ys: seq<real>, w: seq<real>, m: nat)
    requires |ys| == |w| && 0 < m <= |w|
    ensures DotUpTo(ys, w, m) == DotUpTo(ys, w, m - 1) + ys[m - 1] * w[m - 1]
  {
  }

  lemma LinearStep(s: real, s1: real, s2: real, y: real, y1: real, y2: real, b: real, p: real, q: real)
    requires s == p * s1 + q * s2 && y == p * y1 + q * y2
    ensures s + y * b == p * (s1 + y1 * b) + q * (s2 + y2 * b)
  {
  }

  lemma {:induction false} DotUpToLinear(r: seq<real>, u: seq<real>, v: seq<real>, w: seq<real>,
                                         p: real, q: real, m: nat)
    requires |r| == |w| && |u| == |w| && |v| == |w| && m <= |w|
    requires forall i :: 0 <= i < |w| ==> r[i] == p * u[i] + q * v[i]
    ensures DotUpTo(r, w, m) == p * DotUpTo(u, w, m) + q * DotUpTo(v, w, m)
  {
    if m > 0 {
      DotUpToLinear(r, u, v, w, p, q, m - 1);
      var k := m - 1;
      assert r[k] == p * u[k] + q * v[k];
      LinearStep(DotUpTo(r, w, k), DotUpTo(u, w, k), DotUpTo(v, w, k), r[k], u[k], v[k], w[k], p, q);
    }
  }

  /** A weighted sum is linear in the values. */
  lemma DotLinear(r: seq<real>, u: seq<real>, v: seq<real>, w: seq<real>, p: real, q: real)
    requires |r| == |w| && |u| == |w| && |v| == |w|
    requires forall i :: 0 <= i < |w| ==> r[i] == p * u[i] + q * v[i]
    ensures Dot(r, w) == p * Dot(u, w) + q * Dot(v, w)
  {
    DotUpToLinear(r, u, v, w, p, q, |w|);
  }

  lemma {:induction false} DotUpToExtend(ys: seq<real>, w: seq<real>, w': seq<real>, s: seq<real>, m: nat)
    requires |ys| == |w'| == |w| + 1 && |s| == |w| && m <= |w|
    requires forall i :: 0 <= i < |w| ==> ys[i] * w'[i] == s[i] * w[i]
    ensures DotUpTo(ys, w', m) == DotUpTo(s, w, m)
  {
    if m > 0 {
      DotUpToExtend(ys, w, w', s, m - 1);
      var k := m - 1;
      assert ys[k] * w'[k] == s[k] * w[k];
    }
  }

  /** Old terms rewritten one by one, plus one new term. */
  lemma DotExtend(ys: seq<real>, w: seq<real>, w': seq<real>, s: seq<real>)
    requires |ys| == |w'| == |w| + 1 && |s| == |w|
    requires forall i :: 0 <= i < |w| ==> ys[i] * w'[i] == s[i] * w[i]
    ensures Dot(ys, w') == Dot(s, w) + ys[|w|] * w'[|w|]
  {
    DotUpToExtend(ys, w, w', s, |w|);
  }

  // ---------------------------------------------------------------------
  // Adding one abscissa a at the end.

  lemma DistinctInit(xs: seq<real>, a: real)
    requires Distinct(xs + [a])
    ensures Distinct(xs)
    ensures forall j :: 0 <= j < |xs| ==> xs[j] != a
  {
    var xs' := xs + [a];
    assert forall j :: 0 <= j < |xs| ==> xs'[j] == xs[j];
    assert xs'[|xs|] == a;
  }

  lemma {:induction false} BasisUpToPrefix(xs: seq<real>, a: real, i: nat, m: nat)
    requires i < |xs| && m <= |xs|
    ensures BasisUpTo(xs + [a], i, m) == BasisUpTo(xs, i, m)
  {
    if m > 0 {
      BasisUpToPrefix(xs, a, i, m - 1);
      assert (xs + [a])[i] == xs[i] && (xs + [a])[m - 1] == xs[m - 1];
    }
  }

  /** An old point's basis gains the one factor (0 - a) / (x_i - a). */
  lemma BasisExtend(xs: seq<real>, a: real, i: nat)
    requires i < |xs| && xs[i] != a
    ensures Basis(xs + [a], i) == Basis(xs, i) * ((0.0 - a) / (xs[i] - a))
  {
    BasisUpToPrefix(xs, a, i, |xs|);
    assert (xs + [a])[i] == xs[i] && (xs + [a])[|xs|] == a;
  }

  /** The first |xs| values, each multiplied by its factor (0 - a) / (x_i - a). */
  function Scaled(xs: seq<real>, a: real, ys: seq<real>): (r: seq<real>)
    requires |ys| == |xs| + 1 && forall j :: 0 <= j < |xs| ==> xs[j] != a
    ensures |r| == |xs|
    ensures forall i :: 0 <= i < |xs| ==> r[i] == ys[i] * ((0.0 - a) / (xs[i] - a))
  {
    seq(|xs|, i requires 0 <= i < |xs| => ys[i] * ((0.0 - a) / (xs[i] - a)))
  }

  function Ones(n: nat): (r: seq<real>)
    ensures |r| == n && forall i :: 0 <= i < n ==> r[i] == 1.0
  {
    seq(n, _ => 1.0)
  }

  /** w holds the basis values L_0(0), ..., L_{n-1}(0) of xs. */
  predicate IsWeights(xs: seq<real>, w: seq<real>) {
    |w| == |xs| && forall i :: 0 <= i < |xs| ==> w[i] == Basis(xs, i)
  }

  lemma WeightsAre(xs: seq<real>)
    ensures IsWeights(xs, Weights(xs))
  {
  }

  lemma ExtendTerm(y: real, b: real, b': real, f: real, s: real)
    requires b' == b * f && s == y * f
    ensures y * b' == s * b
  {
  }

  /**
   * Interpolating through xs + [a] with weights w': the old points with their
   * values scaled by (0 - a) / (x_i - a) against the old weights w, plus the
   * new point's term.
   */
  lemma ExtendDot(xs: seq<real>, a: real, ys: seq<real>, w: seq<real>, w': seq<real>, s: seq<real>)
    requires |ys| == |xs| + 1 && |s| == |xs| && forall j :: 0 <= j < |xs| ==> xs[j] != a
    requires IsWeights(xs, w) && IsWeights(xs + [a], w')
    requires forall i :: 0 <= i < |xs| ==> s[i] == ys[i] * ((0.0 - a) / (xs[i] - a))
    ensures Dot(ys, w') == Dot(s, w) + ys[|xs|] * w'[|xs|]
  {
    forall i | 0 <= i < |xs|
      ensures ys[i] * w'[i] == s[i] * w[i]
    {
      BasisExtend(xs, a, i);
      ExtendTerm(ys[i], w[i], w'[i], (0.0 - a) / (xs[i] - a), s[i]);
    }
    DotExtend(ys, w, w', s);
  }

  // ---------------------------------------------------------------------
  // The new point's basis value.

  /** Π_{j < m} (t - xs[j]). */
  function NodeUpTo(xs: seq<real>, t: real, m: nat): real
    requires m <= |xs|
  {
    if m == 0 then 1.0 else NodeUpTo(xs, t, m - 1) * (t - xs[m - 1])
  }

  lemma {:induction false} NodeUpToIsNodeProd(xs: seq<real>, t: real, m: nat)
    requires m <= |xs|
    ensures NodeUpTo(xs, t, m) == NodeProd(xs[..m], t)
  {
    if m > 0 {
      NodeUpToIsNodeProd(xs, t, m - 1);
      assert xs[..m][..m - 1] == xs[..m - 1];
    }
  }

  lemma FactorLast(xs: seq<real>, a: real, j: nat)
    requires j < |xs| && xs[j] != a
    ensures Factor(xs + [a], |xs|, j) == (0.0 - xs[j]) / (a - xs[j])
  {
    assert (xs + [a])[|xs|] == a && (xs + [a])[j] == xs[j];
  }

  lemma BasisLastStep(b: real, pa: real, p0: real, f: real, da: real, dz: real, b': real, pa': real, p0': real)
    requires b * pa == p0 && da != 0.0 && f == dz / da
    requires b' == b * f && pa' == pa * da && p0' == p0 * dz
    ensures b' * pa' == p0'
  {
    assert f * da == dz;
    assert (b * f) * (pa * da) == (b * pa) * (f * da);
  }

  /** One factor of the basis, over values: b = BasisUpTo(ys, i, m), bk = BasisUpTo(ys, i, k), f = Factor(ys, i, k). */
  lemma BasisUpToUnfold(ys: seq<real>, i: nat, m: nat, k: nat, b: real, bk: real, f: real)
    requires i < |ys| && m <= |ys| && k + 1 == m
    requires b == BasisUpTo(ys, i, m) && bk == BasisUpTo(ys, i, k) && f == Factor(ys, i, k)
    ensures b == bk * f
  {
  }

  /** One factor of the node product, over values: p = NodeUpTo(xs, t, m), pk = NodeUpTo(xs, t, k), d = t - xs[k]. */
  lemma NodeUpToUnfold(xs: seq<real>, t: real, m: nat, k: nat, p: real, pk: real, d: real)
    requires m <= |xs| && k + 1 == m
    requires p == NodeUpTo(xs, t, m) && pk == NodeUpTo(xs, t, k) && d == t - xs[k]
    ensures p == pk * d
  {
  }

  lemma {:induction false} BasisLastUpTo(xs: seq<real>, a: real, m: nat, b: real, pa: real, p0: real)
    requires m <= |xs| && forall j :: 0 <= j < |xs| ==> xs[j] != a
    requires b == BasisUpTo(xs + [a], |xs|, m) && pa == NodeUpTo(xs, a, m) && p0 == NodeUpTo(xs, 0.0, m)
    ensures b * pa == p0
  {
    if m > 0 {
      var k := m - 1;
      var bk, pak, p0k := BasisUpTo(xs + [a], |xs|, k), NodeUpTo(xs, a, k), NodeUpTo(xs, 0.0, k);
      BasisLastUpTo(xs, a, k, bk, pak, p0k);
      var xm := xs[k];
      var f, da, dz := Factor(xs + [a], |xs|, k), a - xm, 0.0 - xm;
      assert da != 0.0 && f == dz / da by { FactorLast(xs, a, k); }
      BasisUpToUnfold(xs + [a], |xs|, m, k, b, bk, f);
      NodeUpToUnfold(xs, a, m, k, pa, pak, da);
      NodeUpToUnfold(xs, 0.0, m, k, p0, p0k, dz);
      BasisLastStep(bk, pak, p0k, f, da, dz, b, pa, p0);
    }
  }


  lemma OneTimes(b0: real, b1: real, f: real, pa: real, p0: real)
    requires b1 == b0 * f && f == 1.0 && b0 * pa == p0
    ensures b1 * pa == p0
  {
  }

  /** The new point's basis: Π_j (0 - x_j) / Π_j (a - x_j). */
  lemma BasisLast(xs: seq<real>, a: real, b: real, pa: real, p0: real)
    requires forall j :: 0 <= j < |xs| ==> xs[j] != a
    requires b == Basis(xs + [a], |xs|) && pa == NodeUpTo(xs, a, |xs|) && p0 == NodeUpTo(xs, 0.0, |xs|)
    ensures b * pa == p0
  {
    var b0 := BasisUpTo(xs + [a], |xs|, |xs|);
    BasisLastUpTo(xs, a, |xs|, b0, pa, p0);
    assert |xs + [a]| == |xs| + 1;
    BasisUpToStep(xs + [a], |xs|, |xs| + 1);
    OneTimes(b0, b, Factor(xs + [a], |xs|, |xs|), pa, p0);
  }

  // ---------------------------------------------------------------------
  // Partition of unity and exactness, by induction on the number of points.
  // Every lemma here speaks of value sequences (ys, the quotient's values qs,
  // the weights w and w') given as parameters, each tied to its definition by
  // a precondition.

  lemma PartitionValue(a: real, d: real, xi: real, qi: real, s: real)
    requires d != 0.0 && xi != a && 0.0 == (xi - a) * qi + d && s == 1.0 * ((0.0 - a) / (xi - a))
    ensures s == (a / d) * qi + 0.0 * qi
  {
    var f := (0.0 - a) / (xi - a);
    assert f * (xi - a) == 0.0 - a;
    assert qi * (xi - a) == 0.0 - d;
    assert (a / d) * qi * (xi - a) == (a / d) * (0.0 - d);
    assert (a / d) * qi * (xi - a) == f * (xi - a);
  }

  lemma PartitionFinish(a: real, d: real, n0: real, q0: real, q0': real, bl: real, r: real)
    requires d != 0.0 && q0 == q0'
    requires bl * d == n0 && n0 == (0.0 - a) * q0 + d
    requires r == (a / d) * q0' + 0.0 * q0' + 1.0 * bl
    ensures r == 1.0
  {
    var w := a / d;
    assert w * d == a;
    assert r * d == (w * d) * q0 + bl * d;
    assert r * d == a * q0 + n0;
    assert (r - 1.0) * d == 0.0;
  }

  /** The partition step: 0 = (x_i - a) · qs[i] + d at the old nodes, d = p(a), n0 = p(0), q0 = q(0). */
  lemma OnesStep(xs: seq<real>, a: real, w: seq<real>, w': seq<real>, o: seq<real>, qs: seq<real>,
                 d: real, q0: real, n0: real)
    requires |qs| == |xs| && |o| == |xs| && d != 0.0 && forall j :: 0 <= j < |xs| ==> xs[j] != a
    requires IsWeights(xs, w) && IsWeights(xs + [a], w')
    requires forall i :: 0 <= i < |xs| ==> o[i] == 1.0 * ((0.0 - a) / (xs[i] - a))
    requires forall i :: 0 <= i < |xs| ==> 0.0 == (xs[i] - a) * qs[i] + d
    requires Dot(qs, w) == q0 && n0 == (0.0 - a) * q0 + d && w'[|xs|] * d == n0
    ensures Dot(Ones(|xs| + 1), w') == 1.0
  {
    ExtendDot(xs, a, Ones(|xs| + 1), w, w', o);
    forall i | 0 <= i < |xs|
      ensures o[i] == (a / d) * qs[i] + 0.0 * qs[i]
    {
      PartitionValue(a, d, xs[i], qs[i], o[i]);
    }
    DotLinear(o, qs, qs, w, a / d, 0.0);
    PartitionFinish(a, d, n0, q0, Dot(qs, w), w'[|xs|], Dot(Ones(|xs| + 1), w'));
  }

  lemma QuotientAtRoots(xs: seq<real>, a: real, p: seq<real>, qs: seq<real>, d: real)
    requires |qs| == |xs| && forall i :: 0 <= i < |xs| ==> Eval(p, xs[i]) == 0.0
    requires forall i :: 0 <= i < |xs| ==> qs[i] == Eval(Quotient(p, a), xs[i])
    requires d == Eval(p, a)
    ensures forall i :: 0 <= i < |xs| ==> 0.0 == (xs[i] - a) * qs[i] + d
  {
    forall i | 0 <= i < |xs|
      ensures 0.0 == (xs[i] - a) * qs[i] + d
    {
      QuotientSpec(p, a, xs[i], 0.0, qs[i], d);
    }
  }

  /** Partition of unity, given a polynomial p that vanishes at every old node but not at a. */
  lemma {:induction false} PartitionWith(xs: seq<real>, a: real, p: seq<real>, w: seq<real>, w': seq<real>,
                                         o: seq<real>, qs: seq<real>, d: real, n0: real)
    requires Distinct(xs) && forall j :: 0 <= j < |xs| ==> xs[j] != a
    requires IsWeights(xs, w) && IsWeights(xs + [a], w')
    requires |o| == |xs| && forall i :: 0 <= i < |xs| ==> o[i] == 1.0 * ((0.0 - a) / (xs[i] - a))
    requires |qs| == |xs| && forall i :: 0 <= i < |xs| ==> qs[i] == Eval(Quotient(p, a), xs[i])
    requires |p| <= |xs| + 1 && forall i :: 0 <= i < |xs| ==> Eval(p, xs[i]) == 0.0
    requires d == Eval(p, a) && n0 == Eval(p, 0.0) && d != 0.0 && w'[|xs|] * d == n0
    ensures Dot(Ones(|xs| + 1), w') == 1.0
    decreases |xs| + 1, 0
  {
    QuotientAtRoots(xs, a, p, qs, d);
    ExactWith(xs, qs, Quotient(p, a), w);
    var q0 := Eval(Quotient(p, a), 0.0);
    QuotientSpec(p, a, 0.0, n0, q0, d);
    OnesStep(xs, a, w, w', o, qs, d, q0, n0);
  }

  /** The monic polynomial with roots xs vanishes at every x_i. */
  lemma FromRootsVanishes(xs: seq<real>)
    ensures forall i :: 0 <= i < |xs| ==> Eval(FromRoots(xs), xs[i]) == 0.0
  {
    forall i | 0 <= i < |xs|
      ensures Eval(FromRoots(xs), xs[i]) == 0.0
    {
      FromRootsSpec(xs, xs[i]);
      NodeProdAtRoot(xs, i);
    }
  }

  lemma NodeValue(xs: seq<real>, t: real)
    ensures NodeUpTo(xs, t, |xs|) == Eval(FromRoots(xs), t)
  {
    FromRootsSpec(xs, t);
    NodeUpToIsNodeProd(xs, t, |xs|);
    assert xs[..|xs|] == xs;
  }

  /** The new point's basis, against the monic polynomial with roots xs: L_n(0) · p(a) = p(0), where p(a) ≠ 0. */
  lemma LastWeight(xs: seq<real>, a: real, b: real, pa: real, p0: real)
    requires forall j :: 0 <= j < |xs| ==> xs[j] != a
    requires b == Basis(xs + [a], |xs|) && pa == Eval(FromRoots(xs), a) && p0 == Eval(FromRoots(xs), 0.0)
    ensures pa != 0.0 && b * pa == p0
  {
    FromRootsSpec(xs, a);
    NodeProdElsewhere(xs, a);
    NodeValue(xs, a);
    NodeValue(xs, 0.0);
    BasisLast(xs, a, b, pa, p0);
  }

  /** The basis values sum to 1: interpolating the constant 1 gives 1. */
  lemma {:induction false} PartitionOfUnity(xs: seq<real>, a: real, w: seq<real>, w': seq<real>)
    requires Distinct(xs + [a]) && IsWeights(xs, w) && IsWeights(xs + [a], w')
    ensures Dot(Ones(|xs| + 1), w') == 1.0
    decreases |xs| + 1, 1
  {
    DistinctInit(xs, a);
    FromRootsVanishes(xs);
    var p := FromRoots(xs);
    var d, n0 := Eval(p, a), Eval(p, 0.0);
    LastWeight(xs, a, w'[|xs|], d, n0);
    PartitionWith(xs, a, p, w, w', Scaled(xs, a, Ones(|xs| + 1)), EvalAll(Quotient(p, a), xs), d, n0);
  }

  /** The scaled constant against the old weights, plus the new point's basis, is 1. */
  lemma {:induction false} OnesComplement(xs: seq<real>, a: real, w: seq<real>, w': seq<real>, o: seq<real>)
    requires Distinct(xs + [a]) && IsWeights(xs, w) && IsWeights(xs + [a], w')
    requires forall j :: 0 <= j < |xs| ==> xs[j] != a
    requires |o| == |xs| && forall i :: 0 <= i < |xs| ==> o[i] == 1.0 * ((0.0 - a) / (xs[i] - a))
    ensures Dot(o, w) + 1.0 * w'[|xs|] == 1.0
    decreases |xs| + 1, 2
  {
    PartitionOfUnity(xs, a, w, w');
    ExtendDot(xs, a, Ones(|xs| + 1), w, w', o);
  }

  /** For a non-empty list of distinct nodes the basis values L_i(0) sum to 1. */
  lemma WeightsSumToOne(xs: seq<real>)
    requires Distinct(xs) && |xs| > 0
    ensures Dot(Ones(|xs|), Weights(xs)) == 1.0
  {
    var init, a := xs[..|xs| - 1], xs[|xs| - 1];
    assert xs == init + [a];
    WeightsAre(init);
    WeightsAre(xs);
    PartitionOfUnity(init, a, Weights(init), Weights(xs));
  }

  lemma SplitValue(a: real, xi: real, qi: real, ca: real, ci: real, s: real, o: real)
    requires xi != a && ci == (xi - a) * qi + ca
    requires s == ci * ((0.0 - a) / (xi - a)) && o == 1.0 * ((0.0 - a) / (xi - a))
    ensures s == (0.0 - a) * qi + ca * o
  {
    var f := (0.0 - a) / (xi - a);
    assert f * (xi - a) == 0.0 - a;
    assert ci * f == (xi - a) * qi * f + ca * f;
    assert (xi - a) * qi * f == qi * (f * (xi - a));
  }

  lemma ExactFinish(a: real, q0: real, q0': real, ca: real, c0: real, so: real, bl: real, r: real)
    requires q0 == q0'
    requires r == (0.0 - a) * q0' + ca * so + ca * bl
    requires so + 1.0 * bl == 1.0
    requires c0 == (0.0 - a) * q0 + ca
    ensures r == c0
  {
    assert ca * so + ca * bl == ca * (so + bl);
  }

  lemma SplitValues(xs: seq<real>, a: real, ys: seq<real>, qs: seq<real>, s: seq<real>, o: seq<real>)
    requires |ys| == |xs| + 1 && |qs| == |xs| && |s| == |xs| && |o| == |xs|
    requires forall j :: 0 <= j < |xs| ==> xs[j] != a
    requires forall i :: 0 <= i < |xs| ==> s[i] == ys[i] * ((0.0 - a) / (xs[i] - a))
    requires forall i :: 0 <= i < |xs| ==> o[i] == 1.0 * ((0.0 - a) / (xs[i] - a))
    requires forall i :: 0 <= i < |xs| ==> ys[i] == (xs[i] - a) * qs[i] + ys[|xs|]
    ensures forall i :: 0 <= i < |xs| ==> s[i] == (0.0 - a) * qs[i] + ys[|xs|] * o[i]
  {
    forall i | 0 <= i < |xs|
      ensures s[i] == (0.0 - a) * qs[i] + ys[|xs|] * o[i]
    {
      SplitValue(a, xs[i], qs[i], ys[|xs|], ys[i], s[i], o[i]);
    }
  }

  /** The exactness step: ys[i] = (x_i - a) · qs[i] + ys[n] at the old nodes, q0 = q(0), c0 = c(0). */
  lemma ExactStep(xs: seq<real>, a: real, ys: seq<real>, qs: seq<real>, w: seq<real>, w': seq<real>,
                  s: seq<real>, o: seq<real>, q0: real, c0: real)
    requires |ys| == |xs| + 1 && |qs| == |xs| && |s| == |xs| && |o| == |xs|
    requires forall j :: 0 <= j < |xs| ==> xs[j] != a
    requires IsWeights(xs, w) && IsWeights(xs + [a], w')
    requires forall i :: 0 <= i < |xs| ==> s[i] == ys[i] * ((0.0 - a) / (xs[i] - a))
    requires forall i :: 0 <= i < |xs| ==> o[i] == 1.0 * ((0.0 - a) / (xs[i] - a))
    requires forall i :: 0 <= i < |xs| ==> ys[i] == (xs[i] - a) * qs[i] + ys[|xs|]
    requires Dot(qs, w) == q0 && c0 == (0.0 - a) * q0 + ys[|xs|]
    requires Dot(o, w) + 1.0 * w'[|xs|] == 1.0
    ensures Dot(ys, w') == c0
  {
    var ca, bl, so, dq, r := ys[|xs|], w'[|xs|], Dot(o, w), Dot(qs, w), Dot(ys, w');
    ExactDot(xs, a, ys, qs, w, w', s, o, ca, bl, so, dq, r);
    ExactFinish(a, q0, dq, ca, c0, so, bl, r);
  }

  /** The weighted sum of the extended values, split into the quotient part and the constant part. */
  lemma ExactDot(xs: seq<real>, a: real, ys: seq<real>, qs: seq<real>, w: seq<real>, w': seq<real>,
                 s: seq<real>, o: seq<real>, ca: real, bl: real, so: real, dq: real, r: real)
    requires |ys| == |xs| + 1 && |qs| == |xs| && |s| == |xs| && |o| == |xs|
    requires forall j :: 0 <= j < |xs| ==> xs[j] != a
    requires IsWeights(xs, w) && IsWeights(xs + [a], w')
    requires forall i :: 0 <= i < |xs| ==> s[i] == ys[i] * ((0.0 - a) / (xs[i] - a))
    requires forall i :: 0 <= i < |xs| ==> o[i] == 1.0 * ((0.0 - a) / (xs[i] - a))
    requires forall i :: 0 <= i < |xs| ==> ys[i] == (xs[i] - a) * qs[i] + ys[|xs|]
    requires ca == ys[|xs|] && bl == w'[|xs|] && so == Dot(o, w) && dq == Dot(qs, w) && r == Dot(ys, w')
    ensures r == (0.0 - a) * dq + ca * so + ca * bl
  {
    ExtendDot(xs, a, ys, w, w', s);
    SplitValues(xs, a, ys, qs, s, o);
    DotLinear(s, qs, o, w, 0.0 - a, ca);
  }


  lemma QuotientAtNodes(xs: seq<real>, a: real, c: seq<real>, ys: seq<real>, qs: seq<real>)
    requires |ys| == |xs| + 1 && |qs| == |xs|
    requires forall i :: 0 <= i < |xs| ==> ys[i] == Eval(c, xs[i])
    requires ys[|xs|] == Eval(c, a)
    requires forall i :: 0 <= i < |xs| ==> qs[i] == Eval(Quotient(c, a), xs[i])
    ensures forall i :: 0 <= i < |xs| ==> ys[i] == (xs[i] - a) * qs[i] + ys[|xs|]
  {
    forall i | 0 <= i < |xs|
      ensures ys[i] == (xs[i] - a) * qs[i] + ys[|xs|]
    {
      QuotientSpec(c, a, xs[i], ys[i], qs[i], ys[|xs|]);
    }
  }

  /** One induction step of exactness, on xs + [a], with the old weights w and the quotient's values qs. */
  lemma {:induction false} ExactExtend(xs: seq<real>, a: real, ys: seq<real>, c: seq<real>,
                                       w: seq<real>, w': seq<real>, qs: seq<real>)
    requires Distinct(xs + [a]) && |c| <= |xs| + 1
    requires IsWeights(xs, w) && IsWeights(xs + [a], w')
    requires |ys| == |xs| + 1 && forall i :: 0 <= i < |xs| ==> ys[i] == Eval(c, xs[i])
    requires ys[|xs|] == Eval(c, a)
    requires |qs| == |xs| && forall i :: 0 <= i < |xs| ==> qs[i] == Eval(Quotient(c, a), xs[i])
    ensures Dot(ys, w') == Eval(c, 0.0)
    decreases |xs| + 1, 3
  {
    DistinctInit(xs, a);
    QuotientAtNodes(xs, a, c, ys, qs);
    ExactWith(xs, qs, Quotient(c, a), w);
    var o := Scaled(xs, a, Ones(|xs| + 1));
    OnesComplement(xs, a, w, w', o);
    var q0, c0 := Eval(Quotient(c, a), 0.0), Eval(c, 0.0);
    QuotientSpec(c, a, 0.0, c0, q0, ys[|xs|]);
    ExactStep(xs, a, ys, qs, w, w', Scaled(xs, a, ys), o, q0, c0);
  }

  /** Exactness against given weights w of xs and values ys = c(xs). */
  lemma {:induction false} ExactWith(xs: seq<real>, ys: seq<real>, c: seq<real>, w: seq<real>)
    requires Distinct(xs) && |c| <= |xs| && IsWeights(xs, w)
    requires |ys| == |xs| && forall i :: 0 <= i < |xs| ==> ys[i] == Eval(c, xs[i])
    ensures Dot(ys, w) == Eval(c, 0.0)
    decreases |xs|, 4
  {
    if |xs| == 0 {
      assert c == [];
    } else {
      var n := |xs| - 1;
      var init, a := xs[..n], xs[n];
      assert xs == init + [a];
      WeightsAre(init);
      ExactExtend(init, a, ys, c, Weights(init), w, EvalAll(Quotient(c, a), init));
    }
  }

  /**
   * Interpolation through distinct points is exact for every polynomial of
   * degree below the number of points: it returns the polynomial's value at 0.
   */
  lemma Exact(xs: seq<real>, ys: seq<real>, c: seq<real>)
    requires Distinct(xs) && |c| <= |xs|
    requires |ys| == |xs| && forall i :: 0 <= i < |xs| ==> ys[i] == Eval(c, xs[i])
    ensures Interpolate(xs, ys) == Eval(c, 0.0)
  {
    WeightsAre(xs);
    ExactWith(xs, ys, c, Weights(xs));
  }

  // ---------------------------------------------------------------------
  // What lagrangeInterpolation promises about its points

  /** Interpolation is linear in the y values: r = p·u + q·v gives p·I(u) + q·I(v). */
  lemma InterpolateLinear(xs: seq<real>, r: seq<real>, u: seq<real>, v: seq<real>, p: real, q: real)
    requires |r| == |xs| && |u| == |xs| && |v| == |xs|
    requires forall i :: 0 <= i < |xs| ==> r[i] == p * u[i] + q * v[i]
    ensures Interpolate(xs, r) == p * Interpolate(xs, u) + q * Interpolate(xs, v)
  {
    DotLinear(r, u, v, Weights(xs), p, q);
  }

  /**
   * Shamir reconstruction: when every point lies on a polynomial c of degree
   * below the number of points, the result is c's constant coefficient.
   */
  lemma ConstantTermRecoversSecret(points: seq<Point>, c: seq<real>)
    requires DistinctX(points) && |c| <= |points|
    requires forall i :: 0 <= i < |points| ==> points[i].y as real == Eval(c, points[i].x as real)
    ensures ConstantTerm(points) == if |c| == 0 then 0.0 else c[0]
  {
    DistinctXsOf(points);
    Exact(XsOf(points), YsOf(points), c);
    EvalAtZero(c);
  }

  /** The basis values sum to 1: equal y values give back that value. */
  lemma ConstantTermOfConstant(points: seq<Point>, k: Int64)
    requires DistinctX(points) && |points| > 0
    requires forall i :: 0 <= i < |points| ==> points[i].y == k
    ensures ConstantTerm(points) == k as real
  {
    var c := [k as real];
    forall i | 0 <= i < |points|
      ensures points[i].y as real == Eval(c, points[i].x as real)
    {
      assert c[1..] == [];
    }
    ConstantTermRecoversSecret(points, c);
  }

  /** No points give 0; one point (x, y) gives y, its basis staying 1. */
  lemma ConstantTermSmall(points: seq<Point>)
    requires |points| <= 1
    ensures DistinctX(points)
    ensures ConstantTerm(points) == if |points| == 0 then 0.0 else points[0].y as real
  {
    if |points| == 1 {
      ConstantTermOfConstant(points, points[0].y);
    }
  }

  /** (1, 5), (2, 9) lie on 1 + 4x: the secret is 1. */
  lemma SecretOfTwoShares()
    ensures DistinctX([Point(1, 5), Point(2, 9)])
    ensures ConstantTerm([Point(1, 5), Point(2, 9)]) == 1.0
  {
    var points := [Point(1, 5), Point(2, 9)];
    var c := [1.0, 4.0];
    assert c[1..][1..] == [];
    assert Eval(c, 1.0) == 5.0 && Eval(c, 2.0) == 9.0;
    ConstantTermRecoversSecret(points, c);
  }

  /** (1, 6), (2, 11), (3, 18) lie on 3 + 2x + x²: the secret is 3. */
  lemma SecretOfThreeShares()
    ensures DistinctX([Point(1, 6), Point(2, 11), Point(3, 18)])
    ensures ConstantTerm([Point(1, 6), Point(2, 11), Point(3, 18)]) == 3.0
  {
    var points := [Point(1, 6), Point(2, 11), Point(3, 18)];
    var c := [3.0, 2.0, 1.0];
    assert c[1..][1..][1..] == [];
    assert Eval(c, 1.0) == 6.0 && Eval(c, 2.0) == 11.0 && Eval(c, 3.0) == 18.0;
    ConstantTermRecoversSecret(points, c);
  }
}
