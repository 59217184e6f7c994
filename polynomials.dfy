/**
 * Polynomials over the reals as coefficient lists, lowest degree first:
 * [c0, c1, ..., cm] stands for c0 + c1·x + ... + cm·x^m, so a list of length
 * k is a polynomial of degree below k. Used to state and prove what the
 * Lagrange interpolation computes.
 */
module Polynomials {

  /** The value at x, by Horner's rule. */
  function Eval(c: seq<real>, x: real): real
    decreases |c|
  {
    if |c| == 0 then 0.0 else c[0] + x * Eval(c[1..], x)
  }

  /** The values at every x of xs, in order. */
  function EvalAll(c: seq<real>, xs: seq<real>): (ys: seq<real>)
    ensures |ys| == |xs|
    ensures forall i :: 0 <= i < |xs| ==> ys[i] == Eval(c, xs[i])
  {
    seq(|xs|, i requires 0 <= i < |xs| => Eval(c, xs[i]))
  }

  /** A polynomial's value at 0 is its constant coefficient. */
  lemma EvalAtZero(c: seq<real>)
    ensures Eval(c, 0.0) == if |c| == 0 then 0.0 else c[0]
  {
  }

  /** One step of Horner's rule, over values: v = c(x), h = c[0], tv = c[1..](x). */
  lemma EvalStep(c: seq<real>, x: real, v: real, h: real, tv: real)
    requires |c| > 0 && v == Eval(c, x) && h == c[0] && tv == Eval(c[1..], x)
    ensures v == h + x * tv
  {
  }

  /** The quotient of c by (x - a), by synthetic division. */
  function Quotient(c: seq<real>, a: real): (q: seq<real>)
    ensures |q| == if |c| == 0 then 0 else |c| - 1
    decreases |c|
  {
    if |c| <= 1 then [] else [Eval(c[1..], a)] + Quotient(c[1..], a)
  }

  /**
   * Division with remainder by (x - a): c(x) == (x - a)·q(x) + c(a), stated
   * over the values cx = c(x), qx = q(x) and ca = c(a).
   */
  lemma {:induction false} QuotientSpec(c: seq<real>, a: real, x: real, cx: real, qx: real, ca: real)
    requires cx == Eval(c, x) && qx == Eval(Quotient(c, a), x) && ca == Eval(c, a)
    ensures cx == (x - a) * qx + ca
    decreases |c|
  {
    if |c| == 1 {
      assert c[1..] == [];
      EvalStep(c, x, cx, c[0], 0.0);
      EvalStep(c, a, ca, c[0], 0.0);
    } else if |c| > 1 {
      var t := c[1..];
      var qt := Quotient(t, a);
      var ta, tx, qtx := Eval(t, a), Eval(t, x), Eval(qt, x);
      QuotientSpec(t, a, x, tx, qtx, ta);
      var q := Quotient(c, a);
      assert q[1..] == qt && q[0] == ta;
      EvalStep(q, x, qx, ta, qtx);
      EvalStep(c, x, cx, c[0], tx);
      EvalStep(c, a, ca, c[0], ta);
      QuotientStep(c[0], a, x, ta, tx, qtx, cx, qx, ca);
    }
  }

  lemma QuotientStep(c0: real, a: real, x: real, ta: real, tx: real, qtx: real, cx: real, qx: real, ca: real)
    requires tx == (x - a) * qtx + ta
    requires qx == ta + x * qtx && cx == c0 + x * tx && ca == c0 + a * ta
    ensures cx == (x - a) * qx + ca
  {
    assert (x - a) * (ta + x * qtx) + (c0 + a * ta) == c0 + x * ((x - a) * qtx + ta);
  }

  /** Adding a constant to a polynomial. */
  function AddConst(c: seq<real>, k: real): (r: seq<real>)
    ensures |r| == if |c| == 0 then 1 else |c|
  {
    if |c| == 0 then [k] else [c[0] + k] + c[1..]
  }

  lemma AddConstSpec(c: seq<real>, k: real, x: real)
    ensures Eval(AddConst(c, k), x) == k + Eval(c, x)
  {
    var r := AddConst(c, k);
    if |c| > 0 {
      assert r[0] == c[0] + k && r[1..] == c[1..];
      var tx := Eval(c[1..], x);
      EvalStep(r, x, Eval(r, x), r[0], tx);
      EvalStep(c, x, Eval(c, x), c[0], tx);
    } else {
      assert r[1..] == [];
      EvalStep(r, x, Eval(r, x), k, 0.0);
    }
  }

  /** The sum of two polynomials. */
  function Add(p: seq<real>, q: seq<real>): (r: seq<real>)
    ensures |r| == if |p| < |q| then |q| else |p|
    decreases |p|
  {
    if |p| == 0 then q
    else if |q| == 0 then p
    else [p[0] + q[0]] + Add(p[1..], q[1..])
  }

  /** (p + q)(x) == p(x) + q(x), over the values px = p(x), qx = q(x) and rx = (p + q)(x). */
  lemma {:induction false} AddSpec(p: seq<real>, q: seq<real>, x: real, px: real, qx: real, rx: real)
    requires px == Eval(p, x) && qx == Eval(q, x) && rx == Eval(Add(p, q), x)
    ensures rx == px + qx
    decreases |p|
  {
    if |p| > 0 && |q| > 0 {
      var p', q' := p[1..], q[1..];
      var r, r' := Add(p, q), Add(p', q');
      var px', qx', rx' := Eval(p', x), Eval(q', x), Eval(r', x);
      AddSpec(p', q', x, px', qx', rx');
      var h := r[0];
      assert h == p[0] + q[0] && r[1..] == r';
      EvalStep(r, x, rx, h, rx');
      EvalStep(p, x, px, p[0], px');
      EvalStep(q, x, qx, q[0], qx');
      AddStep(p[0], q[0], h, x, px', qx', rx', px, qx, rx);
    }
  }

  lemma AddStep(p0: real, q0: real, h: real, x: real, px': real, qx': real, rx': real, px: real, qx: real, rx: real)
    requires h == p0 + q0 && rx' == px' + qx'
    requires rx == h + x * rx' && px == p0 + x * px' && qx == q0 + x * qx'
    ensures rx == px + qx
  {
    assert x * (px' + qx') == x * px' + x * qx';
  }

  /** The polynomial s·p(x). */
  function Scale(p: seq<real>, s: real): (r: seq<real>)
    ensures |r| == |p|
    decreases |p|
  {
    if |p| == 0 then [] else [s * p[0]] + Scale(p[1..], s)
  }

  /** (s·p)(x) == s·p(x), over the values px = p(x) and rx = (s·p)(x). */
  lemma {:induction false} ScaleSpec(p: seq<real>, s: real, x: real, px: real, rx: real)
    requires px == Eval(p, x) && rx == Eval(Scale(p, s), x)
    ensures rx == s * px
    decreases |p|
  {
    if |p| > 0 {
      var p' := p[1..];
      var r, r' := Scale(p, s), Scale(p', s);
      var px', rx' := Eval(p', x), Eval(r', x);
      ScaleSpec(p', s, x, px', rx');
      var h := r[0];
      assert h == s * p[0] && r[1..] == r';
      EvalStep(r, x, rx, h, rx');
      EvalStep(p, x, px, p[0], px');
      ScaleStep(p[0], s, h, x, px', rx', px, rx);
    }
  }

  lemma ScaleStep(p0: real, s: real, h: real, x: real, px': real, rx': real, px: real, rx: real)
    requires h == s * p0 && rx' == s * px'
    requires rx == h + x * rx' && px == p0 + x * px'
    ensures rx == s * px
  {
    assert s * (p0 + x * px') == s * p0 + x * (s * px');
  }

  /** The product (x - a)·c(x). */
  function MulLinear(c: seq<real>, a: real): (r: seq<real>)
    ensures |r| == if |c| == 0 then 0 else |c| + 1
    decreases |c|
  {
    if |c| == 0 then [] else [(0.0 - a) * c[0]] + AddConst(MulLinear(c[1..], a), c[0])
  }

  /** (x - a)·c(x), over the values mx = MulLinear(c, a)(x) and cx = c(x). */
  lemma {:induction false} MulLinearSpec(c: seq<real>, a: real, x: real, d: real, mx: real, cx: real)
    requires d == x - a && mx == Eval(MulLinear(c, a), x) && cx == Eval(c, x)
    ensures mx == d * cx
    decreases |c|
  {
    if |c| > 0 {
      var c0, t := c[0], c[1..];
      var m := MulLinear(t, a);
      var k := AddConst(m, c0);
      var r := MulLinear(c, a);
      var tx, m', kx := Eval(t, x), Eval(m, x), Eval(k, x);
      var h := r[0];
      assert h == (0.0 - a) * c0 && mx == h + x * kx by {
        MulLinearCons(c, a);
        assert r[1..] == k;
        EvalStep(r, x, mx, h, kx);
      }
      assert kx == c0 + m' by { AddConstSpec(m, c0, x); }
      assert m' == d * tx by { MulLinearSpec(t, a, x, d, m', tx); }
      assert cx == c0 + x * tx by { EvalStep(c, x, cx, c0, tx); }
      MulLinearStep(a, c0, x, d, tx, m', kx, mx, cx, h);
    }
  }

  lemma MulLinearCons(c: seq<real>, a: real)
    requires |c| > 0
    ensures MulLinear(c, a) == [(0.0 - a) * c[0]] + AddConst(MulLinear(c[1..], a), c[0])
  {
  }

  lemma MulLinearStep(a: real, c0: real, x: real, d: real, tx: real, m: real, kx: real, mx: real, cx: real, h: real)
    requires d == x - a && m == d * tx && kx == c0 + m && h == (0.0 - a) * c0
    requires mx == h + x * kx && cx == c0 + x * tx
    ensures mx == d * cx
  {
    assert (0.0 - a) * c0 + x * (c0 + (x - a) * tx) == (x - a) * (c0 + x * tx);
  }

  /** The value at t of the product of (t - r) over the roots r in rs. */
  function NodeProd(rs: seq<real>, t: real): real
  {
    if |rs| == 0 then 1.0 else NodeProd(rs[..|rs| - 1], t) * (t - rs[|rs| - 1])
  }

  /** The monic polynomial whose roots are rs. */
  function FromRoots(rs: seq<real>): (p: seq<real>)
    ensures |p| == |rs| + 1
  {
    if |rs| == 0 then [1.0] else MulLinear(FromRoots(rs[..|rs| - 1]), rs[|rs| - 1])
  }

  lemma {:induction false} FromRootsSpec(rs: seq<real>, t: real)
    ensures Eval(FromRoots(rs), t) == NodeProd(rs, t)
  {
    if |rs| == 0 {
      assert [1.0][1..] == [];
    } else {
      var init, r := rs[..|rs| - 1], rs[|rs| - 1];
      var pt, nt := Eval(FromRoots(init), t), NodeProd(init, t);
      FromRootsSpec(init, t);
      var v, n := Eval(FromRoots(rs), t), NodeProd(rs, t);
      var f := t - r;
      MulLinearSpec(FromRoots(init), r, t, f, v, pt);
      NodeProdStep(rs, t, nt, n, f);
      SameProduct(v, n, pt, nt, f);
    }
  }

  /** One step of the node product, over values: m = NodeProd(rs, t), n = NodeProd(init, t), f = t - last. */
  lemma NodeProdStep(rs: seq<real>, t: real, n: real, m: real, f: real)
    requires |rs| > 0 && n == NodeProd(rs[..|rs| - 1], t) && m == NodeProd(rs, t) && f == t - rs[|rs| - 1]
    ensures m == n * f
  {
  }

  lemma SameProduct(v: real, n: real, p: real, q: real, f: real)
    requires v == f * p && n == q * f && p == q
    ensures v == n
  {
  }

  /** The product vanishes at each root ... */
  lemma {:induction false} NodeProdAtRoot(rs: seq<real>, i: nat)
    requires i < |rs|
    ensures NodeProd(rs, rs[i]) == 0.0
  {
    var init := rs[..|rs| - 1];
    if i < |rs| - 1 {
      assert init[i] == rs[i];
      NodeProdAtRoot(init, i);
    }
  }

  /** ... and nowhere else. */
  lemma {:induction false} NodeProdElsewhere(rs: seq<real>, t: real)
    requires forall j :: 0 <= j < |rs| ==> rs[j] != t
    ensures NodeProd(rs, t) != 0.0
  {
    if |rs| > 0 {
      var init := rs[..|rs| - 1];
      assert forall j :: 0 <= j < |init| ==> init[j] == rs[j];
      NodeProdElsewhere(init, t);
      assert t - rs[|rs| - 1] != 0.0;
    }
  }
}
