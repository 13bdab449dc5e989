/** Polynomials in one variable as coefficient lists, lowest degree first,
    with the one fact the interpolation methods share: a polynomial with
    fewer coefficients than it has distinct roots is zero everywhere. */
module Polynomial {
  import opened Samples

  /** A product, kept as one term. */
  function Times(x: real, y: real): real
  {
    x * y
  }

  /** The value at `v`, by Horner's rule. */
  function Eval(p: seq<real>, v: real): real
  {
    if |p| == 0 then 0.0 else p[0] + Times(v, Eval(p[1..], v))
  }

  /** The coefficient-wise sum. */
  function Add(p: seq<real>, q: seq<real>): (r: seq<real>)
    ensures |r| == if |p| < |q| then |q| else |p|
  {
    if |p| == 0 then q
    else if |q| == 0 then p
    else [p[0] + q[0]] + Add(p[1..], q[1..])
  }

  /** Every coefficient times `k`. */
  function Scale(p: seq<real>, k: real): (r: seq<real>)
    ensures |r| == |p|
  {
    if |p| == 0 then [] else [k * p[0]] + Scale(p[1..], k)
  }

  /** The product with the linear factor (v - a). */
  function MulLinear(p: seq<real>, a: real): (r: seq<real>)
    ensures |r| == |p| + 1
  {
    Add([0.0] + p, Scale(p, -a))
  }

  /** The quotient of p(v) - p(a) by (v - a), by synthetic division. */
  function Quotient(p: seq<real>, a: real): (r: seq<real>)
    ensures |r| == if |p| == 0 then 0 else |p| - 1
  {
    if |p| == 0 then [] else Add(p[1..], Scale(Quotient(p[1..], a), a))
  }

  lemma {:induction false} AddEval(p: seq<real>, q: seq<real>, v: real)
    ensures Eval(Add(p, q), v) == Eval(p, v) + Eval(q, v)
    decreases |p|
  {
    if |p| != 0 && |q| != 0 {
      var r := Add(p, q);
      assert r[1..] == Add(p[1..], q[1..]);
      AddEval(p[1..], q[1..], v);
      AddAlgebra(v, Eval(r[1..], v), Eval(p[1..], v), Eval(q[1..], v));
    }
  }

  lemma AddAlgebra(v: real, r: real, p: real, q: real)
    requires r == p + q
    ensures Times(v, r) == Times(v, p) + Times(v, q)
  {
  }

  lemma ScaleAlgebra(v: real, k: real, e: real)
    ensures Times(v, Times(k, e)) == Times(k, Times(v, e))
  {
  }

  lemma {:induction false} ScaleEval(p: seq<real>, k: real, v: real)
    ensures Eval(Scale(p, k), v) == Times(k, Eval(p, v))
    decreases |p|
  {
    if |p| != 0 {
      var r := Scale(p, k);
      assert r[1..] == Scale(p[1..], k);
      ScaleEval(p[1..], k, v);
      ScaleAlgebra(v, k, Eval(p[1..], v));
    }
  }

  lemma MulLinearEval(p: seq<real>, a: real, v: real)
    ensures Eval(MulLinear(p, a), v) == Times(Eval(p, v), v - a)
  {
    var s := [0.0] + p;
    assert s[1..] == p;
    assert Eval(s, v) == Times(v, Eval(p, v));
    AddEval(s, Scale(p, -a), v);
    ScaleEval(p, -a, v);
  }

  /** p(v) = p(a) + (v - a) · q(v), with q the synthetic quotient. */
  lemma {:induction false} QuotientEval(p: seq<real>, a: real, v: real)
    ensures Eval(p, v) == Eval(p, a) + Times(v - a, Eval(Quotient(p, a), v))
    decreases |p|
  {
    if |p| != 0 {
      var t := p[1..];
      QuotientEval(t, a, v);
      QuotientHead(p, a, v);
      EvalHead(p, v);
      EvalHead(p, a);
      DivisionAlgebra(Eval(p, v), Eval(p, a), p[0], Eval(t, v), Eval(t, a),
                      Eval(Quotient(t, a), v), Eval(Quotient(p, a), v), v, a);
    }
  }

  /** The quotient's value, one synthetic-division step down. */
  lemma QuotientHead(p: seq<real>, a: real, v: real)
    requires |p| != 0
    ensures Eval(Quotient(p, a), v) == Eval(p[1..], v) + Times(a, Eval(Quotient(p[1..], a), v))
  {
    var q1 := Quotient(p[1..], a);
    AddEval(p[1..], Scale(q1, a), v);
    ScaleEval(q1, a, v);
  }

  /** Horner's rule, one step. */
  lemma EvalHead(p: seq<real>, v: real)
    requires |p| != 0
    ensures Eval(p, v) == p[0] + Times(v, Eval(p[1..], v))
  {
  }

  lemma DivisionAlgebra(pv: real, pa: real, p0: real, tv: real, ta: real, qv: real, w: real, v: real, a: real)
    requires tv == ta + Times(v - a, qv) && w == tv + Times(a, qv)
    requires pv == p0 + Times(v, tv) && pa == p0 + Times(a, ta)
    ensures pv == pa + Times(v - a, w)
  {
    calc {
      pa + (v - a) * w;
      p0 + a * ta + (v - a) * tv + a * ((v - a) * qv);
      p0 + a * ta + (v - a) * tv + a * (tv - ta);
      pv;
    }
  }

  /** A polynomial with no more coefficients than there are points, which
      vanishes at every one of their distinct abscissas, vanishes
      everywhere. */
  lemma {:induction false} RootsForceZero(p: seq<real>, pts: seq<Point>, v: real)
    requires DistinctX(pts) && |p| <= |pts|
    requires forall k :: 0 <= k < |pts| ==> Eval(p, pts[k].0) == 0.0
    ensures Eval(p, v) == 0.0
    decreases |pts|
  {
    if |p| != 0 {
      var a := pts[0].0;
      var q := Quotient(p, a);
      var rest := pts[1..];
      forall k | 0 <= k < |rest|
        ensures Eval(q, rest[k].0) == 0.0
      {
        assert rest[k] == pts[k + 1];
        QuotientEval(p, a, rest[k].0);
        NonZeroFactor(rest[k].0 - a, Eval(q, rest[k].0));
      }
      RootsForceZero(q, rest, v);
      QuotientEval(p, a, v);
    }
  }

  lemma NonZeroFactor(d: real, e: real)
    requires d != 0.0 && Times(d, e) == 0.0
    ensures e == 0.0
  {
  }
}
