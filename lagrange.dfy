/** The Lagrange interpolating polynomial and the evaluator closure
    `lagrange_poly` built by `_lagrange_interpolation`. */
module Lagrange {
  import opened Samples
  import Polynomial

  /** The i-th term of the evaluator after the inner loop has processed the
      indices j < m: y_i multiplied, in loop order, by the factors
      (v - x_j) / (x_i - x_j) for every j ≠ i. */
  function Term(pts: seq<Point>, i: nat, v: real, m: nat): real
    requires DistinctX(pts) && i < |pts| && m <= |pts|
  {
    if m == 0 then pts[i].1
    else if m - 1 == i then Term(pts, i, v, m - 1)
    else Term(pts, i, v, m - 1) * ((v - pts[m - 1].0) / (pts[i].0 - pts[m - 1].0))
  }

  /** The accumulated `result` after the outer loop has added the terms of
      the indices i < m. */
  function Partial(pts: seq<Point>, v: real, m: nat): real
    requires DistinctX(pts) && m <= |pts|
  {
    if m == 0 then 0.0 else Partial(pts, v, m - 1) + Term(pts, m - 1, v, |pts|)
  }

  /** The value of the Lagrange polynomial through `pts` at `v`. */
  function Value(pts: seq<Point>, v: real): real
    requires DistinctX(pts)
  {
    Partial(pts, v, |pts|)
  }

  /** `lagrange_poly(x)`: the two nested accumulator loops. */
  method Evaluate(pts: seq<Point>, v: real) returns (result: real)
    requires DistinctX(pts)
    ensures result == Value(pts, v)
  {
    var n := |pts|;
    result := 0.0;
    var i := 0;
    while i < n
      invariant 0 <= i <= n
      invariant result == Partial(pts, v, i)
    {
      var xi, yi := pts[i].0, pts[i].1;
      var term := yi;
      var j := 0;
      while j < n
        invariant 0 <= j <= n
        invariant term == Term(pts, i, v, j)
      {
        if i != j {
          var xj := pts[j].0;
          term := term * ((v - xj) / (xi - xj));
        }
        j := j + 1;
      }
      result := result + term;
      i := i + 1;
    }
  }

  /** At its own node x_i every factor of the i-th term is 1. */
  lemma {:induction false} TermAtOwnNode(pts: seq<Point>, i: nat, m: nat)
    requires DistinctX(pts) && i < |pts| && m <= |pts|
    ensures Term(pts, i, pts[i].0, m) == pts[i].1
  {
    if m > 0 {
      TermAtOwnNode(pts, i, m - 1);
      if m - 1 != i {
        DistinctAt(pts, i, m - 1);
        UnitRatio(pts[i].0, pts[m - 1].0);
      }
    }
  }

  /** The factor (x_i - x_j) / (x_i - x_j) of two distinct abscissas. */
  lemma UnitRatio(a: real, b: real)
    requires a != b
    ensures (a - b) / (a - b) == 1.0
  {
  }

  /** At another node x_k the i-th term vanishes once the factor for k has
      been multiplied in. */
  lemma {:induction false} TermAtOtherNode(pts: seq<Point>, i: nat, k: nat, m: nat)
    requires DistinctX(pts) && i < |pts| && k < m <= |pts| && k != i
    ensures Term(pts, i, pts[k].0, m) == 0.0
  {
    if m - 1 == k {
      assert (pts[k].0 - pts[m - 1].0) / (pts[i].0 - pts[m - 1].0) == 0.0;
    } else {
      TermAtOtherNode(pts, i, k, m - 1);
    }
  }

  lemma {:induction false} PartialAtNode(pts: seq<Point>, k: nat, m: nat)
    requires DistinctX(pts) && k < |pts| && m <= |pts|
    ensures Partial(pts, pts[k].0, m) == if k < m then pts[k].1 else 0.0
  {
    if m > 0 {
      PartialAtNode(pts, k, m - 1);
      if m - 1 == k {
        TermAtOwnNode(pts, k, |pts|);
      } else {
        TermAtOtherNode(pts, m - 1, k, |pts|);
      }
    }
  }

  /** The Lagrange polynomial passes through every data point. */
  lemma Reproduces(pts: seq<Point>, k: nat)
    requires DistinctX(pts) && k < |pts|
    ensures Value(pts, pts[k].0) == pts[k].1
  {
    PartialAtNode(pts, k, |pts|);
  }

  // ---------------------------------------------------------------------
  // The evaluator as a polynomial of degree at most n - 1
  // ---------------------------------------------------------------------

  /** The coefficients of `Term(pts, i, _, m)`: one linear factor, scaled by
      1 / (x_i - x_j), for every j < m other than i. */
  function TermPoly(pts: seq<Point>, i: nat, m: nat): (r: seq<real>)
    requires DistinctX(pts) && i < |pts| && m <= |pts|
    ensures |r| == if m <= i then m + 1 else m
  {
    if m == 0 then [pts[i].1]
    else if m - 1 == i then TermPoly(pts, i, m - 1)
    else
      DistinctAt(pts, i, m - 1);
      Polynomial.Scale(Polynomial.MulLinear(TermPoly(pts, i, m - 1), pts[m - 1].0),
                       1.0 / (pts[i].0 - pts[m - 1].0))
  }

  /** The coefficients of `Partial(pts, _, m)`. */
  function PartialPoly(pts: seq<Point>, m: nat): (r: seq<real>)
    requires DistinctX(pts) && m <= |pts|
    ensures |r| <= |pts|
  {
    if m == 0 then [] else Polynomial.Add(PartialPoly(pts, m - 1), TermPoly(pts, m - 1, |pts|))
  }

  lemma {:induction false} TermIsPolynomial(pts: seq<Point>, i: nat, m: nat, v: real)
    requires DistinctX(pts) && i < |pts| && m <= |pts|
    ensures Polynomial.Eval(TermPoly(pts, i, m), v) == Term(pts, i, v, m)
  {
    if m != 0 {
      TermIsPolynomial(pts, i, m - 1, v);
      if m - 1 != i {
        TermUnfold(pts, i, m, v);
        TermFactor(pts, i, m, v);
      }
    }
  }

  /** One factor of the term, as a single product. */
  lemma TermUnfold(pts: seq<Point>, i: nat, m: nat, v: real)
    requires DistinctX(pts) && i < |pts| && 0 < m <= |pts| && m - 1 != i
    ensures pts[i].0 - pts[m - 1].0 != 0.0
    ensures Term(pts, i, v, m)
            == Polynomial.Times(Term(pts, i, v, m - 1), (v - pts[m - 1].0) / (pts[i].0 - pts[m - 1].0))
  {
    DistinctAt(pts, i, m - 1);
  }

  /** One factor of the term, as coefficients. */
  lemma TermFactor(pts: seq<Point>, i: nat, m: nat, v: real)
    requires DistinctX(pts) && i < |pts| && 0 < m <= |pts| && m - 1 != i
    ensures pts[i].0 - pts[m - 1].0 != 0.0
    ensures Polynomial.Eval(TermPoly(pts, i, m), v)
            == Polynomial.Times(Polynomial.Eval(TermPoly(pts, i, m - 1), v),
                                (v - pts[m - 1].0) / (pts[i].0 - pts[m - 1].0))
  {
    DistinctAt(pts, i, m - 1);
    var a, d := pts[m - 1].0, pts[i].0 - pts[m - 1].0;
    var prev := TermPoly(pts, i, m - 1);
    var grown := Polynomial.MulLinear(prev, a);
    assert TermPoly(pts, i, m) == Polynomial.Scale(grown, 1.0 / d);
    Polynomial.MulLinearEval(prev, a, v);
    Polynomial.ScaleEval(grown, 1.0 / d, v);
    FactorAlgebra(Polynomial.Eval(grown, v), Polynomial.Eval(prev, v), v, a, d);
  }

  lemma FactorAlgebra(g: real, e: real, v: real, a: real, d: real)
    requires d != 0.0 && g == Polynomial.Times(e, v - a)
    ensures Polynomial.Times(1.0 / d, g) == Polynomial.Times(e, (v - a) / d)
  {
  }

  lemma {:induction false} PartialIsPolynomial(pts: seq<Point>, m: nat, v: real)
    requires DistinctX(pts) && m <= |pts|
    ensures Polynomial.Eval(PartialPoly(pts, m), v) == Partial(pts, v, m)
  {
    if m != 0 {
      PartialIsPolynomial(pts, m - 1, v);
      PartialStep(pts, m, v);
    }
  }

  /** One more term of the sum, on both sides. */
  lemma PartialStep(pts: seq<Point>, m: nat, v: real)
    requires DistinctX(pts) && 0 < m <= |pts|
    requires Polynomial.Eval(PartialPoly(pts, m - 1), v) == Partial(pts, v, m - 1)
    ensures Polynomial.Eval(PartialPoly(pts, m), v) == Partial(pts, v, m)
  {
    var e := TermValue(pts, m - 1, v);
    Polynomial.AddEval(PartialPoly(pts, m - 1), TermPoly(pts, m - 1, |pts|), v);
  }

  /** A complete term and its coefficients agree at `v`. */
  lemma TermValue(pts: seq<Point>, k: nat, v: real) returns (e: real)
    requires DistinctX(pts) && k < |pts|
    ensures e == Polynomial.Eval(TermPoly(pts, k, |pts|), v) && e == Term(pts, k, v, |pts|)
  {
    TermIsPolynomial(pts, k, |pts|, v);
    e := Term(pts, k, v, |pts|);
  }

  /** The Lagrange evaluator is a polynomial with at most n coefficients,
      that is of degree at most n - 1. */
  lemma ValueIsPolynomial(pts: seq<Point>, v: real)
    requires DistinctX(pts)
    ensures |PartialPoly(pts, |pts|)| <= |pts|
    ensures Polynomial.Eval(PartialPoly(pts, |pts|), v) == Value(pts, v)
  {
    PartialIsPolynomial(pts, |pts|, v);
  }
}
