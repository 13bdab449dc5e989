/** Newton's divided-difference form of the interpolating polynomial:
    the table `diff_table` filled by `_newton_interpolation` and the
    evaluator closure `newton_poly`. */
module Newton {
  import opened Common
  import opened Samples
  import Lagrange
  import Polynomial

  /** The divided difference f[x_i, ..., x_{i+j}]. */
  function Dd(pts: seq<Point>, i: nat, j: nat): real
    requires DistinctX(pts) && i + j < |pts|
    decreases j
  {
    if j == 0 then pts[i].1
    else (Dd(pts, i + 1, j - 1) - Dd(pts, i, j - 1)) / (pts[i + j].0 - pts[i].0)
  }

  /** The Newton basis product (v - x_i)(v - x_{i+1})...(v - x_{i+t-1}),
      multiplied in loop order. */
  function Omega(pts: seq<Point>, i: nat, t: nat, v: real): real
    requires i + t <= |pts|
  {
    if t == 0 then 1.0 else Omega(pts, i, t - 1, v) * (v - pts[i + t - 1].0)
  }

  /** `table` is the n×n `diff_table` once filled: entry (i, j) holds
      f[x_i, ..., x_{i+j}] where i + j < n and keeps its initial 0.0
      elsewhere. */
  predicate IsTable(pts: seq<Point>, table: seq<seq<real>>)
    requires DistinctX(pts)
  {
    Filled(pts, table, |pts|, 0)
  }

  /** `table` while it is being filled: the columns before `j` are complete,
      column `j` is complete in the rows before `i`, every other entry still
      holds 0.0. */
  predicate Filled(pts: seq<Point>, table: seq<seq<real>>, j: nat, i: nat)
    requires DistinctX(pts)
  {
    |table| == |pts| &&
    (forall a :: 0 <= a < |pts| ==> |table[a]| == |pts|) &&
    (forall a, b :: 0 <= a < |pts| && 0 <= b < |pts| ==>
       table[a][b] == if a + b < |pts| && (b < j || (b == j && a < i)) then Dd(pts, a, b) else 0.0)
  }

  /** The table-filling loops of `_newton_interpolation`. */
  method DividedDifferences(pts: seq<Point>) returns (table: seq<seq<real>>)
    requires DistinctX(pts)
    ensures IsTable(pts, table)
  {
    var n := |pts|;
    table := seq(n, _ => seq(n, _ => 0.0));
    var i := 0;
    while i < n
      invariant 0 <= i <= n
      invariant Filled(pts, table, 0, i)
    {
      table := table[i := table[i][0 := pts[i].1]];
      i := i + 1;
    }
    assert Filled(pts, table, 1, 0);
    var j := 1;
    while j < n
      invariant 1 <= j && (j <= n || n == 0)
      invariant Filled(pts, table, j, 0)
    {
      table := FillColumn(pts, table, j);
      j := j + 1;
    }
    if n == 0 {
      assert Filled(pts, table, n, 0);
    }
  }

  /** One pass of the inner loop: column `j` from the entries of column j-1. */
  method FillColumn(pts: seq<Point>, table: seq<seq<real>>, j: nat) returns (t: seq<seq<real>>)
    requires DistinctX(pts) && 1 <= j < |pts| && Filled(pts, table, j, 0)
    ensures Filled(pts, t, j + 1, 0)
  {
    var n := |pts|;
    t := table;
    var i := 0;
    while i < n - j
      invariant 0 <= i <= n - j
      invariant Filled(pts, t, j, i)
    {
      var xi, xij := pts[i].0, pts[i + j].0;
      assert t[i + 1][j - 1] == Dd(pts, i + 1, j - 1) && t[i][j - 1] == Dd(pts, i, j - 1);
      t := t[i := t[i][j := (t[i + 1][j - 1] - t[i][j - 1]) / (xij - xi)]];
      i := i + 1;
    }
  }

  /** The gap x_{i+j} - x_i in the denominator of f[x_i, ..., x_{i+j}]. */
  function Gap(pts: seq<Point>, i: nat, j: nat): real
    requires i + j < |pts|
  {
    pts[i + j].0 - pts[i].0
  }

  /** `c` is an n×n table. */
  predicate Square(c: seq<seq<real>>, n: nat)
  {
    |c| == n && forall i :: 0 <= i < n ==> |c[i]| == n
  }

  /** The recurrence of the divided differences with the division undone:
      column 0 holds the ordinates, and each entry times its gap is the
      difference of its two neighbours in the previous column. */
  ghost predicate Recurrent(pts: seq<Point>, c: seq<seq<real>>)
  {
    Square(c, |pts|) &&
    (forall i :: 0 <= i < |pts| ==> c[i][0] == pts[i].1) &&
    (forall i, j {:trigger Gap(pts, i, j)} :: 0 <= i && 1 <= j && i + j < |pts| ==>
       c[i + 1][j - 1] - c[i][j - 1] == c[i][j] * Gap(pts, i, j))
  }

  /** The Newton form through x_i, ..., x_{i+j} with coefficients taken
      from row i of `c`: the sum over t <= j of c[i][t] · Omega(i, t). */
  function Form(pts: seq<Point>, c: seq<seq<real>>, i: nat, j: nat, v: real): real
    requires Square(c, |pts|) && i + j < |pts|
  {
    if j == 0 then c[i][0] else Form(pts, c, i, j - 1, v) + c[i][j] * Omega(pts, i, j, v)
  }

  /** The divided-difference table satisfies the multiplied-out recurrence. */
  lemma TableRecurrent(pts: seq<Point>, table: seq<seq<real>>)
    requires DistinctX(pts) && IsTable(pts, table)
    ensures Recurrent(pts, table)
  {
    forall i | 0 <= i < |pts|
      ensures table[i][0] == pts[i].1
    {
      TableEntry(pts, table, i, 0);
    }
    forall i, j {:trigger Gap(pts, i, j)} | 0 <= i && 1 <= j && i + j < |pts|
      ensures table[i + 1][j - 1] - table[i][j - 1] == table[i][j] * Gap(pts, i, j)
    {
      TableEntry(pts, table, i, j);
      TableEntry(pts, table, i + 1, j - 1);
      TableEntry(pts, table, i, j - 1);
      TableGap(pts, table, i, j);
    }
  }

  /** One instance of the recurrence in the filled table. */
  lemma TableGap(pts: seq<Point>, table: seq<seq<real>>, i: nat, j: nat)
    requires DistinctX(pts) && 1 <= j && i + j < |pts|
    requires Square(table, |pts|)
    requires table[i][j] == Dd(pts, i, j)
    requires table[i + 1][j - 1] == Dd(pts, i + 1, j - 1) && table[i][j - 1] == Dd(pts, i, j - 1)
    ensures table[i + 1][j - 1] - table[i][j - 1] == table[i][j] * Gap(pts, i, j)
  {
    DdRecurrence(pts, i, j);
    ScaledDifference(table[i][j], table[i + 1][j - 1], table[i][j - 1],
                     Dd(pts, i, j), Dd(pts, i + 1, j - 1), Dd(pts, i, j - 1), Gap(pts, i, j));
  }

  /** Equal values satisfy the same recurrence. */
  lemma ScaledDifference(t: real, t1: real, t0: real, d: real, d1: real, d0: real, g: real)
    requires t == d && t1 == d1 && t0 == d0 && d1 - d0 == d * g
    ensures t1 - t0 == t * g
  {
  }

  /** Each divided difference times its gap is the difference of its two
      neighbours of lower order. */
  lemma DdRecurrence(pts: seq<Point>, i: nat, j: nat)
    requires DistinctX(pts) && 1 <= j && i + j < |pts|
    ensures Dd(pts, i + 1, j - 1) - Dd(pts, i, j - 1) == Dd(pts, i, j) * Gap(pts, i, j)
  {
    var diff, gap := Dd(pts, i + 1, j - 1) - Dd(pts, i, j - 1), Gap(pts, i, j);
    assert gap != 0.0 by {
      assert pts[i].0 != pts[i + j].0;
    }
    assert Dd(pts, i, j) == diff / gap;
    QuotientTimes(Dd(pts, i, j), diff, gap);
  }

  /** Entry (a, b) of the filled table, for a + b < n. */
  lemma TableEntry(pts: seq<Point>, table: seq<seq<real>>, a: nat, b: nat)
    requires DistinctX(pts) && IsTable(pts, table) && a + b < |pts|
    ensures table[a][b] == Dd(pts, a, b)
  {
  }

  /** A quotient times its divisor gives back the dividend. */
  lemma QuotientTimes(q: real, p: real, d: real)
    requires d != 0.0 && q == p / d
    ensures p == q * d
  {
    DivCancel(p, d);
  }

  /** `newton_poly(x)`: the running product and sum over the first row of
      the table. */
  method Evaluate(pts: seq<Point>, table: seq<seq<real>>, v: real) returns (result: real)
    requires |pts| >= 1 && Square(table, |pts|)
    ensures result == Form(pts, table, 0, |pts| - 1, v)
  {
    var n := |pts|;
    result := table[0][0];
    var product := 1.0;
    var i := 1;
    while i < n
      invariant 1 <= i <= n
      invariant product == Omega(pts, 0, i - 1, v)
      invariant result == Form(pts, table, 0, i - 1, v)
    {
      product := product * (v - pts[i - 1].0);
      result := result + table[0][i] * product;
      i := i + 1;
    }
  }

  /** The first factor of a basis product can be taken out in front. */
  lemma {:induction false} OmegaShift(pts: seq<Point>, i: nat, t: nat, v: real)
    requires 1 <= t && i + t <= |pts|
    ensures Omega(pts, i, t, v) == (v - pts[i].0) * Omega(pts, i + 1, t - 1, v)
  {
    if t > 1 {
      OmegaShift(pts, i, t - 1, v);
    }
  }

  /** A basis product vanishes at each of its own nodes. */
  lemma {:induction false} OmegaVanishes(pts: seq<Point>, i: nat, t: nat, k: nat)
    requires k < t && i + t <= |pts|
    ensures Omega(pts, i, t, pts[i + k].0) == 0.0
  {
    if k < t - 1 {
      OmegaVanishes(pts, i, t - 1, k);
    }
  }

  /** With g = e (x_{i+m} - x_i), the product e · Omega(i, m) splits into
      g · Omega(i+1, m-1) plus e times the shifted basis product of order m. */
  lemma OmegaSplit(pts: seq<Point>, i: nat, m: nat, v: real, e: real, g: real)
    requires 1 <= m && i + m < |pts| && g == e * Gap(pts, i, m)
    ensures e * Omega(pts, i, m, v) == g * Omega(pts, i + 1, m - 1, v) + e * Omega(pts, i + 1, m, v)
  {
    OmegaShift(pts, i, m, v);
    ShiftAlgebra(e, g, Omega(pts, i + 1, m - 1, v), Omega(pts, i, m, v), Omega(pts, i + 1, m, v),
                 v, pts[i].0, pts[i + m].0);
  }

  /** The algebra of `OmegaSplit`: e(v - x_i)w = e(x_{i+m} - x_i)w + e·w(v - x_{i+m}). */
  lemma ShiftAlgebra(e: real, g: real, w: real, o0: real, o1: real, v: real, xi: real, xim: real)
    requires o0 == (v - xi) * w && o1 == w * (v - xim) && g == e * (xim - xi)
    ensures e * o0 == g * w + e * o1
  {
  }

  /** Two Newton forms over windows shifted by one node differ by a single
      basis product: N(i+1, m) - N(i, m) = (c[i+1][m] - c[i][m]) · Omega(i+1, m). */
  lemma {:induction false} FormDifference(pts: seq<Point>, c: seq<seq<real>>, i: nat, m: nat, v: real)
    requires Recurrent(pts, c) && i + 1 + m < |pts|
    ensures Form(pts, c, i + 1, m, v) - Form(pts, c, i, m, v)
            == (c[i + 1][m] - c[i][m]) * Omega(pts, i + 1, m, v)
  {
    if m > 0 {
      FormDifference(pts, c, i, m - 1, v);
      assert c[i + 1][m - 1] - c[i][m - 1] == c[i][m] * Gap(pts, i, m);
      OmegaSplit(pts, i, m, v, c[i][m], c[i + 1][m - 1] - c[i][m - 1]);
    }
  }

  /** One instance of the recurrence `Recurrent` states. */
  lemma RecurrentAt(pts: seq<Point>, c: seq<seq<real>>, i: nat, j: nat)
    requires Recurrent(pts, c) && 1 <= j && i + j < |pts|
    ensures c[i + 1][j - 1] - c[i][j - 1] == c[i][j] * Gap(pts, i, j)
  {
  }

  /** The Newton form through x_i, ..., x_{i+j} takes the value y_{i+k} at
      each of its nodes x_{i+k}. */
  lemma {:induction false} Interpolates(pts: seq<Point>, c: seq<seq<real>>, i: nat, j: nat, k: nat)
    requires Recurrent(pts, c) && i + j < |pts| && k <= j
    ensures Form(pts, c, i, j, pts[i + k].0) == pts[i + k].1
    decreases j
  {
    var v := pts[i + k].0;
    if j == 0 {
    } else if k < j {
      Interpolates(pts, c, i, j - 1, k);
      OmegaVanishes(pts, i, j, k);
    } else {
      Interpolates(pts, c, i + 1, j - 1, j - 1);
      assert pts[i + 1 + (j - 1)] == pts[i + k];
      LastNode(pts, c, i, j);
    }
  }

  /** The step of `Interpolates` at the newest node x_{i+j}: the form through
      x_i, ..., x_{i+j} agrees there with the form through x_{i+1}, ..., x_{i+j}. */
  lemma LastNode(pts: seq<Point>, c: seq<seq<real>>, i: nat, j: nat)
    requires Recurrent(pts, c) && i + j < |pts| && 1 <= j
    ensures Form(pts, c, i, j, pts[i + j].0) == Form(pts, c, i + 1, j - 1, pts[i + j].0)
  {
    FormDifference(pts, c, i, j - 1, pts[i + j].0);
    LastTerm(pts, c, i, j);
    LastNodeSum(pts, c, i, j, pts[i + j].0);
  }

  /** The sum behind `LastNode`: a form is its shorter form plus its newest
      term, and here that term is the difference of the two shorter forms. */
  lemma LastNodeSum(pts: seq<Point>, c: seq<seq<real>>, i: nat, j: nat, v: real)
    requires Square(c, |pts|) && i + j < |pts| && 1 <= j
    requires Form(pts, c, i + 1, j - 1, v) - Form(pts, c, i, j - 1, v) == c[i][j] * Omega(pts, i, j, v)
    ensures Form(pts, c, i, j, v) == Form(pts, c, i + 1, j - 1, v)
  {
    FormStep(pts, c, i, j, v);
  }

  /** A form is its shorter form plus its newest term. */
  lemma FormStep(pts: seq<Point>, c: seq<seq<real>>, i: nat, j: nat, v: real)
    requires Square(c, |pts|) && i + j < |pts| && 1 <= j
    ensures Form(pts, c, i, j, v) == Form(pts, c, i, j - 1, v) + c[i][j] * Omega(pts, i, j, v)
  {
  }

  /** The newest term of the form through x_i, ..., x_{i+j}, taken at x_{i+j},
      is the difference `FormDifference` gives for the two shorter forms. */
  lemma LastTerm(pts: seq<Point>, c: seq<seq<real>>, i: nat, j: nat)
    requires Recurrent(pts, c) && i + j < |pts| && 1 <= j
    ensures c[i][j] * Omega(pts, i, j, pts[i + j].0)
            == (c[i + 1][j - 1] - c[i][j - 1]) * Omega(pts, i + 1, j - 1, pts[i + j].0)
  {
    var v := pts[i + j].0;
    var g := c[i + 1][j - 1] - c[i][j - 1];
    RecurrentAt(pts, c, i, j);
    OmegaSplit(pts, i, j, v, c[i][j], g);
    OmegaVanishes(pts, i + 1, j, j - 1);
    assert pts[i + 1 + (j - 1)] == pts[i + j];
    ZeroTerm(c[i][j] * Omega(pts, i, j, v), g * Omega(pts, i + 1, j - 1, v), c[i][j], Omega(pts, i + 1, j, v));
  }

  /** A sum whose second term has a vanishing factor. */
  lemma ZeroTerm(t: real, u: real, e: real, o: real)
    requires t == u + e * o && o == 0.0
    ensures t == u
  {
  }

  /** The Newton polynomial built from the divided-difference table passes
      through every data point. */
  lemma Reproduces(pts: seq<Point>, table: seq<seq<real>>, k: nat)
    requires DistinctX(pts) && IsTable(pts, table) && k < |pts|
    ensures Form(pts, table, 0, |pts| - 1, pts[k].0) == pts[k].1
  {
    TableRecurrent(pts, table);
    Interpolates(pts, table, 0, |pts| - 1, k);
  }

  // ---------------------------------------------------------------------
  // The evaluator as a polynomial of degree at most n - 1
  // ---------------------------------------------------------------------

  /** The coefficients of `Omega(pts, i, t, _)`. */
  function OmegaPoly(pts: seq<Point>, i: nat, t: nat): (r: seq<real>)
    requires i + t <= |pts|
    ensures |r| == t + 1
  {
    if t == 0 then [1.0] else Polynomial.MulLinear(OmegaPoly(pts, i, t - 1), pts[i + t - 1].0)
  }

  /** The newest factor of the running product, as a single product. */
  lemma OmegaFactor(pts: seq<Point>, i: nat, t: nat, v: real)
    requires i + t <= |pts| && 1 <= t
    ensures Omega(pts, i, t, v) == Polynomial.Times(Omega(pts, i, t - 1, v), v - pts[i + t - 1].0)
  {
  }

  /** The coefficients of `Form(pts, c, i, j, _)`. */
  function FormPoly(pts: seq<Point>, c: seq<seq<real>>, i: nat, j: nat): (r: seq<real>)
    requires Square(c, |pts|) && i + j < |pts|
    ensures |r| == j + 1
  {
    if j == 0 then [c[i][0]]
    else Polynomial.Add(FormPoly(pts, c, i, j - 1), Polynomial.Scale(OmegaPoly(pts, i, j), c[i][j]))
  }

  lemma {:induction false} OmegaIsPolynomial(pts: seq<Point>, i: nat, t: nat, v: real)
    requires i + t <= |pts|
    ensures Polynomial.Eval(OmegaPoly(pts, i, t), v) == Omega(pts, i, t, v)
  {
    if t == 0 {
      Polynomial.EvalHead([1.0], v);
    } else {
      OmegaIsPolynomial(pts, i, t - 1, v);
      Polynomial.MulLinearEval(OmegaPoly(pts, i, t - 1), pts[i + t - 1].0, v);
      OmegaFactor(pts, i, t, v);
    }
  }

  lemma {:induction false} FormIsPolynomial(pts: seq<Point>, c: seq<seq<real>>, i: nat, j: nat, v: real)
    requires Square(c, |pts|) && i + j < |pts|
    ensures Polynomial.Eval(FormPoly(pts, c, i, j), v) == Form(pts, c, i, j, v)
  {
    if j == 0 {
      Polynomial.EvalHead([c[i][0]], v);
    } else {
      FormIsPolynomial(pts, c, i, j - 1, v);
      FormPolyStep(pts, c, i, j, v);
    }
  }

  /** One more term of the Newton form, on both sides. */
  lemma FormPolyStep(pts: seq<Point>, c: seq<seq<real>>, i: nat, j: nat, v: real)
    requires Square(c, |pts|) && i + j < |pts| && 1 <= j
    requires Polynomial.Eval(FormPoly(pts, c, i, j - 1), v) == Form(pts, c, i, j - 1, v)
    ensures Polynomial.Eval(FormPoly(pts, c, i, j), v) == Form(pts, c, i, j, v)
  {
    var o := OmegaPoly(pts, i, j);
    OmegaIsPolynomial(pts, i, j, v);
    Polynomial.AddEval(FormPoly(pts, c, i, j - 1), Polynomial.Scale(o, c[i][j]), v);
    Polynomial.ScaleEval(o, c[i][j], v);
    FormTerm(pts, c, i, j, v);
  }

  /** The newest term of the form, as a single product. */
  lemma FormTerm(pts: seq<Point>, c: seq<seq<real>>, i: nat, j: nat, v: real)
    requires Square(c, |pts|) && i + j < |pts| && 1 <= j
    ensures Form(pts, c, i, j, v) == Form(pts, c, i, j - 1, v) + Polynomial.Times(c[i][j], Omega(pts, i, j, v))
  {
  }

  /** The coefficients of the Newton form minus those of the Lagrange
      polynomial. */
  function Difference(pts: seq<Point>, table: seq<seq<real>>): (r: seq<real>)
    requires DistinctX(pts) && Square(table, |pts|) && |pts| != 0
    ensures |r| <= |pts|
  {
    Polynomial.Add(FormPoly(pts, table, 0, |pts| - 1), Polynomial.Scale(Lagrange.PartialPoly(pts, |pts|), -1.0))
  }

  /** The value of `Difference` is the difference of the two evaluators. */
  lemma DifferenceValue(pts: seq<Point>, table: seq<seq<real>>, w: real)
    requires DistinctX(pts) && Square(table, |pts|) && |pts| != 0
    ensures Polynomial.Eval(Difference(pts, table), w) == Form(pts, table, 0, |pts| - 1, w) - Lagrange.Value(pts, w)
  {
    var lagrange := Lagrange.PartialPoly(pts, |pts|);
    FormIsPolynomial(pts, table, 0, |pts| - 1, w);
    Lagrange.ValueIsPolynomial(pts, w);
    Polynomial.AddEval(FormPoly(pts, table, 0, |pts| - 1), Polynomial.Scale(lagrange, -1.0), w);
    Polynomial.ScaleEval(lagrange, -1.0, w);
  }

  /** The Newton and Lagrange evaluators are the same function: both are
      polynomials of degree at most n - 1 through the n points, so their
      difference has n distinct roots and at most n coefficients. */
  lemma AgreesWithLagrange(pts: seq<Point>, table: seq<seq<real>>, v: real)
    requires DistinctX(pts) && IsTable(pts, table) && |pts| != 0
    ensures Form(pts, table, 0, |pts| - 1, v) == Lagrange.Value(pts, v)
  {
    TableRecurrent(pts, table);
    forall k | 0 <= k < |pts|
      ensures Polynomial.Eval(Difference(pts, table), pts[k].0) == 0.0
    {
      DifferenceValue(pts, table, pts[k].0);
      Reproduces(pts, table, k);
      Lagrange.Reproduces(pts, k);
    }
    Polynomial.RootsForceZero(Difference(pts, table), pts, v);
    DifferenceValue(pts, table, v);
  }
}
