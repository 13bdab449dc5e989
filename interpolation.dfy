/** `Interpolator`: input validation, dispatch on the method name, and the
    evaluator each method returns. */
module Interpolation {
  import opened Common
  import opened Samples
  import Lagrange
  import Newton
  import Spline
  import SplineOrder

  const DefaultScheme: string := "lagrange"

  const TooFewPointsMessage: string := "At least 2 points are required for interpolation"
  const DuplicateXMessage: string := "X values must be unique"
  const BadSchemeMessage: string := "Method must be 'lagrange', 'newton' or 'spline'"

  /** The solver's configuration: the data points and the method name. */
  datatype Interpolator = Interpolator(points: seq<Point>, scheme: string)

  /** The `'function'` entry of the result: a closure over the data each
      method prepares. */
  datatype Interpolant =
    | LagrangePoly(pts: seq<Point>)
    | NewtonPoly(pts: seq<Point>, table: seq<seq<real>>)
    | PiecewiseCubic(spline: Spline.CubicSpline)

  /** The `'degree'` entry of the polynomial methods, or the `'segments'`
      entry of the spline. */
  datatype Size = Degree(degree: int) | Segments(segments: int)

  /** The dictionary `solve` returns. */
  datatype Report = Report(evaluator: Interpolant, name: string, size: Size)

  /** The distinct abscissas: `set(x_values)`. */
  function XSet(pts: seq<Point>): set<real>
  {
    set i | 0 <= i < |pts| :: pts[i].0
  }

  /** `len(x_values) == len(set(x_values))` holds exactly when no two points
      share an abscissa; otherwise the set is smaller. */
  lemma {:induction false} XSetSize(pts: seq<Point>)
    ensures |XSet(pts)| <= |pts|
    ensures |XSet(pts)| == |pts| <==> DistinctX(pts)
  {
    var n := |pts|;
    if n > 0 {
      var init := pts[..n - 1];
      var last := pts[n - 1].0;
      XSetSize(init);
      XSetSnoc(pts);
      if last in XSet(init) {
        var i :| 0 <= i < n - 1 && init[i].0 == last;
        assert pts[i].0 == pts[n - 1].0;
      } else {
        DistinctSnoc(pts);
      }
    }
  }

  /** Adding a point adds its abscissa to the set. */
  lemma XSetSnoc(pts: seq<Point>)
    requires |pts| > 0
    ensures XSet(pts) == XSet(pts[..|pts| - 1]) + {pts[|pts| - 1].0}
  {
    var n := |pts|;
    var init := pts[..n - 1];
    forall v | v in XSet(pts)
      ensures v in XSet(init) + {pts[n - 1].0}
    {
      var i :| 0 <= i < n && pts[i].0 == v;
      if i < n - 1 {
        assert init[i].0 == v;
      }
    }
    forall v | v in XSet(init)
      ensures v in XSet(pts)
    {
      var i :| 0 <= i < n - 1 && init[i].0 == v;
      assert pts[i].0 == v;
    }
  }

  /** A new abscissa keeps the points distinct exactly when the earlier
      ones were. */
  lemma DistinctSnoc(pts: seq<Point>)
    requires |pts| > 0 && pts[|pts| - 1].0 !in XSet(pts[..|pts| - 1])
    ensures DistinctX(pts) <==> DistinctX(pts[..|pts| - 1])
  {
    var n := |pts|;
    var init := pts[..n - 1];
    if DistinctX(init) {
      forall i, j | 0 <= i < j < n
        ensures pts[i].0 != pts[j].0
      {
        if j == n - 1 {
          assert init[i].0 in XSet(init);
        } else {
          assert init[i] == pts[i] && init[j] == pts[j];
        }
      }
    }
    if DistinctX(pts) {
      forall i, j | 0 <= i < j < n - 1
        ensures init[i].0 != init[j].0
      {
        assert init[i] == pts[i] && init[j] == pts[j];
      }
    }
  }

  /** `validate_input`: the three checks in the source's order. */
  function ValidateInput(s: Interpolator): (r: Result<bool>)
    ensures r.Ok? <==> |s.points| >= 2 && DistinctX(s.points) && s.scheme in ["lagrange", "newton", "spline"]
    ensures r.Ok? ==> r.value
    ensures |s.points| < 2 ==> r == Err(TooFewPointsMessage)
    ensures |s.points| >= 2 && !DistinctX(s.points) ==> r == Err(DuplicateXMessage)
    ensures |s.points| >= 2 && DistinctX(s.points) && s.scheme !in ["lagrange", "newton", "spline"]
            ==> r == Err(BadSchemeMessage)
  {
    XSetSize(s.points);
    if |s.points| < 2 then Err(TooFewPointsMessage)
    else if |s.points| != |XSet(s.points)| then Err(DuplicateXMessage)
    else if s.scheme !in ["lagrange", "newton", "spline"] then Err(BadSchemeMessage)
    else Ok(true)
  }

  /** The data a returned evaluator closes over is what its method built. */
  ghost predicate Valid(f: Interpolant)
  {
    match f
    case LagrangePoly(pts) => DistinctX(pts)
    case NewtonPoly(pts, table) => DistinctX(pts) && |pts| >= 1 && Newton.IsTable(pts, table)
    case PiecewiseCubic(sp) => Spline.IsNaturalSpline(sp)
  }

  /** The value of an evaluator at `v`. */
  ghost function Value(f: Interpolant, v: real): real
    requires Valid(f)
  {
    match f
    case LagrangePoly(pts) => Lagrange.Value(pts, v)
    case NewtonPoly(pts, table) => Newton.Form(pts, table, 0, |pts| - 1, v)
    case PiecewiseCubic(sp) => Spline.Value(sp, v)
  }

  /** Calling the returned `'function'`. */
  method Evaluate(f: Interpolant, v: real) returns (result: real)
    requires Valid(f)
    ensures result == Value(f, v)
  {
    match f
    case LagrangePoly(pts) =>
      result := Lagrange.Evaluate(pts, v);
    case NewtonPoly(pts, table) =>
      result := Newton.Evaluate(pts, table, v);
    case PiecewiseCubic(sp) =>
      result := Spline.Evaluate(sp, v);
  }

  /** The spline passes through every input point, in whatever order the
      caller listed them. */
  lemma SplineReproduces(pts: seq<Point>, sp: Spline.CubicSpline, p: Point)
    requires DistinctX(pts) && Spline.IsNaturalSpline(sp)
    requires sp.x == Spline.Xs(SplineOrder.SortByX(pts)) && sp.y == Spline.Ys(SplineOrder.SortByX(pts))
    requires p in pts
    ensures Spline.Value(sp, p.0) == p.1
  {
    var sorted := SplineOrder.SortByX(pts);
    assert p in multiset(pts);
    assert p in multiset(sorted);
    var m :| 0 <= m < |sorted| && sorted[m] == p;
    Spline.ValueAtKnots(sp, m);
  }

  /** `solve`: validation, then the chosen method's result. */
  method Solve(s: Interpolator) returns (r: Result<Report>)
    ensures ValidateInput(s).Err? ==> r == Err(ValidateInput(s).message)
    ensures ValidateInput(s).Ok? && s.scheme == "spline" && |s.points| < 3
            ==> r == Err(Spline.TooFewPointsMessage)
    ensures r.Ok? <==> ValidateInput(s).Ok? && (s.scheme == "spline" ==> |s.points| >= 3)
    ensures r.Ok? && s.scheme == "lagrange"
            ==> r.value.evaluator == LagrangePoly(s.points) && r.value.name == "Lagrange"
                && r.value.size == Degree(|s.points| - 1)
    ensures r.Ok? && s.scheme == "newton"
            ==> r.value.evaluator.NewtonPoly? && r.value.evaluator.pts == s.points
                && r.value.name == "Newton" && r.value.size == Degree(|s.points| - 1)
    ensures r.Ok? && s.scheme == "spline"
            ==> r.value.evaluator.PiecewiseCubic? && r.value.name == "Cubic Spline"
                && r.value.size == Segments(|s.points| - 1)
                && r.value.evaluator.spline.x == Spline.Xs(SplineOrder.SortByX(s.points))
                && r.value.evaluator.spline.y == Spline.Ys(SplineOrder.SortByX(s.points))
    ensures r.Ok? ==> Valid(r.value.evaluator)
    ensures r.Ok? ==> forall p :: p in s.points ==> Value(r.value.evaluator, p.0) == p.1
    ensures r.Ok? && s.scheme == "newton"
            ==> forall v :: Value(r.value.evaluator, v) == Lagrange.Value(s.points, v)
  {
    var check := ValidateInput(s);
    if check.Err? {
      return Err(check.message);
    }
    var n := |s.points|;
    if s.scheme == "lagrange" {
      var f := LagrangePoly(s.points);
      forall p | p in s.points
        ensures Value(f, p.0) == p.1
      {
        var k :| 0 <= k < n && s.points[k] == p;
        Lagrange.Reproduces(s.points, k);
      }
      r := Ok(Report(f, "Lagrange", Degree(n - 1)));
    } else if s.scheme == "newton" {
      var table := Newton.DividedDifferences(s.points);
      var f := NewtonPoly(s.points, table);
      forall p | p in s.points
        ensures Value(f, p.0) == p.1
      {
        var k :| 0 <= k < n && s.points[k] == p;
        Newton.Reproduces(s.points, table, k);
      }
      forall v {
        Newton.AgreesWithLagrange(s.points, table, v);
      }
      r := Ok(Report(f, "Newton", Degree(n - 1)));
    } else {
      var fit := Spline.Fit(s.points);
      if fit.Err? {
        return Err(fit.message);
      }
      var f := PiecewiseCubic(fit.value);
      forall p | p in s.points
        ensures Value(f, p.0) == p.1
      {
        SplineReproduces(s.points, fit.value, p);
      }
      r := Ok(Report(f, "Cubic Spline", Segments(n - 1)));
    }
  }

  /** The polynomial through (0, 0), (1, 1), (2, 4) is x^2: 2.25 at 1.5. */
  lemma LagrangeSample()
    ensures Lagrange.Value([(0.0, 0.0), (1.0, 1.0), (2.0, 4.0)], 1.5) == 2.25
  {
    var pts := [(0.0, 0.0), (1.0, 1.0), (2.0, 4.0)];
    assert Lagrange.Term(pts, 0, 1.5, 3) == 0.0;
    assert Lagrange.Term(pts, 1, 1.5, 3) == 0.75;
    assert Lagrange.Term(pts, 2, 1.5, 3) == 1.5;
  }

  /** The Newton evaluator through (0, 0), (1, 1), (2, 4) also gives 2.25
      at 1.5, the value of the Lagrange polynomial. */
  lemma NewtonSample(table: seq<seq<real>>)
    requires Newton.IsTable([(0.0, 0.0), (1.0, 1.0), (2.0, 4.0)], table)
    ensures Newton.Form([(0.0, 0.0), (1.0, 1.0), (2.0, 4.0)], table, 0, 2, 1.5) == 2.25
  {
    Newton.AgreesWithLagrange([(0.0, 0.0), (1.0, 1.0), (2.0, 4.0)], table, 1.5);
    LagrangeSample();
  }

  /** Every natural cubic spline through (0, 0), (1, 1), (2, 4) takes the
      value 2.3125 at 1.5. */
  lemma SplineSample(sp: Spline.CubicSpline)
    requires Spline.IsNaturalSpline(sp)
    requires sp.x == [0.0, 1.0, 2.0] && sp.y == [0.0, 1.0, 4.0]
    ensures Spline.Value(sp, 1.5) == 2.3125
  {
    var w := Spline.CubicSpline([0.0, 1.0, 2.0], [0.0, 1.0, 4.0], [0.5, 2.0], [0.0, 1.5, 0.0], [0.5, -0.5]);
    assert Spline.SystemRow(w.x, w.y, w.c, 1);
    assert Spline.SegmentRow(w.x, w.y, w.b, w.c, w.d, 0);
    assert Spline.SegmentRow(w.x, w.y, w.b, w.c, w.d, 1);
    Spline.NaturalSplineUnique(sp, w);
    assert Spline.Segment(w.x, 1.5) == 1;
  }
}
