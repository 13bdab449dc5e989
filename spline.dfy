/** `Interpolator._spline_interpolation`: the natural cubic spline through
    the sorted knots, fitted by the Thomas algorithm, and its piecewise
    evaluator. */
module Spline {
  import opened Common
  import opened Samples
  import opened SplineOrder

  const TooFewPointsMessage: string := "Spline interpolation requires at least 3 points"

  /** `x = [p[0] for p in points]`. */
  function Xs(pts: seq<Point>): (r: seq<real>)
    ensures |r| == |pts| && forall i :: 0 <= i < |pts| ==> r[i] == pts[i].0
  {
    seq(|pts|, i requires 0 <= i < |pts| => pts[i].0)
  }

  /** `y = [p[1] for p in points]`. */
  function Ys(pts: seq<Point>): (r: seq<real>)
    ensures |r| == |pts| && forall i :: 0 <= i < |pts| ==> r[i] == pts[i].1
  {
    seq(|pts|, i requires 0 <= i < |pts| => pts[i].1)
  }

  predicate Ascending(x: seq<real>)
  {
    forall i, j :: 0 <= i < j < |x| ==> x[i] < x[j]
  }

  /** The knot spacing `h[i]`. */
  function Width(x: seq<real>, i: int): real
    requires 0 <= i < |x| - 1
  {
    x[i + 1] - x[i]
  }

  /** The right-hand side `alpha[i]` of the spline system at an interior knot. */
  function Alpha(x: seq<real>, y: seq<real>, i: int): real
    requires Ascending(x) && |y| == |x| && 1 <= i < |x| - 1
  {
    3.0 / Width(x, i) * (y[i + 1] - y[i]) - 3.0 / Width(x, i - 1) * (y[i] - y[i - 1])
  }

  /** The fitted spline: on `[x[i], x[i+1]]` it is
      `y[i] + b[i]*dx + c[i]*dx^2 + d[i]*dx^3` with `dx = v - x[i]`. */
  datatype CubicSpline = CubicSpline(x: seq<real>, y: seq<real>, b: seq<real>, c: seq<real>, d: seq<real>)

  predicate Shaped(sp: CubicSpline)
  {
    var n := |sp.x|;
    n >= 3 && |sp.y| == n && |sp.c| == n && |sp.b| == n - 1 && |sp.d| == n - 1 && Ascending(sp.x)
  }

  /** Interior row `i` of the tridiagonal system of the natural spline. */
  predicate SystemRow(x: seq<real>, y: seq<real>, c: seq<real>, i: int)
    requires Ascending(x) && |y| == |x| && |c| == |x| && 1 <= i < |x| - 1
  {
    Width(x, i - 1) * c[i - 1] + 2.0 * (Width(x, i - 1) + Width(x, i)) * c[i] + Width(x, i) * c[i + 1]
    == Alpha(x, y, i)
  }

  /** Segment `i` ends at the next knot's ordinate, and its curvature there
      hands over to the next segment's (`c[i+1]`). */
  predicate SegmentRow(x: seq<real>, y: seq<real>, b: seq<real>, c: seq<real>, d: seq<real>, i: int)
    requires |y| == |x| && |c| == |x| && |b| == |x| - 1 && |d| == |x| - 1 && 0 <= i < |x| - 1
  {
    var w := Width(x, i);
    y[i] + b[i] * w + c[i] * (w * w) + d[i] * (w * w * w) == y[i + 1]
    && c[i] + 3.0 * d[i] * w == c[i + 1]
  }

  /** The natural cubic spline through the knots `(x[i], y[i])`. */
  predicate IsNaturalSpline(sp: CubicSpline)
  {
    Shaped(sp)
    && sp.c[0] == 0.0 && sp.c[|sp.x| - 1] == 0.0
    && (forall i :: 1 <= i < |sp.x| - 1 ==> SystemRow(sp.x, sp.y, sp.c, i))
    && (forall i :: 0 <= i < |sp.x| - 1 ==> SegmentRow(sp.x, sp.y, sp.b, sp.c, sp.d, i))
  }

  /** Segment `i` of the spline evaluated at `v`. */
  function Cubic(sp: CubicSpline, i: int, v: real): real
    requires Shaped(sp) && 0 <= i < |sp.x| - 1
  {
    var dx := v - sp.x[i];
    sp.y[i] + sp.b[i] * dx + sp.c[i] * (dx * dx) + sp.d[i] * (dx * dx * dx)
  }

  /** First derivative of segment `i` at `v`. */
  function Slope(sp: CubicSpline, i: int, v: real): real
    requires Shaped(sp) && 0 <= i < |sp.x| - 1
  {
    var dx := v - sp.x[i];
    sp.b[i] + 2.0 * sp.c[i] * dx + 3.0 * sp.d[i] * (dx * dx)
  }

  /** Second derivative of segment `i` at `v`. */
  function Curvature(sp: CubicSpline, i: int, v: real): real
    requires Shaped(sp) && 0 <= i < |sp.x| - 1
  {
    2.0 * sp.c[i] + 6.0 * sp.d[i] * (v - sp.x[i])
  }

  // ---------------------------------------------------------------------
  // Fitting
  // ---------------------------------------------------------------------

  /** The spacings `h` of ascending knots are positive. */
  predicate Spacings(x: seq<real>, h: seq<real>)
  {
    |h| == |x| - 1 && forall i :: 0 <= i < |h| ==> h[i] == x[i + 1] - x[i] && h[i] > 0.0
  }

  /** The `alpha` loop: `alpha[0]` stays 0 and the interior entries are the
      system's right-hand sides. */
  method RightHandSides(x: seq<real>, y: seq<real>, h: seq<real>) returns (alpha: seq<real>)
    requires |x| >= 3 && |y| == |x| && Ascending(x) && Spacings(x, h)
    ensures |alpha| == |x| - 1 && alpha[0] == 0.0
    ensures forall i :: 1 <= i < |x| - 1 ==> alpha[i] == Alpha(x, y, i)
  {
    var n := |x|;
    alpha := seq(n - 1, _ => 0.0);
    var i := 1;
    while i < n - 1
      invariant 1 <= i <= n - 1 && |alpha| == n - 1 && alpha[0] == 0.0
      invariant forall k :: 1 <= k < i ==> alpha[k] == Alpha(x, y, k)
    {
      alpha := alpha[i := 3.0 / h[i] * (y[i + 1] - y[i]) - 3.0 / h[i - 1] * (y[i] - y[i - 1])];
      i := i + 1;
    }
  }

  /** Row `i` of the forward sweep: the pivot `l[i]` exceeds `h[i]`, and
      `mu[i]` and `z[i]` are the eliminated coefficients, multiplied out. */
  predicate SweepRow(x: seq<real>, h: seq<real>, alpha: seq<real>,
                     l: seq<real>, mu: seq<real>, z: seq<real>, i: int)
    requires |h| == |x| - 1 && |alpha| == |x| - 1 && |l| == |x| && |mu| == |x| && |z| == |x|
    requires 1 <= i < |x| - 1
  {
    l[i] + h[i - 1] * mu[i - 1] == 2.0 * (x[i + 1] - x[i - 1])
    && l[i] > h[i]
    && mu[i] * l[i] == h[i] && 0.0 <= mu[i] < 1.0
    && z[i] * l[i] == alpha[i] - h[i - 1] * z[i - 1]
  }

  /** A sweep row depends only on its own entries and its predecessor's. */
  lemma SweepRowFrame(x: seq<real>, h: seq<real>, alpha: seq<real>,
                      l: seq<real>, mu: seq<real>, z: seq<real>,
                      l': seq<real>, mu': seq<real>, z': seq<real>, k: int)
    requires |h| == |x| - 1 && |alpha| == |x| - 1 && |l| == |x| && |mu| == |x| && |z| == |x|
    requires |l'| == |x| && |mu'| == |x| && |z'| == |x| && 1 <= k < |x| - 1
    requires SweepRow(x, h, alpha, l, mu, z, k)
    requires l'[k] == l[k] && mu'[k] == mu[k] && mu'[k - 1] == mu[k - 1]
    requires z'[k] == z[k] && z'[k - 1] == z[k - 1]
    ensures SweepRow(x, h, alpha, l', mu', z', k)
  {
  }

  /** A pivot of the diagonally dominant system stays above the next
      spacing. */
  lemma PivotBound(hp: real, hi: real, m: real, s: real)
    requires hp > 0.0 && hi > 0.0 && 0.0 <= m < 1.0 && s == hp + hi
    ensures 2.0 * s - hp * m > hi
  {
    assert hp * m < hp;
  }

  /** `mu[i] = h[i] / l[i]` lies in `[0, 1)`. */
  lemma RatioBound(a: real, b: real)
    requires 0.0 < a < b
    ensures 0.0 <= a / b < 1.0 && (a / b) * b == a
  {
    DivCancel(a, b);
    var q := a / b;
    assert q * b == a;
    if q >= 1.0 {
      assert false;
    }
    if q < 0.0 {
      assert false;
    }
  }

  /** The forward loop of the Thomas algorithm. */
  method Sweep(x: seq<real>, h: seq<real>, alpha: seq<real>) returns (l: seq<real>, mu: seq<real>, z: seq<real>)
    requires |x| >= 3 && Spacings(x, h) && |alpha| == |x| - 1
    ensures |l| == |x| && |mu| == |x| && |z| == |x|
    ensures l[0] == 1.0 && mu[0] == 0.0 && z[0] == 0.0
    ensures forall i :: 1 <= i < |x| - 1 ==> SweepRow(x, h, alpha, l, mu, z, i)
  {
    var n := |x|;
    l := seq(n, _ => 1.0);
    mu := seq(n, _ => 0.0);
    z := seq(n, _ => 0.0);
    var i := 1;
    while i < n - 1
      invariant 1 <= i <= n - 1 && |l| == n && |mu| == n && |z| == n
      invariant l[0] == 1.0 && mu[0] == 0.0 && z[0] == 0.0
      invariant 0.0 <= mu[i - 1] < 1.0
      invariant forall k :: 1 <= k < i ==> SweepRow(x, h, alpha, l, mu, z, k)
    {
      ghost var l0, mu0, z0 := l, mu, z;
      PivotBound(h[i - 1], h[i], mu[i - 1], x[i + 1] - x[i - 1]);
      l := l[i := 2.0 * (x[i + 1] - x[i - 1]) - h[i - 1] * mu[i - 1]];
      RatioBound(h[i], l[i]);
      mu := mu[i := h[i] / l[i]];
      DivCancel(alpha[i] - h[i - 1] * z[i - 1], l[i]);
      z := z[i := (alpha[i] - h[i - 1] * z[i - 1]) / l[i]];
      assert SweepRow(x, h, alpha, l, mu, z, i);
      forall k | 1 <= k < i
        ensures SweepRow(x, h, alpha, l, mu, z, k)
      {
        SweepRowFrame(x, h, alpha, l0, mu0, z0, l, mu, z, k);
      }
      i := i + 1;
    }
  }

  /** Row `i` of the back substitution. */
  predicate BackRow(mu: seq<real>, z: seq<real>, c: seq<real>, i: int)
    requires |mu| == |z| == |c| && 0 <= i < |c| - 1
  {
    c[i] == z[i] - mu[i] * c[i + 1]
  }

  /** The backward loop of the Thomas algorithm; `c[n-1]` keeps its initial
      0. */
  method BackSubstitute(mu: seq<real>, z: seq<real>) returns (c: seq<real>)
    requires |mu| == |z| >= 1
    ensures |c| == |z| && c[|z| - 1] == 0.0
    ensures forall i :: 0 <= i < |z| - 1 ==> BackRow(mu, z, c, i)
  {
    var n := |z|;
    c := seq(n, _ => 0.0);
    var i := n - 1;
    while i > 0
      invariant 0 <= i <= n - 1 && |c| == n && c[n - 1] == 0.0
      invariant forall k :: i <= k < n - 1 ==> BackRow(mu, z, c, k)
    {
      i := i - 1;
      ghost var c0 := c;
      c := c[i := z[i] - mu[i] * c[i + 1]];
      forall k | i < k < n - 1
        ensures BackRow(mu, z, c, k)
      {
        assert BackRow(mu, z, c0, k);
        assert c[k] == c0[k] && c[k + 1] == c0[k + 1];
      }
      assert BackRow(mu, z, c, i);
    }
  }

  /** One row of elimination followed by back substitution solves that row
      of the original system. */
  lemma EliminationAlgebra(hp: real, hi: real, s: real, li: real, mui: real, zi: real,
                           ci: real, cn: real, zp: real, mup: real, cp: real, al: real)
    requires li + hp * mup == 2.0 * s && s == hp + hi
    requires mui * li == hi && zi * li == al - hp * zp
    requires ci == zi - mui * cn && cp == zp - mup * ci
    ensures hp * cp + 2.0 * (hp + hi) * ci + hi * cn == al
  {
    assert zi * li == ci * li + hi * cn;
    assert hp * zp == hp * cp + hp * mup * ci;
    assert al == ci * (li + hp * mup) + hi * cn + hp * cp;
  }

  /** The sweep and the back substitution together solve row `i` of the
      system, stated over the loop's own `h` and `alpha`. */
  lemma SweepSolvesRow(x: seq<real>, h: seq<real>, alpha: seq<real>,
                       l: seq<real>, mu: seq<real>, z: seq<real>, c: seq<real>, i: int)
    requires |x| >= 3 && |h| == |x| - 1 && 1 <= i < |x| - 1
    requires h[i - 1] + h[i] == x[i + 1] - x[i - 1]
    requires |alpha| == |x| - 1 && |l| == |x| && |mu| == |x| && |z| == |x| && |c| == |x|
    requires SweepRow(x, h, alpha, l, mu, z, i)
    requires BackRow(mu, z, c, i) && BackRow(mu, z, c, i - 1)
    ensures h[i - 1] * c[i - 1] + 2.0 * (h[i - 1] + h[i]) * c[i] + h[i] * c[i + 1] == alpha[i]
  {
    EliminationAlgebra(h[i - 1], h[i], x[i + 1] - x[i - 1], l[i], mu[i], z[i],
                       c[i], c[i + 1], z[i - 1], mu[i - 1], c[i - 1], alpha[i]);
  }

  /** Row `i` with the spacings and right-hand side substituted. */
  lemma RowFromValues(x: seq<real>, y: seq<real>, c: seq<real>, i: int, hp: real, hi: real, al: real)
    requires Ascending(x) && |y| == |x| && |c| == |x| && 1 <= i < |x| - 1
    requires hp == Width(x, i - 1) && hi == Width(x, i) && al == Alpha(x, y, i)
    requires hp * c[i - 1] + 2.0 * (hp + hi) * c[i] + hi * c[i + 1] == al
    ensures SystemRow(x, y, c, i)
  {
  }

  /** Segment coefficients `b[i]` and `d[i]` meet the next knot and hand the
      curvature over. */
  lemma CoefficientAlgebra(w: real, y0: real, y1: real, c0: real, c1: real, b0: real, d0: real)
    requires w > 0.0
    requires b0 == (y1 - y0) / w - w * (c1 + 2.0 * c0) / 3.0
    requires d0 == (c1 - c0) / (3.0 * w)
    ensures y0 + b0 * w + c0 * (w * w) + d0 * (w * w * w) == y1
    ensures c0 + 3.0 * d0 * w == c1
  {
    DivCancel(y1 - y0, w);
    DivCancel(c1 - c0, 3.0 * w);
    var q := (y1 - y0) / w;
    var e := d0 * (3.0 * w);
    assert e == c1 - c0;
    assert b0 * w == q * w - w * w * (c1 + 2.0 * c0) / 3.0;
    assert d0 * (w * w * w) == e * (w * w) / 3.0;
  }

  /** A segment row depends only on that segment's coefficients. */
  lemma SegmentRowFrame(x: seq<real>, y: seq<real>, b: seq<real>, c: seq<real>, d: seq<real>,
                        b': seq<real>, d': seq<real>, k: int)
    requires |y| == |x| && |c| == |x| && |b| == |x| - 1 && |d| == |x| - 1 && 0 <= k < |x| - 1
    requires |b'| == |x| - 1 && |d'| == |x| - 1 && b'[k] == b[k] && d'[k] == d[k]
    requires SegmentRow(x, y, b, c, d, k)
    ensures SegmentRow(x, y, b', c, d', k)
  {
  }

  /** The `b`/`d` loop. */
  method Coefficients(x: seq<real>, y: seq<real>, h: seq<real>, c: seq<real>) returns (b: seq<real>, d: seq<real>)
    requires |x| >= 2 && |y| == |x| && |c| == |x| && Spacings(x, h)
    ensures |b| == |x| - 1 && |d| == |x| - 1
    ensures forall i :: 0 <= i < |x| - 1 ==> SegmentRow(x, y, b, c, d, i)
  {
    var n := |x|;
    b := seq(n - 1, _ => 0.0);
    d := seq(n - 1, _ => 0.0);
    var i := 0;
    while i < n - 1
      invariant 0 <= i <= n - 1 && |b| == n - 1 && |d| == n - 1
      invariant forall k :: 0 <= k < i ==> SegmentRow(x, y, b, c, d, k)
    {
      ghost var b0, d0 := b, d;
      b := b[i := (y[i + 1] - y[i]) / h[i] - h[i] * (c[i + 1] + 2.0 * c[i]) / 3.0];
      d := d[i := (c[i + 1] - c[i]) / (3.0 * h[i])];
      CoefficientAlgebra(h[i], y[i], y[i + 1], c[i], c[i + 1], b[i], d[i]);
      forall k | 0 <= k < i
        ensures SegmentRow(x, y, b, c, d, k)
      {
        SegmentRowFrame(x, y, b0, c, d0, b, d, k);
      }
      assert SegmentRow(x, y, b, c, d, i);
      i := i + 1;
    }
  }

  /** The sweep and the back substitution solve every interior row. */
  lemma SweepSolvesSystem(x: seq<real>, y: seq<real>, h: seq<real>, alpha: seq<real>,
                          l: seq<real>, mu: seq<real>, z: seq<real>, c: seq<real>)
    requires |x| >= 3 && |y| == |x| && Ascending(x) && Spacings(x, h)
    requires |alpha| == |x| - 1 && forall i :: 1 <= i < |x| - 1 ==> alpha[i] == Alpha(x, y, i)
    requires |l| == |x| && |mu| == |x| && |z| == |x| && |c| == |x|
    requires forall i :: 1 <= i < |x| - 1 ==> SweepRow(x, h, alpha, l, mu, z, i)
    requires forall i :: 0 <= i < |x| - 1 ==> BackRow(mu, z, c, i)
    ensures forall i :: 1 <= i < |x| - 1 ==> SystemRow(x, y, c, i)
  {
    forall i | 1 <= i < |x| - 1
      ensures SystemRow(x, y, c, i)
    {
      assert SweepRow(x, h, alpha, l, mu, z, i);
      assert BackRow(mu, z, c, i) && BackRow(mu, z, c, i - 1);
      assert h[i - 1] == x[i] - x[i - 1] && h[i] == x[i + 1] - x[i];
      SweepSolvesSystemRow(x, y, h, alpha, l, mu, z, c, i);
    }
  }

  /** One interior row of `SweepSolvesSystem`. */
  lemma SweepSolvesSystemRow(x: seq<real>, y: seq<real>, h: seq<real>, alpha: seq<real>,
                             l: seq<real>, mu: seq<real>, z: seq<real>, c: seq<real>, i: int)
    requires |x| >= 3 && |y| == |x| && Ascending(x) && |h| == |x| - 1 && 1 <= i < |x| - 1
    requires h[i - 1] == x[i] - x[i - 1] && h[i] == x[i + 1] - x[i]
    requires |alpha| == |x| - 1 && alpha[i] == Alpha(x, y, i)
    requires |l| == |x| && |mu| == |x| && |z| == |x| && |c| == |x|
    requires SweepRow(x, h, alpha, l, mu, z, i)
    requires BackRow(mu, z, c, i) && BackRow(mu, z, c, i - 1)
    ensures SystemRow(x, y, c, i)
  {
    SweepSolvesRow(x, h, alpha, l, mu, z, c, i);
    RowFromValues(x, y, c, i, h[i - 1], h[i], alpha[i]);
  }

  /** The coefficient computation over sorted knots: the result is the
      natural cubic spline through them. */
  method FitKnots(x: seq<real>, y: seq<real>) returns (sp: CubicSpline)
    requires |x| >= 3 && |y| == |x| && Ascending(x)
    ensures sp.x == x && sp.y == y && IsNaturalSpline(sp)
  {
    var n := |x|;
    var h := seq(n - 1, i requires 0 <= i < n - 1 => x[i + 1] - x[i]);
    var alpha := RightHandSides(x, y, h);
    var l, mu, z := Sweep(x, h, alpha);
    var c := BackSubstitute(mu, z);
    assert c[0] == 0.0 by {
      assert BackRow(mu, z, c, 0);
    }
    SweepSolvesSystem(x, y, h, alpha, l, mu, z, c);
    var b, d := Coefficients(x, y, h, c);
    sp := CubicSpline(x, y, b, c, d);
  }

  /** `_spline_interpolation` up to building the evaluator: fewer than three
      points is an error; otherwise the knots are the points sorted by
      abscissa and the coefficients are those of the natural cubic spline
      through them. */
  method Fit(pts: seq<Point>) returns (r: Result<CubicSpline>)
    requires DistinctX(pts)
    ensures r.Err? <==> |pts| < 3
    ensures r.Err? ==> r.message == TooFewPointsMessage
    ensures r.Ok? ==> r.value.x == Xs(SortByX(pts)) && r.value.y == Ys(SortByX(pts))
    ensures r.Ok? ==> IsNaturalSpline(r.value)
  {
    if |pts| < 3 {
      return Err(TooFewPointsMessage);
    }
    var points := SortByX(pts);
    SortKeepsDistinct(pts);
    StrictlyAscending(points);
    var sp := FitKnots(Xs(points), Ys(points));
    r := Ok(sp);
  }

  // ---------------------------------------------------------------------
  // Evaluation
  // ---------------------------------------------------------------------

  /** The first segment `i >= k` whose right knot is at or beyond `v`. */
  function FirstCovering(x: seq<real>, v: real, k: nat): (i: nat)
    requires |x| >= 2 && Ascending(x) && k <= |x| - 2 && x[k] < v <= x[|x| - 1]
    ensures k <= i <= |x| - 2 && x[i] < v <= x[i + 1]
    ensures forall j :: k < j <= i ==> x[j] < v
    decreases |x| - k
  {
    if v <= x[k + 1] then k else FirstCovering(x, v, k + 1)
  }

  /** The segment the evaluator uses for `v`: the first one below the
      knots, the last one beyond them, and otherwise the one whose interval
      `(x[i], x[i+1]]` holds `v`. */
  function Segment(x: seq<real>, v: real): (i: nat)
    requires |x| >= 2 && Ascending(x)
    ensures i <= |x| - 2
    ensures v <= x[0] ==> i == 0
    ensures x[0] < v && x[|x| - 1] <= v ==> i == |x| - 2
    ensures x[0] < v < x[|x| - 1] ==> x[i] < v <= x[i + 1]
  {
    if v <= x[0] then 0
    else if v >= x[|x| - 1] then |x| - 2
    else FirstCovering(x, v, 0)
  }

  /** The value of the spline at `v`. */
  function Value(sp: CubicSpline, v: real): real
    requires Shaped(sp)
  {
    Cubic(sp, Segment(sp.x, v), v)
  }

  /** The interval search of `spline_function`: a `for` loop over the
      segments that stops at the first right knot not below `v`. */
  method FindSegment(x: seq<real>, v: real) returns (i: nat)
    requires |x| >= 2 && Ascending(x)
    ensures i == Segment(x, v)
  {
    var n := |x|;
    if v <= x[0] {
      i := 0;
    } else if v >= x[n - 1] {
      i := n - 2;
    } else {
      i := 0;
      while !(v <= x[i + 1])
        invariant 0 <= i <= n - 2
        invariant forall j :: 0 < j <= i ==> x[j] < v
        decreases n - i
      {
        i := i + 1;
      }
      SegmentIsFirst(x, v, i);
    }
  }

  /** Between the end knots, the segment is the one whose right knot is the
      first at or beyond `v`. */
  lemma SegmentIsFirst(x: seq<real>, v: real, i: nat)
    requires |x| >= 2 && Ascending(x) && x[0] < v < x[|x| - 1]
    requires i <= |x| - 2 && v <= x[i + 1] && forall j :: 0 < j <= i ==> x[j] < v
    ensures i == Segment(x, v)
  {
    var s := Segment(x, v);
    if s < i {
      assert false;
    } else if s > i {
      assert false;
    }
  }

  /** `spline_function(x_val)`. */
  method Evaluate(sp: CubicSpline, v: real) returns (result: real)
    requires Shaped(sp)
    ensures result == Value(sp, v)
  {
    var i := FindSegment(sp.x, v);
    var dx := v - sp.x[i];
    result := sp.y[i] + sp.b[i] * dx + sp.c[i] * (dx * dx) + sp.d[i] * (dx * dx * dx);
  }

  // ---------------------------------------------------------------------
  // Properties of the natural cubic spline
  // ---------------------------------------------------------------------

  /** Each segment passes through both of its knots. */
  lemma SegmentEnds(sp: CubicSpline, i: int)
    requires IsNaturalSpline(sp) && 0 <= i < |sp.x| - 1
    ensures Cubic(sp, i, sp.x[i]) == sp.y[i]
    ensures Cubic(sp, i, sp.x[i + 1]) == sp.y[i + 1]
  {
    CubicAtStart(sp, i);
    assert SegmentRow(sp.x, sp.y, sp.b, sp.c, sp.d, i);
    CubicAtEnd(sp, i);
  }

  /** Segment i at its left knot is that knot's ordinate. */
  lemma CubicAtStart(sp: CubicSpline, i: int)
    requires Shaped(sp) && 0 <= i < |sp.x| - 1
    ensures Cubic(sp, i, sp.x[i]) == sp.y[i]
  {
    assert sp.x[i] - sp.x[i] == 0.0;
  }

  /** Segment i at its right knot is the value `SegmentRow` fixes. */
  lemma CubicAtEnd(sp: CubicSpline, i: int)
    requires Shaped(sp) && 0 <= i < |sp.x| - 1
    requires SegmentRow(sp.x, sp.y, sp.b, sp.c, sp.d, i)
    ensures Cubic(sp, i, sp.x[i + 1]) == sp.y[i + 1]
  {
    var w := Width(sp.x, i);
    var dx := sp.x[i + 1] - sp.x[i];
    assert dx == w;
    assert sp.y[i] + sp.b[i] * w + sp.c[i] * (w * w) + sp.d[i] * (w * w * w) == sp.y[i + 1];
    assert Cubic(sp, i, sp.x[i + 1]) == sp.y[i] + sp.b[i] * dx + sp.c[i] * (dx * dx) + sp.d[i] * (dx * dx * dx);
  }

  /** The spline passes through every knot. */
  lemma ValueAtKnots(sp: CubicSpline, k: int)
    requires IsNaturalSpline(sp) && 0 <= k < |sp.x|
    ensures Value(sp, sp.x[k]) == sp.y[k]
  {
    var n := |sp.x|;
    var s := Segment(sp.x, sp.x[k]);
    if k == 0 {
      SegmentEnds(sp, 0);
    } else if k == n - 1 {
      SegmentEnds(sp, n - 2);
    } else {
      if s < k - 1 {
        assert false;
      } else if s > k - 1 {
        assert false;
      }
      SegmentEnds(sp, k - 1);
    }
  }

  /** The second derivative is 0 at both end knots. */
  lemma NaturalEnds(sp: CubicSpline)
    requires IsNaturalSpline(sp)
    ensures Curvature(sp, 0, sp.x[0]) == 0.0
    ensures Curvature(sp, |sp.x| - 2, sp.x[|sp.x| - 1]) == 0.0
  {
    var n := |sp.x|;
    assert SegmentRow(sp.x, sp.y, sp.b, sp.c, sp.d, n - 2);
    var w := Width(sp.x, n - 2);
    assert sp.x[n - 1] - sp.x[n - 2] == w;
    assert 3.0 * sp.d[n - 2] * w == sp.c[n - 1] - sp.c[n - 2];
    assert Curvature(sp, n - 2, sp.x[n - 1]) == 2.0 * sp.c[n - 2] + 2.0 * (3.0 * sp.d[n - 2] * w);
  }

  /** Adjacent segments share the second derivative at their common knot. */
  lemma CurvatureContinuous(sp: CubicSpline, i: int)
    requires IsNaturalSpline(sp) && 0 <= i < |sp.x| - 2
    ensures Curvature(sp, i, sp.x[i + 1]) == Curvature(sp, i + 1, sp.x[i + 1])
  {
    assert SegmentRow(sp.x, sp.y, sp.b, sp.c, sp.d, i);
  }

  /** The slope relations of two adjacent segments and the system row at
      their common knot force matching slopes there. */
  lemma SlopeJoin(w0: real, w1: real, b0: real, b1: real, c0: real, c1: real, c2: real,
                  d0: real, q0: real, q1: real)
    requires 3.0 * b0 == 3.0 * q0 - w0 * (2.0 * c0 + c1) && 3.0 * d0 * w0 == c1 - c0
    requires 3.0 * b1 == 3.0 * q1 - w1 * (2.0 * c1 + c2)
    requires w0 * c0 + 2.0 * (w0 + w1) * c1 + w1 * c2 == 3.0 * q1 - 3.0 * q0
    ensures b0 + 2.0 * c0 * w0 + 3.0 * d0 * (w0 * w0) == b1
  {
    assert 3.0 * d0 * (w0 * w0) == (3.0 * d0 * w0) * w0;
  }

  /** A segment meeting its right knot with curvature hand-over has
      `b = q - w*(2*c0 + c1)/3`, where `q` is the chord slope. */
  lemma SlopeOfSegment(w: real, y0: real, y1: real, b: real, c0: real, c1: real, d: real, q: real)
    requires w > 0.0 && q * w == y1 - y0
    requires y0 + b * w + c0 * (w * w) + d * (w * w * w) == y1 && c0 + 3.0 * d * w == c1
    ensures 3.0 * b == 3.0 * q - w * (2.0 * c0 + c1)
    ensures 3.0 * d * w == c1 - c0
  {
    var e := d * w;
    assert d * (w * w * w) == e * (w * w);
    assert w * (b + c0 * w + e * w) == w * q;
    MulCancel(w, b + c0 * w + e * w, q);
  }

  /** Adjacent segments share the first derivative at their common knot. */
  lemma SlopeContinuous(sp: CubicSpline, i: int)
    requires IsNaturalSpline(sp) && 0 <= i < |sp.x| - 2
    ensures Slope(sp, i, sp.x[i + 1]) == Slope(sp, i + 1, sp.x[i + 1])
  {
    var x, y := sp.x, sp.y;
    SlopeAtKnot(sp, i);
    ChordRow(sp, i);
    SegmentSlope(sp, i);
    SegmentSlope(sp, i + 1);
    SlopeJoin(Width(x, i), Width(x, i + 1), sp.b[i], sp.b[i + 1], sp.c[i], sp.c[i + 1], sp.c[i + 2], sp.d[i],
              (y[i + 1] - y[i]) / Width(x, i), (y[i + 2] - y[i + 1]) / Width(x, i + 1));
  }

  /** Segment i's slope and cubic coefficients through its chord slope. */
  lemma SegmentSlope(sp: CubicSpline, i: int)
    requires IsNaturalSpline(sp) && 0 <= i < |sp.x| - 1
    ensures var w := Width(sp.x, i);
      && 3.0 * sp.b[i] == 3.0 * ((sp.y[i + 1] - sp.y[i]) / w) - w * (2.0 * sp.c[i] + sp.c[i + 1])
      && 3.0 * sp.d[i] * w == sp.c[i + 1] - sp.c[i]
  {
    var x, y := sp.x, sp.y;
    var w := Width(x, i);
    assert w > 0.0;
    DivCancel(y[i + 1] - y[i], w);
    assert SegmentRow(x, y, sp.b, sp.c, sp.d, i);
    SlopeOfSegment(w, y[i], y[i + 1], sp.b[i], sp.c[i], sp.c[i + 1], sp.d[i], (y[i + 1] - y[i]) / w);
  }

  /** The two slopes at knot i + 1, as the two segments' coefficients give them. */
  lemma SlopeAtKnot(sp: CubicSpline, i: int)
    requires Shaped(sp) && 0 <= i < |sp.x| - 2
    ensures Slope(sp, i, sp.x[i + 1])
            == sp.b[i] + 2.0 * sp.c[i] * Width(sp.x, i) + 3.0 * sp.d[i] * (Width(sp.x, i) * Width(sp.x, i))
    ensures Slope(sp, i + 1, sp.x[i + 1]) == sp.b[i + 1]
  {
  }

  /** The system row at knot i + 1 with its right-hand side written through
      the chord slopes of the two segments meeting there. */
  lemma ChordRow(sp: CubicSpline, i: int)
    requires IsNaturalSpline(sp) && 0 <= i < |sp.x| - 2
    ensures var w0, w1 := Width(sp.x, i), Width(sp.x, i + 1);
      w0 * sp.c[i] + 2.0 * (w0 + w1) * sp.c[i + 1] + w1 * sp.c[i + 2]
         == 3.0 * ((sp.y[i + 2] - sp.y[i + 1]) / w1) - 3.0 * ((sp.y[i + 1] - sp.y[i]) / w0)
  {
    var x, y := sp.x, sp.y;
    var w0, w1 := Width(x, i), Width(x, i + 1);
    assert Alpha(x, y, i + 1) == 3.0 * ((y[i + 2] - y[i + 1]) / w1) - 3.0 * ((y[i + 1] - y[i]) / w0);
    assert SystemRow(x, y, sp.c, i + 1);
  }

  // ---------------------------------------------------------------------
  // Uniqueness of the natural cubic spline
  // ---------------------------------------------------------------------

  /** An index of an entry of largest magnitude among `e[0..k]`. */
  function MaxIndex(e: seq<real>, k: nat): (m: nat)
    requires k < |e|
    ensures m <= k && forall j :: 0 <= j <= k ==> Abs(e[j]) <= Abs(e[m])
  {
    if k == 0 then 0
    else
      var m := MaxIndex(e, k - 1);
      if Abs(e[k]) > Abs(e[m]) then k else m
  }

  /** In a diagonally dominant homogeneous row, an entry at least as large
      as its neighbours is 0. */
  lemma DominantRowVanishes(hp: real, hi: real, ep: real, em: real, en: real)
    requires hp > 0.0 && hi > 0.0
    requires Abs(ep) <= Abs(em) && Abs(en) <= Abs(em)
    requires hp * ep + 2.0 * (hp + hi) * em + hi * en == 0.0
    ensures em == 0.0
  {
    if em > 0.0 {
      RowAtLeast(hp, hi, ep, em, en);
      ScaleAtLeast(hp + hi, em, 0.0);
      assert false;
    } else if em < 0.0 {
      RowAtLeast(hp, hi, -ep, -em, -en);
      ScaleAtLeast(hp + hi, -em, 0.0);
      assert false;
    }
  }

  /** A row whose centre `em >= 0` dominates its neighbours is at least
      `(hp + hi) * em`. */
  lemma RowAtLeast(hp: real, hi: real, ep: real, em: real, en: real)
    requires hp > 0.0 && hi > 0.0 && ep >= -em && en >= -em
    ensures hp * ep + 2.0 * (hp + hi) * em + hi * en >= (hp + hi) * em
    ensures (-hp) * ep + 2.0 * (hp + hi) * (-em) - hi * en <= (hp + hi) * (-em)
  {
    ScaleAtLeast(hp, ep, -em);
    ScaleAtLeast(hi, en, -em);
  }

  /** Multiplying by a positive factor keeps an order, strictly. */
  lemma ScaleAtLeast(h: real, e: real, m: real)
    requires h > 0.0 && e >= m
    ensures h * e >= h * m && (e > m ==> h * e > h * m)
  {
  }

  /** Two solutions of the same row differ by a solution of the
      homogeneous row. */
  lemma RowDifference(x: seq<real>, y: seq<real>, c: seq<real>, c': seq<real>, i: int)
    requires Ascending(x) && |y| == |x| && |c| == |x| && |c'| == |x| && 1 <= i < |x| - 1
    requires SystemRow(x, y, c, i) && SystemRow(x, y, c', i)
    ensures Width(x, i - 1) * (c[i - 1] - c'[i - 1]) + 2.0 * (Width(x, i - 1) + Width(x, i)) * (c[i] - c'[i])
            + Width(x, i) * (c[i + 1] - c'[i + 1]) == 0.0
  {
  }

  /** Homogeneous row `i` of the system. */
  predicate HomogeneousRow(x: seq<real>, e: seq<real>, i: int)
    requires |e| == |x| && 1 <= i < |x| - 1
  {
    Width(x, i - 1) * e[i - 1] + 2.0 * (Width(x, i - 1) + Width(x, i)) * e[i] + Width(x, i) * e[i + 1] == 0.0
  }

  /** The homogeneous system with zero ends has only the zero solution. */
  lemma HomogeneousIsZero(x: seq<real>, e: seq<real>)
    requires |x| >= 3 && Ascending(x) && |e| == |x| && e[0] == 0.0 && e[|x| - 1] == 0.0
    requires forall i :: 1 <= i < |x| - 1 ==> HomogeneousRow(x, e, i)
    ensures forall i :: 0 <= i < |e| ==> e[i] == 0.0
  {
    var n := |x|;
    var m := MaxIndex(e, n - 1);
    if 0 < m < n - 1 {
      assert HomogeneousRow(x, e, m);
      DominantRowVanishes(Width(x, m - 1), Width(x, m), e[m - 1], e[m], e[m + 1]);
    }
    assert Abs(e[m]) == 0.0;
    forall i | 0 <= i < n
      ensures e[i] == 0.0
    {
      assert Abs(e[i]) <= Abs(e[m]);
    }
  }

  /** The curvature coefficients of the natural spline are determined by
      the knots. */
  lemma CurvaturesUnique(x: seq<real>, y: seq<real>, c: seq<real>, c': seq<real>)
    requires |x| >= 3 && Ascending(x) && |y| == |x| && |c| == |x| && |c'| == |x|
    requires c[0] == 0.0 && c[|x| - 1] == 0.0 && c'[0] == 0.0 && c'[|x| - 1] == 0.0
    requires forall i :: 1 <= i < |x| - 1 ==> SystemRow(x, y, c, i)
    requires forall i :: 1 <= i < |x| - 1 ==> SystemRow(x, y, c', i)
    ensures c == c'
  {
    var n := |x|;
    var e := seq(n, i requires 0 <= i < n => c[i] - c'[i]);
    forall i | 1 <= i < n - 1
      ensures HomogeneousRow(x, e, i)
    {
      RowDifference(x, y, c, c', i);
    }
    HomogeneousIsZero(x, e);
    assert forall i :: 0 <= i < n ==> c[i] == c'[i] + e[i];
  }

  /** Segment coefficients are determined by the knots and the curvature
      coefficients. */
  lemma SegmentUnique(x: seq<real>, y: seq<real>, b: seq<real>, c: seq<real>, d: seq<real>,
                      b': seq<real>, d': seq<real>, i: int)
    requires Ascending(x) && |y| == |x| && |c| == |x| && |b| == |x| - 1 && |d| == |x| - 1
    requires |b'| == |x| - 1 && |d'| == |x| - 1 && 0 <= i < |x| - 1
    requires SegmentRow(x, y, b, c, d, i) && SegmentRow(x, y, b', c, d', i)
    ensures b[i] == b'[i] && d[i] == d'[i]
  {
    var w := Width(x, i);
    var q := (y[i + 1] - y[i]) / w;
    DivCancel(y[i + 1] - y[i], w);
    SlopeOfSegment(w, y[i], y[i + 1], b[i], c[i], c[i + 1], d[i], q);
    SlopeOfSegment(w, y[i], y[i + 1], b'[i], c[i], c[i + 1], d'[i], q);
    MulCancel(3.0 * w, d[i], d'[i]);
  }

  /** There is exactly one natural cubic spline through given knots, so
      any two fits of the same knots coincide. */
  lemma NaturalSplineUnique(sp: CubicSpline, sp': CubicSpline)
    requires IsNaturalSpline(sp) && IsNaturalSpline(sp')
    requires sp.x == sp'.x && sp.y == sp'.y
    ensures sp == sp'
  {
    CurvaturesUnique(sp.x, sp.y, sp.c, sp'.c);
    forall i | 0 <= i < |sp.x| - 1
      ensures sp.b[i] == sp'.b[i] && sp.d[i] == sp'.d[i]
    {
      assert SegmentRow(sp.x, sp.y, sp.b, sp.c, sp.d, i);
      assert SegmentRow(sp'.x, sp'.y, sp'.b, sp'.c, sp'.d, i);
      SegmentUnique(sp.x, sp.y, sp.b, sp.c, sp.d, sp'.b, sp'.d, i);
    }
  }
}
