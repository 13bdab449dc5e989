/** Fixed-step integration of dy/dx = f(x, y) by Euler or classical RK4
    (DifferentialEquationSolver).

    Every step is `h = min(step_size, x_end - x)`, so the run never passes
    `x_end`: all steps but the last have the nominal size, the last one is
    possibly shorter and lands exactly on `x_end`. */
module Differential {
  import opened Common

  /** The right-hand side f(x, y) of the equation. */
  type Equation = (real, real) -> real

  /** The step size a new solver starts with. */
  const DefaultStepSize: real := 0.1

  datatype OdeSolver = OdeSolver(equation: Callee<Equation>, scheme: string, stepSize: real)

  /** The record returned by `solve`. */
  datatype Report = Report(points: seq<(real, real)>, scheme: string, stepSize: real)

  /** `validate_input`: the equation must be callable and the method one of
      the two supported ones. */
  function ValidateInput(s: OdeSolver): (r: Result<bool>)
    ensures r.Ok? <==> s.equation.Callable? && s.scheme in {"euler", "rk4"}
    ensures r.Ok? ==> r.value
    ensures s.equation.NotCallable? ==> r == Err("Equation must be callable")
    ensures s.equation.Callable? && s.scheme !in {"euler", "rk4"} ==> r == Err("Method must be 'euler' or 'rk4'")
  {
    if s.equation.NotCallable? then Err("Equation must be callable")
    else if s.scheme != "euler" && s.scheme != "rk4" then Err("Method must be 'euler' or 'rk4'")
    else Ok(true)
  }

  /** One step of length `h` from (x, y): Euler for "euler", classical
      fourth-order Runge-Kutta otherwise. */
  function Advance(f: Equation, scheme: string, x: real, y: real, h: real): real
  {
    if scheme == "euler" then
      y + h * f(x, y)
    else
      var k1 := f(x, y);
      var k2 := f(x + h / 2.0, y + h / 2.0 * k1);
      var k3 := f(x + h / 2.0, y + h / 2.0 * k2);
      var k4 := f(x + h, y + h * k3);
      y + h * (k1 + 2.0 * k2 + 2.0 * k3 + k4) / 6.0
  }

  /** The length of the step taken from `x`: `min(step_size, x_end - x)`. */
  function StepFrom(step: real, x: real, xEnd: real): real
  {
    if step <= xEnd - x then step else xEnd - x
  }

  /** `pts` is what the loop of `solve` has collected so far: it starts at
      (x0, y0), and every point is one step of length `StepFrom` after the
      previous one, taken only while the previous abscissa is below `xEnd`. */
  ghost predicate IsPartialRun(f: Equation, scheme: string, step: real, x0: real, y0: real, xEnd: real,
                               pts: seq<(real, real)>)
  {
    |pts| >= 1 && pts[0] == (x0, y0) &&
    forall k :: 0 <= k < |pts| - 1 ==>
      pts[k].0 < xEnd &&
      pts[k + 1] == (pts[k].0 + StepFrom(step, pts[k].0, xEnd),
                     Advance(f, scheme, pts[k].0, pts[k].1, StepFrom(step, pts[k].0, xEnd)))
  }

  /** `pts` is the complete run of `solve`: a partial run whose last abscissa
      has reached `xEnd`. */
  ghost predicate IsRun(f: Equation, scheme: string, step: real, x0: real, y0: real, xEnd: real,
                        pts: seq<(real, real)>)
  {
    IsPartialRun(f, scheme, step, x0, y0, xEnd, pts) && pts[|pts| - 1].0 >= xEnd
  }

  lemma DivStep(d: real, step: real)
    requires step > 0.0
    ensures (d - step) / step == d / step - 1.0
  {
    DivCancel(d - step, step);
    DivCancel(d, step);
    MulCancel(step, (d - step) / step, d / step - 1.0);
  }

  /** `solve(x0, y0, x_end)`: validation, the range check, then the stepping
      loop collecting `points`.  The run it returns is the one `IsRun`
      describes; `RunShape` and `RunUnique` say what that run looks like. */
  method Solve(s: OdeSolver, x0: real, y0: real, xEnd: real) returns (r: Result<Report>)
    requires s.stepSize > 0.0
    ensures ValidateInput(s).Err? ==> r == Err(ValidateInput(s).message)
    ensures ValidateInput(s).Ok? && xEnd <= x0 ==> r == Err("End point must be greater than initial point")
    ensures ValidateInput(s).Ok? && x0 < xEnd ==>
              r.Ok? && r.value.scheme == s.scheme && r.value.stepSize == s.stepSize &&
              IsRun(s.equation.fn, s.scheme, s.stepSize, x0, y0, xEnd, r.value.points)
  {
    var valid := ValidateInput(s);
    if valid.Err? {
      return Err(valid.message);
    }
    if xEnd <= x0 {
      return Err("End point must be greater than initial point");
    }
    var points := Steps(s.equation.fn, s.scheme, s.stepSize, x0, y0, xEnd);
    return Ok(Report(points, s.scheme, s.stepSize));
  }

  /** The stepping loop of `solve`: from (x0, y0), one step of the scheme
      at a time, the last one shortened to land on `xEnd`. */
  method Steps(f: Equation, scheme: string, step: real, x0: real, y0: real, xEnd: real)
    returns (points: seq<(real, real)>)
    requires step > 0.0
    ensures IsRun(f, scheme, step, x0, y0, xEnd, points)
  {
    points := [(x0, y0)];
    var x, y := x0, y0;
    while x < xEnd
      invariant IsPartialRun(f, scheme, step, x0, y0, xEnd, points)
      invariant points[|points| - 1] == (x, y)
      decreases if x < xEnd then (xEnd - x) / step + 1.0 else 0.0
    {
      var h := if step <= xEnd - x then step else xEnd - x;
      if h == step {
        DivStep(xEnd - x, step);
      }
      ExtendRun(f, scheme, step, x0, y0, xEnd, points);
      y := Advance(f, scheme, x, y, h);
      x := x + h;
      points := points + [(x, y)];
    }
  }

  /** A partial run whose last abscissa is below `xEnd` extends by one step. */
  lemma ExtendRun(f: Equation, scheme: string, step: real, x0: real, y0: real, xEnd: real,
                  pts: seq<(real, real)>)
    requires IsPartialRun(f, scheme, step, x0, y0, xEnd, pts) && pts[|pts| - 1].0 < xEnd
    ensures var p := pts[|pts| - 1]; var h := StepFrom(step, p.0, xEnd);
            IsPartialRun(f, scheme, step, x0, y0, xEnd, pts + [(p.0 + h, Advance(f, scheme, p.0, p.1, h))])
  {
    var p := pts[|pts| - 1];
    var h := StepFrom(step, p.0, xEnd);
    var pts' := pts + [(p.0 + h, Advance(f, scheme, p.0, p.1, h))];
    forall k | 0 <= k < |pts'| - 1
      ensures pts'[k].0 < xEnd
      ensures pts'[k + 1] == (pts'[k].0 + StepFrom(step, pts'[k].0, xEnd),
                              Advance(f, scheme, pts'[k].0, pts'[k].1, StepFrom(step, pts'[k].0, xEnd)))
    {
      if k < |pts| - 1 {
        assert pts'[k] == pts[k] && pts'[k + 1] == pts[k + 1];
      } else {
        assert pts'[k] == p;
      }
    }
  }

  /** The abscissas of a partial run before the last are x0, x0 + step,
      x0 + 2·step, ...: every step but the last is a full one. */
  lemma {:induction false} Abscissa(f: Equation, scheme: string, step: real, x0: real, y0: real, xEnd: real,
                                    pts: seq<(real, real)>, k: nat)
    requires IsPartialRun(f, scheme, step, x0, y0, xEnd, pts)
    requires k < |pts| - 1
    ensures pts[k].0 == x0 + k as real * step
    ensures pts[k].0 + step <= xEnd ==> pts[k + 1].0 == pts[k].0 + step
  {
    if k > 0 {
      Abscissa(f, scheme, step, x0, y0, xEnd, pts, k - 1);
      assert pts[k].0 < xEnd;
      assert pts[k].0 == pts[k - 1].0 + step;
      assert k as real * step == (k - 1) as real * step + step;
    }
  }

  /** The shape of a run from x0 < xEnd: it has at least two points, its
      abscissas strictly increase and end exactly at `xEnd`, every step but
      the last is `step`, the last is at most `step`, and the number of
      steps K = |pts| - 1 is the least one with x0 + K·step >= xEnd. */
  lemma RunShape(f: Equation, scheme: string, step: real, x0: real, y0: real, xEnd: real,
                 pts: seq<(real, real)>)
    requires step > 0.0 && x0 < xEnd && IsRun(f, scheme, step, x0, y0, xEnd, pts)
    ensures |pts| >= 2 && pts[|pts| - 1].0 == xEnd
    ensures forall k :: 0 <= k < |pts| - 2 ==> pts[k + 1].0 == pts[k].0 + step
    ensures 0.0 < pts[|pts| - 1].0 - pts[|pts| - 2].0 <= step
    ensures forall j, k :: 0 <= j < k < |pts| ==> pts[j].0 < pts[k].0
    ensures ((|pts| - 2) as real) * step < xEnd - x0 <= ((|pts| - 1) as real) * step
  {
    RunEnd(f, scheme, step, x0, y0, xEnd, pts);
    forall j, k | 0 <= j < k < |pts|
      ensures pts[j].0 < pts[k].0
    {
      Increasing(f, scheme, step, x0, y0, xEnd, pts, j, k);
    }
    StepCount(f, scheme, step, x0, y0, xEnd, pts);
  }

  lemma RunEnd(f: Equation, scheme: string, step: real, x0: real, y0: real, xEnd: real,
               pts: seq<(real, real)>)
    requires step > 0.0 && x0 < xEnd && IsRun(f, scheme, step, x0, y0, xEnd, pts)
    ensures |pts| >= 2 && pts[|pts| - 1].0 == xEnd
    ensures forall k :: 0 <= k < |pts| - 2 ==> pts[k + 1].0 == pts[k].0 + step
    ensures 0.0 < pts[|pts| - 1].0 - pts[|pts| - 2].0 <= step
  {
    var n := |pts|;
    assert n >= 2;
    assert pts[n - 2].0 < xEnd;
    assert pts[n - 1].0 == pts[n - 2].0 + StepFrom(step, pts[n - 2].0, xEnd);
    forall k | 0 <= k < n - 2
      ensures pts[k + 1].0 == pts[k].0 + step
    {
      assert pts[k + 1].0 < xEnd;
    }
  }

  lemma {:induction false} Increasing(f: Equation, scheme: string, step: real, x0: real, y0: real, xEnd: real,
                                      pts: seq<(real, real)>, j: nat, k: nat)
    requires step > 0.0 && IsPartialRun(f, scheme, step, x0, y0, xEnd, pts)
    requires j < k < |pts|
    ensures pts[j].0 < pts[k].0
    decreases k - j
  {
    assert pts[k - 1].0 < xEnd;
    if j < k - 1 {
      Increasing(f, scheme, step, x0, y0, xEnd, pts, j, k - 1);
    }
  }

  lemma StepCount(f: Equation, scheme: string, step: real, x0: real, y0: real, xEnd: real,
                  pts: seq<(real, real)>)
    requires step > 0.0 && x0 < xEnd && IsRun(f, scheme, step, x0, y0, xEnd, pts)
    ensures ((|pts| - 2) as real) * step < xEnd - x0 <= ((|pts| - 1) as real) * step
  {
    RunEnd(f, scheme, step, x0, y0, xEnd, pts);
    var n := |pts|;
    Abscissa(f, scheme, step, x0, y0, xEnd, pts, n - 2);
    assert (n - 1) as real * step == (n - 2) as real * step + step;
  }

  lemma ScaleAtMost(a: real, b: real, step: real)
    requires a <= b && step > 0.0
    ensures a * step <= b * step
  {
  }

  /** A run is determined by its inputs: two runs of the same problem agree
      point by point, so `IsRun` specifies the output of `Solve` completely. */
  lemma {:induction false} RunUnique(f: Equation, scheme: string, step: real, x0: real, y0: real, xEnd: real,
                                     pts: seq<(real, real)>, qts: seq<(real, real)>)
    requires IsRun(f, scheme, step, x0, y0, xEnd, pts) && IsRun(f, scheme, step, x0, y0, xEnd, qts)
    ensures pts == qts
  {
    var n := if |pts| <= |qts| then |pts| else |qts|;
    forall k | 0 <= k < n
      ensures pts[k] == qts[k]
    {
      SamePoint(f, scheme, step, x0, y0, xEnd, pts, qts, k);
    }
    if |pts| != |qts| {
      assert false;
    }
  }

  lemma {:induction false} SamePoint(f: Equation, scheme: string, step: real, x0: real, y0: real, xEnd: real,
                                     pts: seq<(real, real)>, qts: seq<(real, real)>, k: nat)
    requires IsPartialRun(f, scheme, step, x0, y0, xEnd, pts) && IsPartialRun(f, scheme, step, x0, y0, xEnd, qts)
    requires k < |pts| && k < |qts|
    ensures pts[k] == qts[k]
  {
    if k > 0 {
      SamePoint(f, scheme, step, x0, y0, xEnd, pts, qts, k - 1);
    }
  }

  /** The example of the unit tests: step 0.3 from 0 to 1 takes four steps,
      the last of them 0.1 long, so the run has five points. */
  lemma FivePointsForStepPointThree(f: Equation, scheme: string, y0: real, pts: seq<(real, real)>)
    requires IsRun(f, scheme, 0.3, 0.0, y0, 1.0, pts)
    ensures |pts| == 5
    ensures pts[1].0 == 0.3 && pts[3].0 == 0.9 && pts[4].0 - pts[3].0 == 0.1
  {
    RunShape(f, scheme, 0.3, 0.0, y0, 1.0, pts);
    var k := |pts| - 1;
    Abscissa(f, scheme, 0.3, 0.0, y0, 1.0, pts, 1);
    if k <= 3 {
      ScaleAtMost(k as real, 3.0, 0.3);
      assert false;
    }
    if k >= 5 {
      ScaleAtMost(4.0, (k - 1) as real, 0.3);
      assert false;
    }
    Abscissa(f, scheme, 0.3, 0.0, y0, 1.0, pts, 3);
  }

  /** An antiderivative of the slope p·x + q. */
  function Primitive(p: real, q: real, x: real): real
  {
    p * x * x / 2.0 + q * x
  }

  /** RK4 integrates dy/dx = p·x + q without error: every point of the run
      lies on y = y0 + P(x) - P(x0) for the antiderivative P of the slope
      (for the slope 2x of the unit tests, y = y0 + x² - x0²). */
  lemma {:induction false} Rk4ExactForAffineSlope(f: Equation, p: real, q: real, step: real,
                                                  x0: real, y0: real, xEnd: real, pts: seq<(real, real)>)
    requires forall x, y :: f(x, y) == p * x + q
    requires IsPartialRun(f, "rk4", step, x0, y0, xEnd, pts)
    ensures forall k :: 0 <= k < |pts| ==> pts[k].1 == y0 + Primitive(p, q, pts[k].0) - Primitive(p, q, x0)
  {
    forall k | 0 <= k < |pts|
      ensures pts[k].1 == y0 + Primitive(p, q, pts[k].0) - Primitive(p, q, x0)
    {
      Rk4ExactUpTo(f, p, q, step, x0, y0, xEnd, pts, k);
    }
  }

  lemma {:induction false} Rk4ExactUpTo(f: Equation, p: real, q: real, step: real,
                                        x0: real, y0: real, xEnd: real, pts: seq<(real, real)>, k: nat)
    requires forall x, y :: f(x, y) == p * x + q
    requires IsPartialRun(f, "rk4", step, x0, y0, xEnd, pts)
    requires k < |pts|
    ensures pts[k].1 == y0 + Primitive(p, q, pts[k].0) - Primitive(p, q, x0)
  {
    if k > 0 {
      Rk4ExactUpTo(f, p, q, step, x0, y0, xEnd, pts, k - 1);
      var x, y := pts[k - 1].0, pts[k - 1].1;
      var h := StepFrom(step, x, xEnd);
      Rk4StepExact(f, p, q, x, y, h);
      assert pts[k] == (x + h, Advance(f, "rk4", x, y, h));
    }
  }

  /** One RK4 step for the slope p·x + q adds exactly the integral of the
      slope over [x, x + h]. */
  lemma Rk4StepExact(f: Equation, p: real, q: real, x: real, y: real, h: real)
    requires forall x, y :: f(x, y) == p * x + q
    ensures Advance(f, "rk4", x, y, h) == y + Primitive(p, q, x + h) - Primitive(p, q, x)
  {
    var k1 := f(x, y);
    var k2 := f(x + h / 2.0, y + h / 2.0 * k1);
    var k3 := f(x + h / 2.0, y + h / 2.0 * k2);
    var k4 := f(x + h, y + h * k3);
    assert k1 == p * x + q;
    assert k2 == p * (x + h / 2.0) + q;
    assert k3 == p * (x + h / 2.0) + q;
    assert k4 == p * (x + h) + q;
    assert k1 + 2.0 * k2 + 2.0 * k3 + k4 == 6.0 * (p * x + q) + 3.0 * p * h;
    assert Primitive(p, q, x + h) - Primitive(p, q, x) == p * x * h + p * h * h / 2.0 + q * h;
  }

  /** Euler integrates a constant slope dy/dx = q without error. */
  lemma {:induction false} EulerExactForConstantSlope(f: Equation, q: real, step: real,
                                                      x0: real, y0: real, xEnd: real, pts: seq<(real, real)>, k: nat)
    requires forall x, y :: f(x, y) == q
    requires IsPartialRun(f, "euler", step, x0, y0, xEnd, pts)
    requires k < |pts|
    ensures pts[k].1 == y0 + q * (pts[k].0 - x0)
  {
    if k > 0 {
      EulerExactForConstantSlope(f, q, step, x0, y0, xEnd, pts, k - 1);
      var h := StepFrom(step, pts[k - 1].0, xEnd);
      assert pts[k] == (pts[k - 1].0 + h, Advance(f, "euler", pts[k - 1].0, pts[k - 1].1, h));
    }
  }
}
