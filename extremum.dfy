/** Unconstrained extremum search for f(x_1, ..., x_n) (ExtremumFinder):
    gradient descent with a fixed step, or a damped Newton iteration that
    uses only the diagonal of the Hessian.  Both derivatives are central
    finite differences with the fixed offset `Delta`. */
module Extremum {
  import opened Common

  /** The objective, applied to the coordinates of a point. */
  type Objective = seq<real> -> real

  const DefaultScheme: string := "gradient"
  /** Convergence threshold on every gradient component. */
  const DefaultPrecision: real := 0.000001
  const DefaultMaxIterations: nat := 1000
  /** The finite-difference offset `h` of both derivative estimates. */
  const Delta: real := 0.000001
  /** The gradient-descent step size. */
  const DescentRate: real := 0.01
  /** The Newton step size. */
  const NewtonRate: real := 0.1
  /** Added to each Hessian diagonal entry before dividing by it. */
  const Damping: real := 0.00000001

  const NotCallableMessage: string := "Function must be callable"
  const VariablesMessage: string := "Variables must be a non-empty list"
  const SchemeMessage: string := "Method must be 'gradient' or 'newton'"
  const DimensionMessage: string := "Start point dimension must match variables count"
  /** What Python raises when a damped diagonal entry is exactly zero. */
  const ZeroDivisionMessage: string := "float division by zero"

  /** The `variables` argument: a list of names, or some other value. */
  datatype Variables = Names(names: seq<string>) | NotAList

  datatype ExtremumFinder = ExtremumFinder(func: Callee<Objective>, variables: Variables, scheme: string,
                                           precision: real, maxIterations: nat)

  /** The record returned by `solve`. */
  datatype Outcome = Outcome(point: seq<real>, value: real, iterations: nat, converged: bool)

  /** `ExtremumFinder(func, variables, method)` with the default precision and
      iteration budget. */
  function Make(func: Callee<Objective>, variables: Variables, scheme: string): (s: ExtremumFinder)
    ensures s.func == func && s.variables == variables && s.scheme == scheme
    ensures s.precision == DefaultPrecision && s.maxIterations == DefaultMaxIterations
  {
    ExtremumFinder(func, variables, scheme, DefaultPrecision, DefaultMaxIterations)
  }

  /** `validate_input`: callable function, non-empty list of variables, a
      supported method, checked in that order. */
  function ValidateInput(s: ExtremumFinder): (r: Result<bool>)
    ensures r.Ok? <==> s.func.Callable? && s.variables.Names? && |s.variables.names| > 0
                       && s.scheme in {"gradient", "newton"}
    ensures r.Ok? ==> r.value
    ensures s.func.NotCallable? ==> r == Err(NotCallableMessage)
    ensures s.func.Callable? && (s.variables.NotAList? || |s.variables.names| == 0) ==> r == Err(VariablesMessage)
    ensures (s.func.Callable? && s.variables.Names? && |s.variables.names| > 0 &&
             s.scheme !in {"gradient", "newton"}) ==> r == Err(SchemeMessage)
  {
    if s.func.NotCallable? then Err(NotCallableMessage)
    else if s.variables.NotAList? || |s.variables.names| == 0 then Err(VariablesMessage)
    else if s.scheme != "gradient" && s.scheme != "newton" then Err(SchemeMessage)
    else Ok(true)
  }

  // ---------------------------------------------------------------------
  // Finite differences
  // ---------------------------------------------------------------------

  /** A copy of `x` with coordinate `i` moved by `d`. */
  function Shift(x: seq<real>, i: nat, d: real): (y: seq<real>)
    requires i < |x|
    ensures |y| == |x| && y[i] == x[i] + d
    ensures forall k :: 0 <= k < |x| && k != i ==> y[k] == x[k]
  {
    x[i := x[i] + d]
  }

  /** The central difference `(f(x + h e_i) - f(x - h e_i)) / 2h`. */
  function Partial(f: Objective, x: seq<real>, i: nat): real
    requires i < |x|
  {
    (f(Shift(x, i, Delta)) - f(Shift(x, i, -Delta))) / (2.0 * Delta)
  }

  /** Entry (i, j) of the Hessian estimate: the second difference on the
      diagonal, the four-point mixed difference off it. */
  function HessianEntry(f: Objective, x: seq<real>, i: nat, j: nat): real
    requires i < |x| && j < |x|
  {
    if i == j then
      (f(Shift(x, i, Delta)) - 2.0 * f(x) + f(Shift(x, i, -Delta))) / (Delta * Delta)
    else
      (f(Shift(Shift(x, i, Delta), j, Delta)) - f(Shift(Shift(x, i, Delta), j, -Delta))
       - f(Shift(Shift(x, i, -Delta), j, Delta)) + f(Shift(Shift(x, i, -Delta), j, -Delta)))
      / (4.0 * Delta * Delta)
  }

  /** `_compute_gradient`: one central difference per coordinate, appended in
      order. */
  method ComputeGradient(f: Objective, x: seq<real>) returns (grad: seq<real>)
    ensures |grad| == |x|
    ensures forall i :: 0 <= i < |x| ==> grad[i] == Partial(f, x, i)
  {
    grad := [];
    var i := 0;
    while i < |x|
      invariant 0 <= i <= |x| && |grad| == i
      invariant forall k :: 0 <= k < i ==> grad[k] == Partial(f, x, k)
    {
      var plus := x[i := x[i] + Delta];
      var minus := x[i := x[i] - Delta];
      assert plus == Shift(x, i, Delta) && minus == Shift(x, i, -Delta);
      grad := grad + [(f(plus) - f(minus)) / (2.0 * Delta)];
      i := i + 1;
    }
  }

  /** `_compute_hessian`: an n x n table of zeros filled entry by entry. */
  method ComputeHessian(f: Objective, x: seq<real>) returns (hessian: seq<seq<real>>)
    ensures |hessian| == |x|
    ensures forall i :: 0 <= i < |x| ==> |hessian[i]| == |x|
    ensures forall i, j :: 0 <= i < |x| && 0 <= j < |x| ==> hessian[i][j] == HessianEntry(f, x, i, j)
  {
    var n := |x|;
    hessian := seq(n, _ => seq(n, _ => 0.0));
    var i := 0;
    while i < n
      invariant 0 <= i <= n && |hessian| == n
      invariant forall r :: 0 <= r < n ==> |hessian[r]| == n
      invariant forall r, c :: 0 <= r < i && 0 <= c < n ==> hessian[r][c] == HessianEntry(f, x, r, c)
    {
      var j := 0;
      while j < n
        invariant 0 <= j <= n && |hessian| == n
        invariant forall r :: 0 <= r < n ==> |hessian[r]| == n
        invariant forall r, c :: 0 <= r < i && 0 <= c < n ==> hessian[r][c] == HessianEntry(f, x, r, c)
        invariant forall c :: 0 <= c < j ==> hessian[i][c] == HessianEntry(f, x, i, c)
      {
        var entry;
        if i == j {
          var plus, minus := Shift(x, i, Delta), Shift(x, i, -Delta);
          entry := (f(plus) - 2.0 * f(x) + f(minus)) / (Delta * Delta);
        } else {
          var pp, pm := Shift(Shift(x, i, Delta), j, Delta), Shift(Shift(x, i, Delta), j, -Delta);
          var mp, mm := Shift(Shift(x, i, -Delta), j, Delta), Shift(Shift(x, i, -Delta), j, -Delta);
          entry := (f(pp) - f(pm) - f(mp) + f(mm)) / (4.0 * Delta * Delta);
        }
        hessian := hessian[i := hessian[i][j := entry]];
        j := j + 1;
      }
      i := i + 1;
    }
  }

  /** The loops' stopping test `all(abs(g) < precision for g in grad)`, on
      the gradient estimate at `x`. */
  predicate Settled(f: Objective, x: seq<real>, precision: real)
  {
    forall i :: 0 <= i < |x| ==> Abs(Partial(f, x, i)) < precision
  }

  /** `all(abs(g) < precision for g in grad)`. */
  predicate AllBelow(grad: seq<real>, precision: real)
  {
    forall g :: g in grad ==> Abs(g) < precision
  }

  /** Testing the computed gradient list is testing `Settled`. */
  lemma SettledTest(f: Objective, x: seq<real>, grad: seq<real>, precision: real)
    requires |grad| == |x| && forall i :: 0 <= i < |x| ==> grad[i] == Partial(f, x, i)
    ensures AllBelow(grad, precision) <==> Settled(f, x, precision)
  {
    if AllBelow(grad, precision) {
      forall i | 0 <= i < |x|
        ensures Abs(Partial(f, x, i)) < precision
      {
        assert grad[i] in grad;
      }
    } else {
      var g :| g in grad && !(Abs(g) < precision);
      var i :| 0 <= i < |grad| && grad[i] == g;
    }
  }

  // ---------------------------------------------------------------------
  // Gradient descent
  // ---------------------------------------------------------------------

  /** One descent step: x_i - 0.01 * g_i for every coordinate. */
  function DescentStep(f: Objective, x: seq<real>): (y: seq<real>)
    ensures |y| == |x|
  {
    seq(|x|, i requires 0 <= i < |x| => x[i] - DescentRate * Partial(f, x, i))
  }

  /** Coordinate i of a descent step moves against the central difference. */
  lemma DescentStepValue(f: Objective, x: seq<real>, i: nat)
    requires i < |x|
    ensures DescentStep(f, x)[i] == x[i] - DescentRate * Partial(f, x, i)
  {
  }

  /** The point after k descent steps from `start`. */
  function DescentPath(f: Objective, start: seq<real>, k: nat): (x: seq<real>)
    ensures |x| == |start|
  {
    if k == 0 then start else DescentStep(f, DescentPath(f, start, k - 1))
  }

  /** The update loop of `_gradient_descent`: x_i -= 0.01 * g_i, coordinate
      by coordinate. */
  method DescendAlong(x: seq<real>, grad: seq<real>) returns (y: seq<real>)
    requires |grad| == |x|
    ensures |y| == |x|
    ensures forall k :: 0 <= k < |x| ==> y[k] == x[k] - DescentRate * grad[k]
  {
    y := x;
    var i := 0;
    while i < |y|
      invariant 0 <= i <= |y| && |y| == |x|
      invariant forall k :: 0 <= k < i ==> y[k] == x[k] - DescentRate * grad[k]
      invariant forall k :: i <= k < |y| ==> y[k] == x[k]
    {
      y := y[i := y[i] - DescentRate * grad[i]];
      i := i + 1;
    }
  }

  /** The coordinate-wise update with the computed gradient is the descent
      step. */
  lemma DescentUpdate(f: Objective, x: seq<real>, grad: seq<real>, y: seq<real>)
    requires |grad| == |x| && forall i :: 0 <= i < |x| ==> grad[i] == Partial(f, x, i)
    requires |y| == |x| && forall k :: 0 <= k < |x| ==> y[k] == x[k] - DescentRate * grad[k]
    ensures y == DescentStep(f, x)
  {
    forall i | 0 <= i < |x|
      ensures y[i] == DescentStep(f, x)[i]
    {
      DescentStepValue(f, x, i);
    }
  }

  /** What `_gradient_descent` returns: the first point of the descent path
      whose gradient is settled, if one comes within the budget (converged),
      else the point after `maxIterations` steps; with f at that point. */
  predicate DescentOutcome(f: Objective, start: seq<real>, precision: real, maxIterations: nat, o: Outcome)
  {
    o.iterations <= maxIterations && (o.converged <==> o.iterations < maxIterations) &&
    o.point == DescentPath(f, start, o.iterations) && o.value == f(o.point) &&
    (forall k :: 0 <= k < o.iterations ==> !Settled(f, DescentPath(f, start, k), precision)) &&
    (o.converged ==> Settled(f, o.point, precision))
  }

  /** `_gradient_descent`: step until the gradient is settled or the budget
      is spent. */
  method GradientDescent(f: Objective, start: seq<real>, precision: real, maxIterations: nat)
    returns (o: Outcome)
    ensures DescentOutcome(f, start, precision, maxIterations, o) && |o.point| == |start|
  {
    var x := start;
    var iteration := 0;
    while iteration < maxIterations
      invariant iteration <= maxIterations && x == DescentPath(f, start, iteration)
      invariant forall k :: 0 <= k < iteration ==> !Settled(f, DescentPath(f, start, k), precision)
    {
      var settled, next := DescentIteration(f, x, precision);
      if settled {
        break;
      }
      DescentMoves(f, start, precision, iteration);
      x := next;
      iteration := iteration + 1;
    }
    o := Outcome(x, f(x), iteration, iteration < maxIterations);
    DescentStops(f, start, precision, maxIterations, o);
  }

  /** The loop invariant of `GradientDescent` survives a step taken from an
      unsettled point. */
  lemma DescentMoves(f: Objective, start: seq<real>, precision: real, n: nat)
    requires forall k :: 0 <= k < n ==> !Settled(f, DescentPath(f, start, k), precision)
    requires !Settled(f, DescentPath(f, start, n), precision)
    ensures DescentPath(f, start, n + 1) == DescentStep(f, DescentPath(f, start, n))
    ensures forall k :: 0 <= k < n + 1 ==> !Settled(f, DescentPath(f, start, k), precision)
  {
  }

  /** Where the loop of `GradientDescent` ends, its outcome is the one
      `DescentOutcome` describes. */
  lemma DescentStops(f: Objective, start: seq<real>, precision: real, maxIterations: nat, o: Outcome)
    requires o.iterations <= maxIterations && o.point == DescentPath(f, start, o.iterations)
    requires o.value == f(o.point) && o.converged == (o.iterations < maxIterations)
    requires forall k :: 0 <= k < o.iterations ==> !Settled(f, DescentPath(f, start, k), precision)
    requires o.iterations < maxIterations ==> Settled(f, o.point, precision)
    ensures DescentOutcome(f, start, precision, maxIterations, o) && |o.point| == |start|
  {
  }

  /** One pass of the `_gradient_descent` loop body: the gradient at `x`,
      the convergence test, then the update. */
  method DescentIteration(f: Objective, x: seq<real>, precision: real) returns (settled: bool, next: seq<real>)
    ensures settled <==> Settled(f, x, precision)
    ensures !settled ==> next == DescentStep(f, x)
  {
    var grad := ComputeGradient(f, x);
    SettledTest(f, x, grad, precision);
    settled := AllBelow(grad, precision);
    if settled {
      return settled, x;
    }
    next := DescendAlong(x, grad);
    DescentUpdate(f, x, grad, next);
  }

  // ---------------------------------------------------------------------
  // Damped diagonal Newton
  // ---------------------------------------------------------------------

  /** Some damped diagonal entry `H_ii + 1e-8` is exactly zero. */
  predicate SingularDiagonal(f: Objective, x: seq<real>)
  {
    exists i :: 0 <= i < |x| && HessianEntry(f, x, i, i) + Damping == 0.0
  }

  /** One Newton step: x_i - 0.1 * g_i / (H_ii + 1e-8) for every coordinate,
      or the division error when some divisor is zero. */
  function NewtonStep(f: Objective, x: seq<real>): (r: Result<seq<real>>)
    ensures r.Err? <==> SingularDiagonal(f, x)
    ensures r.Err? ==> r.message == ZeroDivisionMessage
    ensures r.Ok? ==> |r.value| == |x|
  {
    if SingularDiagonal(f, x) then Err(ZeroDivisionMessage)
    else Ok(seq(|x|, i requires 0 <= i < |x| =>
                  x[i] - NewtonRate * Partial(f, x, i) / (HessianEntry(f, x, i, i) + Damping)))
  }

  /** Away from a zero divisor, coordinate i of the Newton step moves by
      0.1 times the central difference over the damped curvature. */
  lemma NewtonStepValue(f: Objective, x: seq<real>)
    requires !SingularDiagonal(f, x)
    ensures NewtonStep(f, x).Ok? && |NewtonStep(f, x).value| == |x|
    ensures forall i :: 0 <= i < |x| ==>
              NewtonStep(f, x).value[i] == x[i] - NewtonRate * Partial(f, x, i) / (HessianEntry(f, x, i, i) + Damping)
  {
  }

  /** The point after k Newton steps from `start`, or the division error
      of the first step that hits one. */
  function NewtonPath(f: Objective, start: seq<real>, k: nat): (r: Result<seq<real>>)
    ensures r.Ok? ==> |r.value| == |start|
    ensures r.Err? ==> r.message == ZeroDivisionMessage
  {
    if k == 0 then Ok(start)
    else
      var prev := NewtonPath(f, start, k - 1);
      if prev.Err? then prev else NewtonStep(f, prev.value)
  }

  /** Step k of the Newton path exists and its gradient is not settled, so
      the loop takes another step from it. */
  predicate NewtonMoves(f: Objective, start: seq<real>, precision: real, k: nat)
  {
    NewtonPath(f, start, k).Ok? && !Settled(f, NewtonPath(f, start, k).value, precision)
  }

  /** The update loop of `_newton_method`: x_i -= 0.1 * g_i / (H_ii + 1e-8),
      coordinate by coordinate; `None` when a divisor is zero, where Python
      raises. */
  method NewtonAlong(x: seq<real>, grad: seq<real>, hessian: seq<seq<real>>) returns (y: Option<seq<real>>)
    requires |grad| == |x| && |hessian| == |x| && forall i :: 0 <= i < |x| ==> |hessian[i]| == |x|
    ensures y.None? <==> exists i :: 0 <= i < |x| && hessian[i][i] + Damping == 0.0
    ensures y.Some? ==> |y.value| == |x|
    ensures y.Some? ==> forall k :: 0 <= k < |x| ==>
              y.value[k] == x[k] - NewtonRate * grad[k] / (hessian[k][k] + Damping)
  {
    var z := x;
    var i := 0;
    while i < |z|
      invariant 0 <= i <= |z| && |z| == |x|
      invariant forall k :: 0 <= k < i ==> hessian[k][k] + Damping != 0.0
      invariant forall k :: 0 <= k < i ==> z[k] == x[k] - NewtonRate * grad[k] / (hessian[k][k] + Damping)
      invariant forall k :: i <= k < |z| ==> z[k] == x[k]
    {
      var divisor := hessian[i][i] + Damping;
      if divisor == 0.0 {
        return None;
      }
      z := z[i := z[i] - NewtonRate * grad[i] / divisor];
      i := i + 1;
    }
    return Some(z);
  }

  /** The coordinate-wise update with the computed gradient and Hessian is
      the Newton step. */
  lemma NewtonUpdate(f: Objective, x: seq<real>, grad: seq<real>, hessian: seq<seq<real>>, y: seq<real>)
    requires |grad| == |x| && forall i :: 0 <= i < |x| ==> grad[i] == Partial(f, x, i)
    requires |hessian| == |x| && forall i :: 0 <= i < |x| ==> |hessian[i]| == |x|
    requires forall i :: 0 <= i < |x| ==> hessian[i][i] == HessianEntry(f, x, i, i)
    requires forall i :: 0 <= i < |x| ==> hessian[i][i] + Damping != 0.0
    requires |y| == |x| && forall k :: 0 <= k < |x| ==>
               y[k] == x[k] - NewtonRate * grad[k] / (hessian[k][k] + Damping)
    ensures NewtonStep(f, x) == Ok(y)
  {
    assert !SingularDiagonal(f, x);
    NewtonStepValue(f, x);
    var r := NewtonStep(f, x);
    assert forall k :: 0 <= k < |x| ==> r.value[k] == y[k];
    assert r.value == y;
  }

  /** What `_newton_method` returns when no division fails: as for
      `DescentOutcome`, along the Newton path. */
  predicate NewtonOutcome(f: Objective, start: seq<real>, precision: real, maxIterations: nat, o: Outcome)
  {
    o.iterations <= maxIterations && (o.converged <==> o.iterations < maxIterations) &&
    NewtonPath(f, start, o.iterations) == Ok(o.point) && o.value == f(o.point) &&
    (forall k :: 0 <= k < o.iterations ==> NewtonMoves(f, start, precision, k)) &&
    (o.converged ==> Settled(f, o.point, precision))
  }

  /** Some step within the budget divides by zero, and every step before it
      was taken because the gradient had not settled. */
  predicate NewtonFails(f: Objective, start: seq<real>, precision: real, maxIterations: nat)
  {
    exists k :: 0 < k <= maxIterations && NewtonPath(f, start, k).Err? &&
                forall j :: 0 <= j < k ==> NewtonMoves(f, start, precision, j)
  }

  /** A zero divisor on the diagonal of the computed Hessian is a zero
      divisor of the Newton step. */
  lemma SingularFromHessian(f: Objective, x: seq<real>, hessian: seq<seq<real>>)
    requires |hessian| == |x| && forall i :: 0 <= i < |x| ==> |hessian[i]| == |x|
    requires forall i :: 0 <= i < |x| ==> hessian[i][i] == HessianEntry(f, x, i, i)
    requires exists i :: 0 <= i < |x| && hessian[i][i] + Damping == 0.0
    ensures SingularDiagonal(f, x)
  {
    var i :| 0 <= i < |x| && hessian[i][i] + Damping == 0.0;
    assert HessianEntry(f, x, i, i) + Damping == 0.0;
  }

  /** The search fails at step `k + 1` when the path reaches a singular
      point after `k` unsettled steps. */
  lemma NewtonFailsAt(f: Objective, start: seq<real>, precision: real, maxIterations: nat, k: nat, x: seq<real>)
    requires k < maxIterations && NewtonPath(f, start, k) == Ok(x) && SingularDiagonal(f, x)
    requires forall j :: 0 <= j <= k ==> NewtonMoves(f, start, precision, j)
    ensures NewtonFails(f, start, precision, maxIterations)
  {
    assert NewtonPath(f, start, k + 1).Err?;
  }

  /** One pass of the `_newton_method` loop body: the gradient and the
      Hessian at `x`, the convergence test, then the update (absent when a
      divisor is zero). */
  method NewtonIteration(f: Objective, x: seq<real>, precision: real)
    returns (settled: bool, next: Option<seq<real>>)
    ensures settled <==> Settled(f, x, precision)
    ensures !settled ==> (next.None? <==> SingularDiagonal(f, x))
    ensures !settled && next.Some? ==> NewtonStep(f, x) == Ok(next.value)
  {
    var grad := ComputeGradient(f, x);
    var hessian := ComputeHessian(f, x);
    SettledTest(f, x, grad, precision);
    settled := AllBelow(grad, precision);
    if settled {
      return settled, None;
    }
    next := NewtonAlong(x, grad, hessian);
    if next.None? {
      SingularFromHessian(f, x, hessian);
    } else {
      NewtonUpdate(f, x, grad, hessian, next.value);
    }
  }

  /** `_newton_method`: like gradient descent, with the damped diagonal
      Newton step; a zero divisor ends the search with the division error. */
  method NewtonMethod(f: Objective, start: seq<real>, precision: real, maxIterations: nat)
    returns (r: Result<Outcome>)
    ensures r.Ok? ==> NewtonOutcome(f, start, precision, maxIterations, r.value) && |r.value.point| == |start|
    ensures r.Err? ==> r.message == ZeroDivisionMessage && NewtonFails(f, start, precision, maxIterations)
  {
    var x := start;
    var iteration := 0;
    while iteration < maxIterations
      invariant iteration <= maxIterations && NewtonPath(f, start, iteration) == Ok(x)
      invariant forall k :: 0 <= k < iteration ==> NewtonMoves(f, start, precision, k)
    {
      var settled, next := NewtonIteration(f, x, precision);
      if settled {
        break;
      }
      assert NewtonMoves(f, start, precision, iteration);
      if next.None? {
        NewtonFailsAt(f, start, precision, maxIterations, iteration, x);
        return Err(ZeroDivisionMessage);
      }
      NewtonPathNext(f, start, iteration, x, next.value);
      x := next.value;
      iteration := iteration + 1;
    }
    r := Ok(Outcome(x, f(x), iteration, iteration < maxIterations));
  }

  /** A Newton step from step k of the path is step k + 1. */
  lemma NewtonPathNext(f: Objective, start: seq<real>, k: nat, x: seq<real>, y: seq<real>)
    requires NewtonPath(f, start, k) == Ok(x) && NewtonStep(f, x) == Ok(y)
    ensures NewtonPath(f, start, k + 1) == Ok(y)
  {
  }

  /** `solve(start_point)`: validation, the dimension check, then the
      selected search. */
  method Solve(s: ExtremumFinder, start: seq<real>) returns (r: Result<Outcome>)
    ensures ValidateInput(s).Err? ==> r == Err(ValidateInput(s).message)
    ensures ValidateInput(s).Ok? && |start| != |s.variables.names| ==> r == Err(DimensionMessage)
    ensures ValidateInput(s).Ok? && |start| == |s.variables.names| && s.scheme == "gradient" ==>
              r.Ok? && DescentOutcome(s.func.fn, start, s.precision, s.maxIterations, r.value)
    ensures ValidateInput(s).Ok? && |start| == |s.variables.names| && s.scheme == "newton" && r.Ok? ==>
              NewtonOutcome(s.func.fn, start, s.precision, s.maxIterations, r.value)
    ensures ValidateInput(s).Ok? && |start| == |s.variables.names| && s.scheme == "newton" && r.Err? ==>
              r.message == ZeroDivisionMessage && NewtonFails(s.func.fn, start, s.precision, s.maxIterations)
    ensures r.Ok? ==> |r.value.point| == |start|
  {
    var valid := ValidateInput(s);
    if valid.Err? {
      return Err(valid.message);
    }
    if |start| != |s.variables.names| {
      return Err(DimensionMessage);
    }
    if s.scheme == "gradient" {
      var o := GradientDescent(s.func.fn, start, s.precision, s.maxIterations);
      r := Ok(o);
    } else {
      r := NewtonMethod(s.func.fn, start, s.precision, s.maxIterations);
    }
  }

  // ---------------------------------------------------------------------
  // Properties
  // ---------------------------------------------------------------------

  /** The Hessian estimate is symmetric: the mixed difference for (i, j)
      visits the same four points as the one for (j, i). */
  lemma HessianSymmetric(f: Objective, x: seq<real>, i: nat, j: nat)
    requires i < |x| && j < |x|
    ensures HessianEntry(f, x, i, j) == HessianEntry(f, x, j, i)
  {
    if i != j {
      assert Shift(Shift(x, i, Delta), j, Delta) == Shift(Shift(x, j, Delta), i, Delta);
      assert Shift(Shift(x, i, Delta), j, -Delta) == Shift(Shift(x, j, -Delta), i, Delta);
      assert Shift(Shift(x, i, -Delta), j, Delta) == Shift(Shift(x, j, Delta), i, -Delta);
      assert Shift(Shift(x, i, -Delta), j, -Delta) == Shift(Shift(x, j, -Delta), i, -Delta);
    }
  }

  lemma CentralAlgebra(p: real, q: real, a: real, up: real, dn: real)
    requires up == p * (a + Delta) * (a + Delta) + q * (a + Delta)
    requires dn == p * (a + -Delta) * (a + -Delta) + q * (a + -Delta)
    ensures up - dn == (2.0 * p * a + q) * (2.0 * Delta)
  {
  }

  lemma SecondAlgebra(p: real, q: real, a: real, up: real, mid: real, dn: real)
    requires up == p * (a + Delta) * (a + Delta) + q * (a + Delta)
    requires mid == p * a * a + q * a
    requires dn == p * (a + -Delta) * (a + -Delta) + q * (a + -Delta)
    ensures up - 2.0 * mid + dn == (2.0 * p) * (Delta * Delta)
  {
  }

  /** Where f is a quadratic p t^2 + q t + r in t = x_i + d along
      coordinate i, both
      difference quotients are exact: the central difference is the
      derivative 2 p x_i + q and the diagonal entry the second derivative
      2 p. */
  lemma DifferencesExactOnQuadratics(f: Objective, x: seq<real>, i: nat, p: real, q: real, r: real)
    requires i < |x|
    requires forall d :: f(Shift(x, i, d)) == p * (x[i] + d) * (x[i] + d) + q * (x[i] + d) + r
    ensures Partial(f, x, i) == 2.0 * p * x[i] + q
    ensures HessianEntry(f, x, i, i) == 2.0 * p
  {
    var a := x[i];
    assert Shift(x, i, 0.0) == x;
    var up, mid, dn := f(Shift(x, i, Delta)), f(x), f(Shift(x, i, -Delta));
    assert up - r == p * (a + Delta) * (a + Delta) + q * (a + Delta);
    assert mid - r == p * a * a + q * a;
    assert dn - r == p * (a + -Delta) * (a + -Delta) + q * (a + -Delta);
    CentralAlgebra(p, q, a, up - r, dn - r);
    SecondAlgebra(p, q, a, up - r, mid - r, dn - r);
    DivCancel(up - dn, 2.0 * Delta);
    MulCancel(2.0 * Delta, (up - dn) / (2.0 * Delta), 2.0 * p * a + q);
    DivCancel(up - 2.0 * mid + dn, Delta * Delta);
    MulCancel(Delta * Delta, (up - 2.0 * mid + dn) / (Delta * Delta), 2.0 * p);
  }

  /** s_1 + ... + s_n. */
  function Sum(s: seq<real>): real
  {
    if |s| == 0 then 0.0 else Sum(s[..|s| - 1]) + s[|s| - 1]
  }

  /** Replacing one term of a sum changes the sum by the difference. */
  lemma {:induction false} SumUpdate(s: seq<real>, i: nat, v: real)
    requires i < |s|
    ensures Sum(s[i := v]) == Sum(s) - s[i] + v
  {
    var n := |s|;
    if i == n - 1 {
      assert s[i := v][..n - 1] == s[..n - 1];
    } else {
      assert s[i := v][..n - 1] == s[..n - 1][i := v];
      SumUpdate(s[..n - 1], i, v);
    }
  }

  /** The squares of the coordinates. */
  function Squares(x: seq<real>): (sq: seq<real>)
    ensures |sq| == |x| && forall k :: 0 <= k < |x| ==> sq[k] == x[k] * x[k]
  {
    seq(|x|, k requires 0 <= k < |x| => x[k] * x[k])
  }

  /** x_1^2 + ... + x_n^2, the objective of the solver's own examples. */
  function SumSquares(x: seq<real>): real
  {
    Sum(Squares(x))
  }

  /** A sum of squares with coordinate i moved by d. */
  lemma SumSquaresShift(x: seq<real>, i: nat, d: real)
    requires i < |x|
    ensures SumSquares(Shift(x, i, d)) == (SumSquares(x) - x[i] * x[i]) + (x[i] + d) * (x[i] + d)
  {
    var y := Shift(x, i, d);
    var moved := Squares(x)[i := (x[i] + d) * (x[i] + d)];
    forall k | 0 <= k < |x|
      ensures Squares(y)[k] == moved[k]
    {
      if k == i {
        assert y[k] == x[i] + d;
      } else {
        assert y[k] == x[k];
      }
    }
    assert Squares(y) == moved;
    SumUpdate(Squares(x), i, (x[i] + d) * (x[i] + d));
  }

  lemma CornerAlgebra(sz: real, sy: real, sx: real, a: real, b: real, di: real, dj: real)
    requires sy == (sx - a * a) + (a + di) * (a + di)
    requires sz == (sy - b * b) + (b + dj) * (b + dj)
    ensures sz == (sx - a * a - b * b) + (a + di) * (a + di) + (b + dj) * (b + dj)
  {
  }

  lemma MixedAlgebra(a: real, b: real, pp: real, pm: real, mp: real, mm: real)
    requires pp == (a + Delta) * (a + Delta) + (b + Delta) * (b + Delta)
    requires pm == (a + Delta) * (a + Delta) + (b + -Delta) * (b + -Delta)
    requires mp == (a + -Delta) * (a + -Delta) + (b + Delta) * (b + Delta)
    requires mm == (a + -Delta) * (a + -Delta) + (b + -Delta) * (b + -Delta)
    ensures pp - pm - mp + mm == 0.0
  {
  }

  /** The sum of squares moved along coordinates i and then j. */
  lemma SumSquaresCorner(x: seq<real>, i: nat, j: nat, di: real, dj: real)
    requires i < |x| && j < |x| && i != j
    ensures SumSquares(Shift(Shift(x, i, di), j, dj))
            == (SumSquares(x) - x[i] * x[i] - x[j] * x[j]) + (x[i] + di) * (x[i] + di) + (x[j] + dj) * (x[j] + dj)
  {
    var y := Shift(x, i, di);
    SumSquaresShift(x, i, di);
    SumSquaresShiftAgain(x, i, j, di, dj);
    CornerAlgebra(SumSquares(Shift(y, j, dj)), SumSquares(y), SumSquares(x), x[i], x[j], di, dj);
  }

  /** The second move of `SumSquaresCorner`, along a coordinate the first
      move left alone. */
  lemma SumSquaresShiftAgain(x: seq<real>, i: nat, j: nat, di: real, dj: real)
    requires i < |x| && j < |x| && i != j
    ensures SumSquares(Shift(Shift(x, i, di), j, dj))
            == (SumSquares(Shift(x, i, di)) - x[j] * x[j]) + (x[j] + dj) * (x[j] + dj)
  {
    var y := Shift(x, i, di);
    SumSquaresShift(y, j, dj);
    assert y[j] == x[j];
  }

  /** Along coordinate i, f is `rest + t^2` at the two offsets: then the
      central difference is 2 x_i. */
  lemma CentralOfSquare(f: Objective, x: seq<real>, i: nat, rest: real)
    requires i < |x|
    requires f(Shift(x, i, Delta)) == rest + (x[i] + Delta) * (x[i] + Delta)
    requires f(Shift(x, i, -Delta)) == rest + (x[i] + -Delta) * (x[i] + -Delta)
    ensures Partial(f, x, i) == 2.0 * x[i]
  {
    var up, dn := f(Shift(x, i, Delta)), f(Shift(x, i, -Delta));
    CentralAlgebra(1.0, 0.0, x[i], up - rest, dn - rest);
    DivCancel(up - dn, 2.0 * Delta);
    MulCancel(2.0 * Delta, (up - dn) / (2.0 * Delta), 2.0 * x[i]);
  }

  /** Along coordinate i, f is `rest + t^2` at the three sample points: then
      the second difference is 2. */
  lemma SecondOfSquare(f: Objective, x: seq<real>, i: nat, rest: real)
    requires i < |x|
    requires f(Shift(x, i, Delta)) == rest + (x[i] + Delta) * (x[i] + Delta)
    requires f(x) == rest + x[i] * x[i]
    requires f(Shift(x, i, -Delta)) == rest + (x[i] + -Delta) * (x[i] + -Delta)
    ensures HessianEntry(f, x, i, i) == 2.0
  {
    var up, mid, dn := f(Shift(x, i, Delta)), f(x), f(Shift(x, i, -Delta));
    SecondAlgebra(1.0, 0.0, x[i], up - rest, mid - rest, dn - rest);
    DivCancel(up - 2.0 * mid + dn, Delta * Delta);
    MulCancel(Delta * Delta, (up - 2.0 * mid + dn) / (Delta * Delta), 2.0);
  }

  /** f is `rest + t_i^2 + t_j^2` at the four corners: then the mixed
      difference vanishes. */
  lemma MixedOfSquares(f: Objective, x: seq<real>, i: nat, j: nat, rest: real)
    requires i < |x| && j < |x| && i != j
    requires f(Shift(Shift(x, i, Delta), j, Delta))
             == rest + (x[i] + Delta) * (x[i] + Delta) + (x[j] + Delta) * (x[j] + Delta)
    requires f(Shift(Shift(x, i, Delta), j, -Delta))
             == rest + (x[i] + Delta) * (x[i] + Delta) + (x[j] + -Delta) * (x[j] + -Delta)
    requires f(Shift(Shift(x, i, -Delta), j, Delta))
             == rest + (x[i] + -Delta) * (x[i] + -Delta) + (x[j] + Delta) * (x[j] + Delta)
    requires f(Shift(Shift(x, i, -Delta), j, -Delta))
             == rest + (x[i] + -Delta) * (x[i] + -Delta) + (x[j] + -Delta) * (x[j] + -Delta)
    ensures HessianEntry(f, x, i, j) == 0.0
  {
    var pp := f(Shift(Shift(x, i, Delta), j, Delta));
    var pm := f(Shift(Shift(x, i, Delta), j, -Delta));
    var mp := f(Shift(Shift(x, i, -Delta), j, Delta));
    var mm := f(Shift(Shift(x, i, -Delta), j, -Delta));
    MixedAlgebra(x[i], x[j], pp - rest, pm - rest, mp - rest, mm - rest);
  }

  /** For the sum of squares the central difference is exact: 2 x_i. */
  lemma SumSquaresGradient(x: seq<real>, i: nat)
    requires i < |x|
    ensures Partial(SumSquares, x, i) == 2.0 * x[i]
  {
    SumSquaresShift(x, i, Delta);
    SumSquaresShift(x, i, -Delta);
    CentralOfSquare(SumSquares, x, i, SumSquares(x) - x[i] * x[i]);
  }

  /** For the sum of squares the Hessian estimate is exact: twice the
      identity. */
  lemma SumSquaresHessian(x: seq<real>, i: nat, j: nat)
    requires i < |x| && j < |x|
    ensures HessianEntry(SumSquares, x, i, j) == if i == j then 2.0 else 0.0
  {
    if i == j {
      SumSquaresShift(x, i, Delta);
      SumSquaresShift(x, i, -Delta);
      SecondOfSquare(SumSquares, x, i, SumSquares(x) - x[i] * x[i]);
    } else {
      SumSquaresCorner(x, i, j, Delta, Delta);
      SumSquaresCorner(x, i, j, Delta, -Delta);
      SumSquaresCorner(x, i, j, -Delta, Delta);
      SumSquaresCorner(x, i, j, -Delta, -Delta);
      MixedOfSquares(SumSquares, x, i, j, SumSquares(x) - x[i] * x[i] - x[j] * x[j]);
    }
  }

  /** The gradient and Hessian of x^2 + y^2 at (1, 2) are (2, 4) and
      [[2, 0], [0, 2]]. */
  lemma DerivativesSample()
    ensures Partial(SumSquares, [1.0, 2.0], 0) == 2.0 && Partial(SumSquares, [1.0, 2.0], 1) == 4.0
    ensures HessianEntry(SumSquares, [1.0, 2.0], 0, 0) == 2.0 && HessianEntry(SumSquares, [1.0, 2.0], 1, 1) == 2.0
    ensures HessianEntry(SumSquares, [1.0, 2.0], 0, 1) == 0.0 && HessianEntry(SumSquares, [1.0, 2.0], 1, 0) == 0.0
  {
    SumSquaresGradient([1.0, 2.0], 0);
    SumSquaresGradient([1.0, 2.0], 1);
    SumSquaresHessian([1.0, 2.0], 0, 0);
    SumSquaresHessian([1.0, 2.0], 0, 1);
    SumSquaresHessian([1.0, 2.0], 1, 1);
    SumSquaresHessian([1.0, 2.0], 1, 0);
  }

  /** Two runs satisfying `DescentOutcome` for the same inputs agree: the
      outcome is determined by the first settled point of the path. */
  lemma DescentOutcomeUnique(f: Objective, start: seq<real>, precision: real, maxIterations: nat,
                             o1: Outcome, o2: Outcome)
    requires DescentOutcome(f, start, precision, maxIterations, o1)
    requires DescentOutcome(f, start, precision, maxIterations, o2)
    ensures o1 == o2
  {
    if o1.iterations < o2.iterations {
      assert false;
    } else if o2.iterations < o1.iterations {
      assert false;
    }
  }

  /** The same for `NewtonOutcome`. */
  lemma NewtonOutcomeUnique(f: Objective, start: seq<real>, precision: real, maxIterations: nat,
                            o1: Outcome, o2: Outcome)
    requires NewtonOutcome(f, start, precision, maxIterations, o1)
    requires NewtonOutcome(f, start, precision, maxIterations, o2)
    ensures o1 == o2
  {
    if o1.iterations < o2.iterations {
      SettledStops(f, start, precision, o1.iterations, o1.point);
      assert false;
    } else if o2.iterations < o1.iterations {
      SettledStops(f, start, precision, o2.iterations, o2.point);
      assert false;
    }
  }

  /** The Newton loop does not move on from a settled point. */
  lemma SettledStops(f: Objective, start: seq<real>, precision: real, k: nat, x: seq<real>)
    requires NewtonPath(f, start, k) == Ok(x) && Settled(f, x, precision)
    ensures !NewtonMoves(f, start, precision, k)
  {
  }

  // ---------------------------------------------------------------------
  // Both searches on x^2 + y^2 from (1, 1)
  // ---------------------------------------------------------------------

  /** b^k. */
  function Pow(b: real, k: nat): real
  {
    if k == 0 then 1.0 else b * Pow(b, k - 1)
  }

  lemma {:induction false} PowAdd(b: real, m: nat, n: nat)
    ensures Pow(b, m + n) == Pow(b, m) * Pow(b, n)
  {
    if n > 0 {
      PowAdd(b, m, n - 1);
      assert Pow(b, m + n) == b * Pow(b, m + n - 1);
    }
  }

  /** m + m + ... + m (n times), the exponent of n blocks of m factors. */
  function Times(m: nat, n: nat): nat
  {
    if n == 0 then 0 else Times(m, n - 1) + m
  }

  lemma {:induction false} TimesMul(m: nat, n: nat)
    ensures Times(m, n) == m * n
  {
    if n > 0 {
      TimesMul(m, n - 1);
      assert m * n == m * (n - 1) + m;
    }
  }

  lemma {:induction false} PowMul(b: real, m: nat, n: nat)
    ensures Pow(b, Times(m, n)) == Pow(Pow(b, m), n)
  {
    if n > 0 {
      PowMul(b, m, n - 1);
      PowAdd(b, Times(m, n - 1), m);
    }
  }

  lemma {:induction false} PowMono(b: real, c: real, k: nat)
    requires 0.0 <= b <= c
    ensures 0.0 <= Pow(b, k) <= Pow(c, k)
  {
    if k > 0 {
      PowMono(b, c, k - 1);
      MulMono(b, c, Pow(b, k - 1), Pow(c, k - 1));
    }
  }

  lemma MulMono(b: real, c: real, u: real, v: real)
    requires 0.0 <= b <= c && 0.0 <= u <= v
    ensures 0.0 <= b * u <= c * v
  {
    assert b * u <= c * u;
    assert c * u <= c * v;
  }

  /** 0.5^21 is below 5e-7, the size a coordinate must reach before the
      gradient 2 x_i drops below the default precision. */
  lemma HalvesBound()
    ensures Pow(0.5, 21) < 0.0000005
  {
    assert Pow(0.5, 7) == 0.0078125;
    PowMul(0.5, 7, 3);
    TimesMul(7, 3);
  }

  /** c^(21 m) < 5e-7 once c^m <= 1/2. */
  lemma ContractionBound(c: real, m: nat)
    requires 0.0 <= c && Pow(c, m) <= 0.5
    ensures 0.0 <= Pow(c, Times(m, 21)) < 0.0000005
  {
    PowMono(0.0, c, m);
    PowMul(c, m, 21);
    PowMono(Pow(c, m), 0.5, 21);
    HalvesBound();
  }

  /** f's central differences are 2x, as they are for the sum of squares. */
  ghost predicate GradientDoubles(f: Objective)
  {
    forall x: seq<real>, i: nat {:trigger Partial(f, x, i)} :: i < |x| ==> Partial(f, x, i) == 2.0 * x[i]
  }

  /** f's second differences are 2, as they are for the sum of squares. */
  ghost predicate CurvatureTwo(f: Objective)
  {
    forall x: seq<real>, i: nat {:trigger HessianEntry(f, x, i, i)} :: i < |x| ==> HessianEntry(f, x, i, i) == 2.0
  }

  lemma SumSquaresShape()
    ensures GradientDoubles(SumSquares) && CurvatureTwo(SumSquares)
  {
    forall x: seq<real>, i: nat | i < |x|
      ensures Partial(SumSquares, x, i) == 2.0 * x[i]
    {
      SumSquaresGradient(x, i);
    }
    forall x: seq<real>, i: nat | i < |x|
      ensures HessianEntry(SumSquares, x, i, i) == 2.0
    {
      SumSquaresHessian(x, i, i);
    }
  }

  /** Scaling a scaled coordinate once more. */
  lemma ScaleAgain(c: real, p: real, q: real, s: real, y: real, z: real)
    requires y == p * s && z == c * y && q == c * p
    ensures z == q * s
  {
  }

  /** After k descent steps each coordinate is 0.98^k times its start. */
  lemma {:induction false} DescentPathScales(f: Objective, start: seq<real>, k: nat, i: nat)
    requires GradientDoubles(f) && i < |start|
    ensures DescentPath(f, start, k)[i] == Pow(0.98, k) * start[i]
  {
    if k > 0 {
      DescentPathScales(f, start, k - 1, i);
      var y := DescentPath(f, start, k - 1);
      var z := DescentPath(f, start, k)[i];
      DescentStepValue(f, y, i);
      assert z == y[i] - DescentRate * Partial(f, y, i);
      ScaleAgain(0.98, Pow(0.98, k - 1), Pow(0.98, k), start[i], y[i], z);
    }
  }

  /** The ratio by which one Newton step scales such a point. */
  const NewtonContraction: real := 1.0 - NewtonRate * 2.0 / (2.0 + Damping)

  lemma ContractionRange()
    ensures 0.0 <= NewtonContraction <= 0.91
  {
    assert NewtonRate * 2.0 == 0.2;
    assert 2.0 + Damping == 2.00000001;
    assert 0.2 / 2.00000001 >= 0.09;
  }

  lemma NewtonScaling(a: real)
    ensures a - NewtonRate * (2.0 * a) / (2.0 + Damping) == NewtonContraction * a
  {
  }

  /** A Newton update with gradient 2a and curvature 2 scales a. */
  lemma NewtonUpdateScales(a: real, g: real, h: real, z: real)
    requires g == 2.0 * a && h == 2.0 && z == a - NewtonRate * g / (h + Damping)
    ensures z == NewtonContraction * a
  {
    NewtonScaling(a);
  }

  /** One Newton step never divides by zero and scales the point by
      `NewtonContraction`. */
  lemma NewtonStepScales(f: Objective, x: seq<real>)
    requires GradientDoubles(f) && CurvatureTwo(f)
    ensures NewtonStep(f, x).Ok?
    ensures forall i :: 0 <= i < |x| ==> NewtonStep(f, x).value[i] == NewtonContraction * x[i]
  {
    assert !SingularDiagonal(f, x);
    NewtonStepValue(f, x);
    forall i | 0 <= i < |x|
      ensures NewtonStep(f, x).value[i] == NewtonContraction * x[i]
    {
      NewtonUpdateScales(x[i], Partial(f, x, i), HessianEntry(f, x, i, i), NewtonStep(f, x).value[i]);
    }
  }

  /** The Newton path never meets a zero divisor. */
  lemma {:induction false} NewtonPathDefined(f: Objective, start: seq<real>, k: nat)
    requires CurvatureTwo(f)
    ensures NewtonPath(f, start, k).Ok?
  {
    if k > 0 {
      NewtonPathDefined(f, start, k - 1);
      assert !SingularDiagonal(f, NewtonPath(f, start, k - 1).value);
    }
  }

  /** Every Newton step of f succeeds and scales the point by c. */
  ghost predicate NewtonScalesBy(f: Objective, c: real)
  {
    forall x: seq<real> {:trigger NewtonStep(f, x)} ::
      NewtonStep(f, x).Ok? && forall j :: 0 <= j < |x| ==> NewtonStep(f, x).value[j] == c * x[j]
  }

  lemma NewtonScalesByContraction(f: Objective)
    requires GradientDoubles(f) && CurvatureTwo(f)
    ensures NewtonScalesBy(f, NewtonContraction)
  {
    forall x: seq<real>
      ensures NewtonStep(f, x).Ok? && forall j :: 0 <= j < |x| ==> NewtonStep(f, x).value[j] == NewtonContraction * x[j]
    {
      NewtonStepScales(f, x);
    }
  }

  /** `k` applications of a step that may fail, stopping at the first
      failure: the shape of `NewtonPath`. */
  ghost function Iterate(step: seq<real> -> Result<seq<real>>, start: seq<real>, k: nat): Result<seq<real>>
  {
    if k == 0 then Ok(start)
    else
      var prev := Iterate(step, start, k - 1);
      if prev.Err? then prev else step(prev.value)
  }

  /** The Newton path iterates the Newton step. */
  lemma {:induction false} NewtonPathIterates(f: Objective, start: seq<real>, k: nat)
    ensures NewtonPath(f, start, k) == Iterate(x => NewtonStep(f, x), start, k)
  {
    if k > 0 {
      NewtonPathIterates(f, start, k - 1);
    }
  }

  /** A step that always succeeds and scales its point by c, iterated k
      times, scales each coordinate by c^k. */
  lemma {:induction false} IterateScales(step: seq<real> -> Result<seq<real>>, c: real, start: seq<real>, k: nat, i: nat)
    requires forall x :: step(x).Ok? && |step(x).value| == |x|
    requires forall x, j :: 0 <= j < |x| ==> step(x).value[j] == c * x[j]
    requires i < |start|
    ensures Iterate(step, start, k).Ok? && |Iterate(step, start, k).value| == |start|
    ensures Iterate(step, start, k).value[i] == Pow(c, k) * start[i]
  {
    if k > 0 {
      IterateScales(step, c, start, k - 1, i);
      var y := Iterate(step, start, k - 1).value;
      ScaleAgain(c, Pow(c, k - 1), Pow(c, k), start[i], y[i], step(y).value[i]);
    }
  }

  /** After k Newton steps each coordinate is c^k times its start. */
  lemma NewtonPathScales(f: Objective, c: real, start: seq<real>, k: nat, i: nat)
    requires NewtonScalesBy(f, c) && i < |start|
    ensures NewtonPath(f, start, k).Ok?
    ensures NewtonPath(f, start, k).value[i] == Pow(c, k) * start[i]
  {
    var step := x => NewtonStep(f, x);
    forall x
      ensures step(x).Ok? && |step(x).value| == |x|
    {
      assert step(x) == NewtonStep(f, x);
    }
    forall x, j | 0 <= j < |x|
      ensures step(x).value[j] == c * x[j]
    {
      assert step(x) == NewtonStep(f, x);
    }
    NewtonPathIterates(f, start, k);
    IterateScales(step, c, start, k, i);
  }

  /** A point whose coordinates are all in [0, 5e-7) has a settled
      gradient. */
  lemma SettledNearOrigin(f: Objective, x: seq<real>)
    requires GradientDoubles(f)
    requires forall i :: 0 <= i < |x| ==> 0.0 <= x[i] < 0.0000005
    ensures Settled(f, x, DefaultPrecision)
  {
  }

  /** Points in the unit box: every coordinate in [0, 1]. */
  predicate InUnitBox(x: seq<real>)
  {
    forall i :: 0 <= i < |x| ==> 0.0 <= x[i] <= 1.0
  }

  /** A coordinate in [0, 1] scaled by c^k < 5e-7 (c >= 0) is in [0, 5e-7). */
  lemma SmallScaled(p: real, s: real, z: real)
    requires 0.0 <= p < 0.0000005 && 0.0 <= s <= 1.0 && z == p * s
    ensures 0.0 <= z < 0.0000005
  {
    assert p * s <= p * 1.0;
  }

  /** 0.98^735, the factor of 735 descent steps, is below the tolerance. */
  lemma DescentFactorSmall()
    ensures 0.0 <= Pow(0.98, 735) < 0.0000005
  {
    assert Pow(0.98, 5) == 0.9039207968;
    PowMul(0.98, 5, 7);
    TimesMul(5, 7);
    PowMono(Pow(0.98, 5), 0.904, 7);
    ContractionBound(0.98, 35);
    TimesMul(35, 21);
  }

  /** From the unit box, the descent path is settled after 735 steps. */
  lemma DescentSettles(f: Objective, start: seq<real>)
    requires GradientDoubles(f) && InUnitBox(start)
    ensures Settled(f, DescentPath(f, start, 735), DefaultPrecision)
  {
    DescentFactorSmall();
    var x := DescentPath(f, start, 735);
    var p := Pow(0.98, 735);
    forall i | 0 <= i < |x|
      ensures 0.0 <= x[i] < 0.0000005
    {
      DescentPathScales(f, start, 735, i);
      SmallScaled(p, start[i], x[i]);
    }
    SettledNearOrigin(f, x);
  }

  /** The factor of 168 Newton steps is below the tolerance. */
  lemma NewtonFactorSmall()
    ensures 0.0 <= Pow(NewtonContraction, 168) < 0.0000005
  {
    ContractionRange();
    PowMono(NewtonContraction, 0.91, 8);
    ContractionBound(NewtonContraction, 8);
    TimesMul(8, 21);
  }

  /** From the unit box, the Newton path is settled after 168 steps. */
  lemma NewtonSettles(f: Objective, start: seq<real>)
    requires GradientDoubles(f) && CurvatureTwo(f) && InUnitBox(start)
    ensures NewtonPath(f, start, 168).Ok?
    ensures Settled(f, NewtonPath(f, start, 168).value, DefaultPrecision)
  {
    NewtonFactorSmall();
    NewtonScalesByContraction(f);
    NewtonPathDefined(f, start, 168);
    var x := NewtonPath(f, start, 168).value;
    var p := Pow(NewtonContraction, 168);
    forall i | 0 <= i < |x|
      ensures 0.0 <= x[i] < 0.0000005
    {
      NewtonPathScales(f, NewtonContraction, start, 168, i);
      SmallScaled(p, start[i], x[i]);
    }
    SettledNearOrigin(f, x);
  }

  /** Gradient descent on x_1^2 + ... + x_n^2 from any point of the unit box,
      such as the (1, 1) of the solver's examples, converges with the
      default settings within 735 iterations. */
  lemma DescentConvergesOnBowl(start: seq<real>, o: Outcome)
    requires InUnitBox(start)
    requires DescentOutcome(SumSquares, start, DefaultPrecision, DefaultMaxIterations, o)
    ensures o.converged && o.iterations <= 735
  {
    SumSquaresShape();
    DescentSettles(SumSquares, start);
    if o.iterations > 735 {
      assert false;
    }
  }

  /** The same for Newton's method, within 168 iterations. */
  lemma NewtonConvergesOnBowl(start: seq<real>, o: Outcome)
    requires InUnitBox(start)
    requires NewtonOutcome(SumSquares, start, DefaultPrecision, DefaultMaxIterations, o)
    ensures o.converged && o.iterations <= 168
  {
    SumSquaresShape();
    NewtonSettles(SumSquares, start);
    if o.iterations > 168 {
      SettledStops(SumSquares, start, DefaultPrecision, 168, NewtonPath(SumSquares, start, 168).value);
      assert false;
    }
  }
}
