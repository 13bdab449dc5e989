# pycalculus solvers in Dafny

This project models the five numerical solvers of pycalculus (`solvers/`) and
proves what each one computes, over exact real arithmetic:

- **LinearSystemSolver**: Gaussian elimination with partial pivoting, then
  back substitution.
- **DifferentialEquationSolver**: a fixed-step Euler or classical RK4 run
  whose last step is shortened so that it lands on `x_end`.
- **Interpolator**: a Lagrange polynomial, a Newton divided-difference
  polynomial, and a natural cubic spline. The spline is solved with a
  tridiagonal sweep and evaluated on the first bracketing segment.
- **Integrator**: the composite trapezoid and Simpson rules. Each doubles its
  segment count until two successive estimates agree to `precision`, or
  `max_iterations` passes have run. With several bound pairs, the result is
  the product of one-dimensional integrals.
- **ExtremumFinder**: gradient descent and a diagonal, damped Newton
  iteration. Both are driven by central-difference estimates of the gradient
  and the Hessian.

Modelling conventions:

- Python floats are Dafny `real`.
- Caller-supplied callables are function-typed parameters. The `callable()`
  check keeps its error path through `Callee<F> = Callable(fn) | NotCallable`.
- Every `ValueError` is an `Err` carrying the exact message the source
  raises.
- Solver configurations are datatypes, because no solver updates its own
  fields while solving.
- The working lists that the source copies and updates in place
  (`matrix`/`vector`, `points`, the divided-difference table, the spline
  arrays, `x`, `grad`, `hessian`) become sequences, which loop-carrying
  methods reassign. Each method is proved against a specification function,
  and the properties the source promises are lemmas about those functions.

Behaviour worth noting, where the code goes its own way and the model
follows it:

- The spline's "at least 3 points" requirement is not part of
  `validate_input`. The spline branch raises it with its own message once
  validation has passed (`solvers/interpolation.py:99-100`). So two points
  with a repeated x report the repeated x, not the spline's minimum.
  `Interpolation.Solve` orders the checks this way.
- When the refinement loop runs out of passes, the `segments` it reports is
  twice the count used for the final `value`, because `n` is doubled after the
  last pass (`solvers/integral.py:95`). `Integral.RefinedOutcome` states this.
- `solve(a, b, *args)` with extra bounds checks `a` and `b` themselves as bound
  pairs (`solvers/integral.py:39`, `54-60`). Two plain numbers followed by pairs
  are therefore rejected (`Integral.Solve`).
- Errors are the `ValueError` messages the code raises, not named error kinds.

Modules:

| module | file |
|---|---|
| `Common` | Result, Option, Callee and two cancellation lemmas |
| `Samples` | sample points and distinct abscissas |
| `Polynomial` | coefficient lists, Horner evaluation, synthetic division, and the root-count argument |
| `LinearSystem` | `solvers/linear_system.py` |
| `Differential` | `solvers/differential.py` |
| `Lagrange`, `Newton`, `SplineOrder`, `Spline`, `Interpolation` | `solvers/interpolation.py` |
| `Integral` | `solvers/integral.py` |
| `Extremum` | `solvers/extremum.py` |

## Model

| member | source | states |
|---|---|---|
| `LinearSystem.ValidateInput` | solvers/linear_system.py:22-32 | Ok (True) exactly for a non-empty square matrix with a vector of matching length. Otherwise the error is "Matrix cannot be empty", "Matrix must be square" or "Vector dimension must match matrix size", checked in that order. |
| `LinearSystem.FirstBadRow` | solvers/linear_system.py:27-29 | The row scan stops at the first row whose length is not n, or passes every row. |
| `LinearSystem.FindPivot` | solvers/linear_system.py:44-47 | The chosen row lies in col..n-1 and maximises abs(a[row][col]) there. Every earlier row in range is strictly smaller, so a tie keeps the first row. |
| `LinearSystem.SwapKeepsSolutions` | solvers/linear_system.py:50-52 | Swapping two matrix rows together with the two vector entries leaves the set of solutions unchanged. |
| `LinearSystem.DotRowOp` | solvers/linear_system.py:66-67 | A row reduced by factor times the pivot row has, against any x, the old row's product minus factor times the pivot row's product. |
| `LinearSystem.RowOpKeepsSolutions` | solvers/linear_system.py:63-67 | Subtracting factor times the pivot row and entry from a lower row leaves the solution set unchanged. |
| `LinearSystem.SubtractPivotRow` | solvers/linear_system.py:64-67 | One elimination step changes only that row of the matrix and that vector entry, by the row operation. |
| `LinearSystem.EliminateBelow` | solvers/linear_system.py:62-67 | After a column is eliminated, rows up to the pivot are untouched and the column is zero below the diagonal. All earlier columns stay zero below it, and the solution set is unchanged. |
| `LinearSystem.SumAx` | solvers/linear_system.py:72-74 | `sum_ax` is the sum of `matrix[row][col]*solution[col]` over the columns after the diagonal. |
| `LinearSystem.BackSubstitute` | solvers/linear_system.py:70-75 | For an upper-triangular system with a non-zero diagonal, the computed vector has length n and satisfies every equation. |
| `LinearSystem.UpperTriangularSatisfies` | solvers/linear_system.py:75 | Meeting each row's back-substitution equation means satisfying the triangular system. |
| `LinearSystem.UpperTriangularAgree` | solvers/linear_system.py:70-75 | Two solutions of a triangular system with a non-zero diagonal agree, so back substitution's answer is the only one. |
| `LinearSystem.RowFromDiagonal` | solvers/linear_system.py:75 | Any solution of the triangular system meets each row's back-substitution equation. |
| `LinearSystem.Solve` | solvers/linear_system.py:34-81 | Fails exactly when `validate_input` does, with its message. A singular outcome is `(None, True, 'Matrix is singular or nearly singular')`. Otherwise the report is 'Solution found' with a length-n solution of the original system, and that solution is the only one. |
| `Differential.ValidateInput` | solvers/differential.py:22-28 | Ok exactly for a callable equation and a method in {euler, rk4}, with the source's two messages. |
| `Differential.Solve` | solvers/differential.py:30-68 | Validation errors come first, then "End point must be greater than initial point" when `x_end <= x0`. Otherwise the points are the complete run, and the method and step size are echoed back. |
| `Differential.Steps` | solvers/differential.py:43-62 | The while loop yields the complete run: it starts at (x0, y0), each step has length `min(step_size, x_end - x)`, and the run stops once x reaches `x_end`. |
| `Differential.ExtendRun` | solvers/differential.py:47-62 | One pass of the loop, an Euler or RK4 step, extends a partial run while x is below `x_end`. |
| `Differential.Abscissa` | solvers/differential.py:47-62 | Before the last step, the k-th abscissa is `x0 + k*step_size`. |
| `Differential.RunShape` | solvers/differential.py:40-62 | A run has at least two points and ends exactly at `x_end`. Every step but the last equals `step_size`, the last lies in (0, step_size], the abscissas strictly increase, and the point count is bounded by the interval length. |
| `Differential.RunEnd` | solvers/differential.py:47-62 | The last abscissa is `x_end`. The steps before it are full and the last one is in (0, step]. |
| `Differential.Increasing` | solvers/differential.py:61 | The abscissas of a run strictly increase. |
| `Differential.StepCount` | solvers/differential.py:47-62 | `(len-2)*step < x_end - x0 <= (len-1)*step`. |
| `Differential.RunUnique` | solvers/differential.py:43-62 | The inputs determine the run. |
| `Differential.SamePoint` | solvers/differential.py:43-62 | Two partial runs of the same inputs agree point by point. |
| `Differential.FivePointsForStepPointThree` | solvers/differential.py:47-62 | Step 0.3 over [0, 1] gives five points, at 0, 0.3, 0.6, 0.9 and 1.0 (a last step of 0.1). |
| `Differential.Rk4StepExact` | solvers/differential.py:53-59 | For `f(x, y) = p*x + q`, one RK4 step adds exactly the integral of the slope over the step. |
| `Differential.Rk4ExactUpTo` | solvers/differential.py:53-59 | For an affine slope in x, every RK4 point lies on the exact solution. |
| `Differential.Rk4ExactForAffineSlope` | solvers/differential.py:53-59 | The same fact for the whole run at once. |
| `Differential.EulerExactForConstantSlope` | solvers/differential.py:50-52 | For a constant slope q, every Euler point is `y0 + q*(x - x0)`. |
| `Interpolation.XSetSize` | solvers/interpolation.py:25-27 | `len(set(x_values)) <= len(x_values)`, with equality exactly when no two points share an abscissa. |
| `Interpolation.ValidateInput` | solvers/interpolation.py:21-30 | Ok exactly for at least two points with distinct x and a method in {lagrange, newton, spline}. The three errors come in the source's order. |
| `Interpolation.Solve` | solvers/interpolation.py:32-40 | Validation errors first, then the spline's three-point error. A success reports the evaluator, the name and the degree `n-1`, or `segments = n-1` for the spline. The spline is fitted to the input sorted by x. Its evaluator returns y at every input point, and the Newton evaluator equals the Lagrange polynomial at every x. |
| `Interpolation.SplineReproduces` | solvers/interpolation.py:96-155 | A natural spline fitted to the points sorted by x passes through every input point, whatever their order. |
| `Interpolation.LagrangeSample` | solvers/interpolation.py:42-62 | Through (0,0), (1,1), (2,4), the Lagrange polynomial at 1.5 is 2.25. |
| `Interpolation.NewtonSample` | solvers/interpolation.py:64-94 | Through (0,0), (1,1), (2,4), the Newton form at 1.5 is 2.25, for any table the divided-difference fill can produce. |
| `Interpolation.SplineSample` | solvers/interpolation.py:96-155 | The natural spline through (0,0), (1,1), (2,4) at 1.5 is 2.3125. |
| `Lagrange.Evaluate` | solvers/interpolation.py:46-56 | The double loop of `lagrange_poly` computes the Lagrange sum of `y_i * prod_{j != i} (x - x_j)/(x_i - x_j)`. |
| `Lagrange.TermAtOwnNode` | solvers/interpolation.py:50-54 | Term i at x_i is y_i. |
| `Lagrange.TermAtOtherNode` | solvers/interpolation.py:51-54 | Term i vanishes at every other sample x_k. |
| `Lagrange.PartialAtNode` | solvers/interpolation.py:47-55 | A prefix of the sum at x_k is y_k when it includes term k, and 0 otherwise. |
| `Lagrange.Reproduces` | solvers/interpolation.py:46-56 | The Lagrange evaluator returns y_k at each sample x_k. |
| `Newton.DividedDifferences` | solvers/interpolation.py:68-79 | The table is n by n. Column 0 holds the y values, and `diff[i][j]` is the divided difference of points i..i+j for `i + j < n`. The unused entries stay 0. |
| `Newton.FillColumn` | solvers/interpolation.py:76-79 | Filling column j keeps columns below j and sets `diff[i][j]` for `i < n - j`. |
| `Newton.TableRecurrent` | solvers/interpolation.py:72-79 | The table satisfies `diff[i][0] = y_i` and `diff[i+1][j-1] - diff[i][j-1] = diff[i][j] * (x_{i+j} - x_i)`. |
| `Newton.TableGap` | solvers/interpolation.py:79 | A table entry that is the divided difference meets the recurrence of line 79. |
| `Newton.DdRecurrence` | solvers/interpolation.py:79 | Divided differences meet the recurrence, multiplied through by the gap. |
| `Newton.TableEntry` | solvers/interpolation.py:68-79 | Each used entry of the table is the divided difference. |
| `Newton.Evaluate` | solvers/interpolation.py:81-88 | `newton_poly` computes the Newton form `sum_j diff[0][j] * prod_{k<j} (x - x_k)`. |
| `Newton.OmegaShift` | solvers/interpolation.py:84-86 | The running product splits off its first factor. |
| `Newton.OmegaVanishes` | solvers/interpolation.py:84-86 | The running product vanishes at each of its own nodes. |
| `Newton.OmegaSplit` | solvers/interpolation.py:84-87 | One coefficient times its product splits along the recurrence into two shorter products. |
| `Newton.FormDifference` | solvers/interpolation.py:81-88 | Two Newton forms one node apart differ by one recurrence term. |
| `Newton.RecurrentAt` | solvers/interpolation.py:79 | The recurrence at one entry. |
| `Newton.FormStep` | solvers/interpolation.py:85-87 | One more loop pass adds `diff[i][j]` times the running product. |
| `Newton.LastTerm` | solvers/interpolation.py:79-87 | At the last node, the newest term equals the difference term of the shorter forms. |
| `Newton.LastNodeSum` | solvers/interpolation.py:81-88 | The form on i..i+j equals the form on i+1..i+j wherever their difference term cancels. |
| `Newton.LastNode` | solvers/interpolation.py:81-88 | At x_{i+j}, the Newton form on points i..i+j equals the form on i+1..i+j. |
| `Newton.Interpolates` | solvers/interpolation.py:81-88 | The Newton form on points i..i+j returns y at each of those points. |
| `Newton.Reproduces` | solvers/interpolation.py:64-94 | The Newton evaluator returns y_k at each sample x_k. |
| `Newton.AgreesWithLagrange` | solvers/interpolation.py:42-94 | The Newton and Lagrange evaluators are equal at every x, not only at the samples: both are polynomials of degree at most n-1 through the n points. |
| `Newton.OmegaIsPolynomial` | solvers/interpolation.py:84-86 | The running product after t factors is the value of a polynomial with t+1 coefficients. |
| `Newton.FormIsPolynomial` | solvers/interpolation.py:81-88 | The Newton form on points i..i+j is the value of a polynomial with j+1 coefficients. |
| `Newton.DifferenceValue` | solvers/interpolation.py:42-94 | The coefficient-wise difference of the Newton and Lagrange polynomials evaluates to the difference of the two evaluators. |
| `Lagrange.TermIsPolynomial` | solvers/interpolation.py:49-54 | Each partial term of `lagrange_poly` is the value of a polynomial, one coefficient longer per factor. |
| `Lagrange.PartialIsPolynomial` | solvers/interpolation.py:46-56 | Each prefix of the Lagrange sum is the value of the sum of the term polynomials. |
| `Lagrange.ValueIsPolynomial` | solvers/interpolation.py:46-56 | The Lagrange evaluator is a polynomial with at most n coefficients, that is of degree at most n-1. |
| `Polynomial.QuotientEval` | solvers/interpolation.py:42-94 | Synthetic division: p(v) = p(a) + (v - a) q(v) for the quotient q, which has one coefficient fewer. |
| `Polynomial.RootsForceZero` | solvers/interpolation.py:42-94 | A polynomial with no more coefficients than there are distinct points, vanishing at all of them, is zero everywhere. |
| `SplineOrder.Insert` | solvers/interpolation.py:103 | Insertion adds one point and keeps the rest: the multiset grows by that point. |
| `SplineOrder.SortByX` | solvers/interpolation.py:103 | `sorted(points, key=x)` is a permutation of the points, ascending in x. |
| `SplineOrder.InsertMembers` | solvers/interpolation.py:103 | The inserted sequence holds exactly the new point and the old ones. |
| `SplineOrder.InsertSorted` | solvers/interpolation.py:103 | Insertion keeps a sequence ascending in x. |
| `SplineOrder.DistinctTail` | solvers/interpolation.py:103 | Distinct abscissas stay distinct after dropping the head, and the head's x is not among the rest. |
| `SplineOrder.InsertKeepsDistinct` | solvers/interpolation.py:103 | Inserting a point with a new abscissa keeps the abscissas distinct. |
| `SplineOrder.SortKeepsDistinct` | solvers/interpolation.py:103 | Sorting keeps the abscissas distinct. |
| `SplineOrder.StrictlyAscending` | solvers/interpolation.py:103-104 | Sorted points with distinct x have strictly increasing x. |
| `SplineOrder.TailAscending` | solvers/interpolation.py:103 | The tail of a strictly ascending sequence is strictly ascending. |
| `SplineOrder.SameFirst` | solvers/interpolation.py:103 | Two ascending arrangements of the same distinct points start with the same point. |
| `SplineOrder.SameRest` | solvers/interpolation.py:103 | Removing a common head from equal multisets leaves equal multisets. |
| `SplineOrder.StrictArrangementUnique` | solvers/interpolation.py:103 | Distinct points have only one arrangement that ascends in x. |
| `SplineOrder.SortIgnoresInputOrder` | solvers/interpolation.py:102-105 | The sorted points, and hence the fitted spline, do not depend on the input order. |
| `Spline.Xs` | solvers/interpolation.py:104 | `x = [p[0] for p in points]`. |
| `Spline.Ys` | solvers/interpolation.py:105 | `y = [p[1] for p in points]`. |
| `Spline.RightHandSides` | solvers/interpolation.py:111-113 | `alpha` has n-1 entries, `alpha[0] = 0`, and each interior entry is `3/h_i (y_{i+1}-y_i) - 3/h_{i-1} (y_i-y_{i-1})`. |
| `Spline.Sweep` | solvers/interpolation.py:116-124 | The forward sweep leaves `l[0]=1`, `mu[0]=z[0]=0` and each interior row of `l`, `mu`, `z` as computed at lines 122-124, with `l[i] > h[i]` so no division is by zero. |
| `Spline.BackSubstitute` | solvers/interpolation.py:126-128 | `c[n-1]` keeps its initial 0, and `c[i] = z[i] - mu[i]*c[i+1]` below it. |
| `Spline.SweepSolvesRow` | solvers/interpolation.py:121-128 | Sweep plus back substitution satisfy one row of the tridiagonal system. |
| `Spline.RowFromValues` | solvers/interpolation.py:108-113 | That row, written with the spacings and `alpha`, is the spline's continuity row. |
| `Spline.SweepSolvesSystem` | solvers/interpolation.py:111-128 | The computed `c` solves every interior row of the natural-spline system. |
| `Spline.SweepSolvesSystemRow` | solvers/interpolation.py:121-128 | One row of the same. |
| `Spline.Coefficients` | solvers/interpolation.py:131-135 | `b[i]` and `d[i]` make each segment's cubic end at `y[i+1]`, with `c[i] + 3 d[i] h_i = c[i+1]`. |
| `Spline.FitKnots` | solvers/interpolation.py:107-135 | For ascending knots, the fitted coefficients form a natural cubic spline through the data. |
| `Spline.Fit` | solvers/interpolation.py:96-135 | Fewer than 3 points gives "Spline interpolation requires at least 3 points". Otherwise the spline is the natural spline on the points sorted by x. |
| `Spline.FirstCovering` | solvers/interpolation.py:145-147 | The scan stops at the first i with `x <= x[i+1]`, where `x[i] < x <= x[i+1]`. |
| `Spline.Segment` | solvers/interpolation.py:139-147 | `x <= x[0]` uses segment 0 and `x >= x[-1]` uses segment n-2. Otherwise the segment brackets x with `x[i] < x <= x[i+1]`. |
| `Spline.FindSegment` | solvers/interpolation.py:139-147 | The loop with `break` finds that segment. |
| `Spline.SegmentIsFirst` | solvers/interpolation.py:145-147 | Any bracketing segment with no earlier knot at or above x is the one chosen. |
| `Spline.Evaluate` | solvers/interpolation.py:137-149 | `spline_function` returns the chosen segment's cubic at x. |
| `Spline.CubicAtStart` | solvers/interpolation.py:148-149 | Each segment's cubic starts at `y[i]`. |
| `Spline.CubicAtEnd` | solvers/interpolation.py:131-149 | With the `b`/`d` formulas, each segment's cubic ends at `y[i+1]`. |
| `Spline.SegmentEnds` | solvers/interpolation.py:131-149 | Each segment meets the data at both its ends. |
| `Spline.ValueAtKnots` | solvers/interpolation.py:137-149 | The spline evaluator returns `y_k` at every knot `x_k`. |
| `Spline.NaturalEnds` | solvers/interpolation.py:116-128 | The second derivative is 0 at both end knots (natural boundary). |
| `Spline.CurvatureContinuous` | solvers/interpolation.py:131-135 | Neighbouring segments have the same second derivative at their shared knot. |
| `Spline.SlopeContinuous` | solvers/interpolation.py:111-135 | Neighbouring segments have the same first derivative at their shared knot. |
| `Spline.SegmentSlope` | solvers/interpolation.py:134-135 | The `b` and `d` formulas in multiplied-out form. |
| `Spline.SlopeAtKnot` | solvers/interpolation.py:149 | The slopes of the two pieces at a shared knot. |
| `Spline.ChordRow` | solvers/interpolation.py:113-128 | The system row written with the chord slopes. |
| `Spline.RowDifference` | solvers/interpolation.py:111-128 | Two solutions of a system row differ by a solution of the homogeneous row. |
| `Spline.HomogeneousIsZero` | solvers/interpolation.py:121-128 | The diagonally dominant homogeneous system with zero ends has only the zero solution. |
| `Spline.CurvaturesUnique` | solvers/interpolation.py:111-128 | The natural-spline system has one solution `c`. |
| `Spline.SegmentUnique` | solvers/interpolation.py:131-135 | Given `c`, the segment conditions fix `b` and `d`. |
| `Spline.NaturalSplineUnique` | solvers/interpolation.py:96-135 | Two natural splines through the same knots are the same spline. |
| `Integral.Make` | solvers/integral.py:11-22 | A new integrator keeps the function and method, with precision 1e-6 and 1000 iterations. |
| `Integral.TrapezoidPass` | solvers/integral.py:82-88 | One trapezoid pass computes `h*(f(a)/2 + f(b)/2 + sum of interior values)` with `h = (b-a)/n`. |
| `Integral.AddInterior` | solvers/integral.py:86-87 | The interior loop adds `f(a + i*h)` for i in 1..n-1. |
| `Integral.SimpsonPass` | solvers/integral.py:112-122 | One Simpson pass computes `h/3*(f(a) + f(b) + weighted interior)`. |
| `Integral.AddWeighted` | solvers/integral.py:116-121 | The interior loop adds `4 f` at odd and `2 f` at even indices. |
| `Integral.RulePass` | solvers/integral.py:75-137 | One pass of whichever rule is chosen. |
| `Integral.Refinement` | solvers/integral.py:75-137 | The refinement loop computes the outcome of the doubling recursion. |
| `Integral.OutcomeEarlier` | solvers/integral.py:91-96 | A pass that does not settle hands its report on unchanged. |
| `Integral.RefineSettles` | solvers/integral.py:91-92 | A settling pass ends the loop with `converged = True` and its own segment count. |
| `Integral.RefineExhausted` | solvers/integral.py:81-103 | The last allowed pass ends the loop with `converged = False` and n doubled once more. |
| `Integral.RefineOutcome` | solvers/integral.py:81-103 | What the loop reports from any pass on. |
| `Integral.RefinedOutcome` | solvers/integral.py:75-103 | `1 <= iterations <= max_iterations`, `segments = 2*2^iterations`, and `converged` exactly when `iterations < max_iterations`. A converged value is the last estimate, within precision of the one before. Otherwise the value uses `2^max_iterations` segments. No earlier pass settled. |
| `Integral.ValidateInput` | solvers/integral.py:24-28 | Ok (True) exactly for a callable, else "Function must be callable". |
| `Integral.SingleDispatch` | solvers/integral.py:41-52 | The name is 'Trapezoidal Rule' or "Simpson's Rule", and any other method falls through to 'Monte Carlo' and its estimate. The quadrature rules report the loop's bookkeeping. |
| `Integral.SingleIntegral` | solvers/integral.py:41-52 | `_single_integral` runs the chosen rule's loop and labels it. |
| `Integral.Pairs` | solvers/integral.py:61-62 | `current_bounds` lists the pairs in input order. |
| `Integral.PairsExtend` | solvers/integral.py:59-62 | A well-formed bound appends its pair. |
| `Integral.Unpaired` | solvers/integral.py:59-60 | A single malformed bound makes the bounds unpaired. |
| `Integral.ProductExtend` | solvers/integral.py:67-68 | Each pair multiplies the running product by its one-dimensional value. |
| `Integral.MultiProduct` | solvers/integral.py:56-68 | The loop rejects exactly unpaired bounds. Otherwise it returns the pairs and the product of their values. |
| `Integral.MultiIntegral` | solvers/integral.py:54-73 | "Each dimension must have exactly 2 bounds" exactly when some bound is not a pair. Otherwise the value is the product, the method is `"Repeated 1D " + method`, and the bounds are the pairs. |
| `Integral.Solve` | solvers/integral.py:30-39 | Validation first. With no extra arguments the one-dimensional result; otherwise the repeated product over `(a, b, *args)`. Plain numbers a, b with extra arguments are rejected. |
| `Integral.InteriorSumAffine` | solvers/integral.py:86-87 | For affine f, the interior sum in closed form. |
| `Integral.TrapezoidExact` | solvers/integral.py:82-88 | For affine f, every trapezoid pass is the exact integral. |
| `Integral.WeightedAsPanels` | solvers/integral.py:113-121 | The 1-4-2-...-4-1 weighted sum is a sum of three-point panels. |
| `Integral.PanelExact` | solvers/integral.py:113-122 | One Simpson panel is exact for a quadratic. |
| `Integral.PanelsNext` | solvers/integral.py:116-121 | The panel sum grows by one panel two nodes on. |
| `Integral.PanelAt` | solvers/integral.py:116-122 | A panel integrates exactly when the panels are exact for f. |
| `Integral.PanelsTelescopeStep` | solvers/integral.py:112-122 | One more exact panel extends the telescoping sum. |
| `Integral.PanelsTelescope` | solvers/integral.py:112-122 | Exact panels telescope to `F(end) - F(a)`. |
| `Integral.QuadraticPanels` | solvers/integral.py:116-122 | A quadratic's panels are exact against its cubic antiderivative. |
| `Integral.EndNode` | solvers/integral.py:112-117 | Node n of `a + i*h` with `h = (b-a)/n` is b. |
| `Integral.SimpsonTelescopes` | solvers/integral.py:112-122 | A Simpson pass with an even n is `F(b) - F(a)` when the panels are exact. |
| `Integral.SimpsonExact` | solvers/integral.py:112-122 | For quadratic f, every Simpson pass is the exact integral. |
| `Integral.TrapezoidConvergesOnAffine` | solvers/integral.py:75-103 | For affine f, the trapezoid rule stops after one iteration with 4 segments, converged, with the exact value. |
| `Integral.SimpsonConvergesOnQuadratic` | solvers/integral.py:105-137 | For quadratic f, Simpson's rule stops after one iteration with 4 segments, converged, with the exact value. |
| `Integral.LinearSample` | solvers/integral.py:41-52 | The trapezoid rule on `2x + 3` over [0, 2] gives 10 with 4 segments after 1 iteration, converged. |
| `Integral.QuadraticSample` | solvers/integral.py:41-52 | Simpson's rule on `x^2 + 2x + 1` over [0, 2] gives 26/3 with 4 segments after 1 iteration. |
| `Extremum.Make` | solvers/extremum.py:11-24 | A new finder keeps the function, variables and method, with precision 1e-6 and 1000 iterations. |
| `Extremum.ValidateInput` | solvers/extremum.py:26-34 | Ok exactly for a callable, a non-empty list of variables and a method in {gradient, newton}. The three errors come in the source's order. |
| `Extremum.Shift` | solvers/extremum.py:95-98 | The copied point moved along one coordinate and unchanged elsewhere. |
| `Extremum.ComputeGradient` | solvers/extremum.py:90-101 | The gradient has length n, and component i is `(f(x+h e_i) - f(x-h e_i))/(2h)` with h = 1e-6. |
| `Extremum.ComputeHessian` | solvers/extremum.py:103-137 | An n by n matrix: the second-difference diagonal and the four-point mixed entries off it. |
| `Extremum.SettledTest` | solvers/extremum.py:55-56 | `all(abs(g) < precision for g in grad)` holds exactly when the gradient at x has settled. |
| `Extremum.DescentStepValue` | solvers/extremum.py:57-58 | A descent step sets `x_i - 0.01*grad_i` in each coordinate. |
| `Extremum.DescendAlong` | solvers/extremum.py:57-58 | The update loop does exactly that to each coordinate of the copy. |
| `Extremum.DescentUpdate` | solvers/extremum.py:53-58 | Updating with the computed gradient is the descent step. |
| `Extremum.DescentIteration` | solvers/extremum.py:53-59 | One loop pass reports settled exactly at a settled point, and otherwise takes the descent step. |
| `Extremum.DescentMoves` | solvers/extremum.py:53-59 | An unsettled point advances the descent path by one step. |
| `Extremum.DescentStops` | solvers/extremum.py:53-66 | A loop that stops after k steps reports the descent outcome. |
| `Extremum.GradientDescent` | solvers/extremum.py:47-66 | The point is the descent path after `iterations` steps and `value = f(point)`. `converged` holds exactly when `iterations < max_iterations`, and then the gradient there is below precision. No earlier point had settled. |
| `Extremum.NewtonStep` | solvers/extremum.py:78-80 | A Newton step fails with "float division by zero" exactly when some `H_ii + 1e-8` is 0. |
| `Extremum.NewtonStepValue` | solvers/extremum.py:78-80 | Otherwise it sets `x_i - 0.1*grad_i/(H_ii + 1e-8)` and uses only the diagonal. |
| `Extremum.NewtonPath` | solvers/extremum.py:70-81 | Every point on the Newton path has the start's length, and every failure is the division by zero. |
| `Extremum.NewtonAlong` | solvers/extremum.py:78-80 | The update loop does the Newton update, or reports a zero divisor. |
| `Extremum.NewtonUpdate` | solvers/extremum.py:73-80 | Updating with the computed gradient and Hessian is the Newton step. |
| `Extremum.SingularFromHessian` | solvers/extremum.py:80 | A zero divisor in the computed Hessian is a zero divisor of the step. |
| `Extremum.NewtonFailsAt` | solvers/extremum.py:72-81 | A zero divisor at an unsettled point within the budget is a failure of the method. |
| `Extremum.NewtonIteration` | solvers/extremum.py:73-81 | One loop pass reports settled exactly at a settled point. Otherwise it takes the Newton step, or reports the zero divisor. |
| `Extremum.NewtonPathNext` | solvers/extremum.py:78-81 | A Newton step from path point k is path point k+1. |
| `Extremum.NewtonMethod` | solvers/extremum.py:68-88 | The Newton analogue of `GradientDescent`. An error is always "float division by zero", and only when some path point within the budget has a zero divisor and no earlier point had settled. |
| `Extremum.Solve` | solvers/extremum.py:36-45 | Validation errors, then "Start point dimension must match variables count", then the chosen method's outcome. The returned point has the start's length. |
| `Extremum.HessianSymmetric` | solvers/extremum.py:121-136 | `H[i][j] = H[j][i]`. |
| `Extremum.DifferencesExactOnQuadratics` | solvers/extremum.py:90-120 | Along a coordinate where f is quadratic, the central difference and second difference are its exact derivatives. |
| `Extremum.SumSquaresGradient` | solvers/extremum.py:90-101 | For the sum of squares, the gradient estimate is 2x. |
| `Extremum.SumSquaresHessian` | solvers/extremum.py:103-137 | For the sum of squares, the Hessian estimate is 2I. |
| `Extremum.DerivativesSample` | solvers/extremum.py:90-137 | At (1, 2), the sum of squares has gradient (2, 4) and Hessian 2I. |
| `Extremum.SumSquaresShape` | solvers/extremum.py:90-137 | The sum of squares has gradient estimate 2x and Hessian diagonal 2 everywhere. |
| `Extremum.DescentOutcomeUnique` | solvers/extremum.py:47-66 | The gradient-descent result is determined by its inputs. |
| `Extremum.NewtonOutcomeUnique` | solvers/extremum.py:68-88 | The Newton result is determined by its inputs. |
| `Extremum.SettledStops` | solvers/extremum.py:76-77 | A settled point ends the Newton loop. |
| `Extremum.DescentPathScales` | solvers/extremum.py:57-58 | On a function whose gradient estimate is 2x, each descent step scales the point by 0.98. |
| `Extremum.ContractionRange` | solvers/extremum.py:80 | The Newton factor `1 - 0.2/(2 + 1e-8)` lies in [0, 0.91]. |
| `Extremum.NewtonStepScales` | solvers/extremum.py:78-80 | On such a function with Hessian diagonal 2, each Newton step scales the point by that factor. |
| `Extremum.NewtonPathDefined` | solvers/extremum.py:78-80 | With Hessian diagonal 2, no Newton step divides by zero. |
| `Extremum.NewtonScalesByContraction` | solvers/extremum.py:78-80 | On the bowl, Newton steps scale by the Newton factor. |
| `Extremum.NewtonPathIterates` | solvers/extremum.py:70-81 | The Newton path iterates the Newton step. |
| `Extremum.NewtonPathScales` | solvers/extremum.py:70-81 | The k-th Newton point is the start scaled by the factor to the k. |
| `Extremum.SettledNearOrigin` | solvers/extremum.py:55-56 | Coordinates in [0, 5e-7) have a gradient below 1e-6. |
| `Extremum.DescentSettles` | solvers/extremum.py:49-59 | From the unit box, descent on the bowl has settled by step 735. |
| `Extremum.NewtonSettles` | solvers/extremum.py:70-81 | From the unit box, Newton on the bowl has settled by step 168. |
| `Extremum.DescentConvergesOnBowl` | solvers/extremum.py:47-66 | With the default settings, gradient descent on the sum of squares from the unit box converges within 735 iterations. |
| `Extremum.NewtonConvergesOnBowl` | solvers/extremum.py:68-88 | With the default settings, Newton on the sum of squares from the unit box converges within 168 iterations. |

## Left out

- Floating point: every number is an exact real. Rounding, overflow, NaN and
  infinities are not modelled. In particular, the model says nothing about
  whether the 1e-10 pivot threshold matches IEEE results, and the accuracy
  statements about RK4 against `e`, finite differences, or reaching (0, 0)
  are outside it.
- LinearSystem.Solve: does not characterise which systems are reported
  singular, since that depends on the threshold test at each pivot. It proves
  that a non-singular report's solution is the only solution of the system.
- `Integrator._monte_carlo_1d` depends on numpy's random generator. Its
  estimate is a caller-supplied function, and only the dispatch to it is
  modelled.
- The user interface, the solver factory, `main.py` and the abstract base
  class: I/O, process plumbing, or no behaviour.
- A non-positive ODE step size makes the source loop forever, so
  `Differential.Solve` requires `step_size > 0`.
- `max_iterations = 0` makes the source read an unbound `integral`, so the
  integrator requires at least one iteration.
- A non-numeric `a`/`b` in a one-dimensional integral is a Python type
  error. `Integral.Solve` requires numbers there.
- The unused `partial_func` and the in-class `import numpy` are dead code.
- Copies and aliasing: the working lists are Dafny sequences, which are
  values, so the caller's matrix, vector and start point are unchanged by
  construction. The model does not capture update in place or aliasing.
- Extremum `variables` is `Names(list)` or `NotAList`. Only its length and
  the list check matter to the source.
- Convergence of gradient descent and Newton is proved only for the sum of
  squares from the unit box, the functions the source's tests use. The
  general methods carry only their loop contracts.
- The zero division that Python raises in the Newton update is the
  `Err("float division by zero")` outcome. The other Python exceptions a
  caller's function might raise are not modelled.
