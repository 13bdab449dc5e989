/** `Integrator`: composite trapezoid and Simpson rules refined by halving
    the step, dispatch on the method name, and the repeated one-dimensional
    product used for several bound pairs. */
module Integral {
  import opened Common

  type Integrand = real -> real

  const DefaultScheme: string := "trapezoid"
  /** The constructor's `precision` and `max_iterations`. */
  const DefaultPrecision: real := 0.000001
  const DefaultMaxIterations: int := 1000

  const NotCallableMessage: string := "Function must be callable"
  const BadBoundsMessage: string := "Each dimension must have exactly 2 bounds"

  /** The solver's state: the integrand, the method name, and the two
      refinement settings a caller may overwrite after construction. */
  datatype Integrator = Integrator(func: Callee<Integrand>, scheme: string, precision: real, maxIterations: int)

  /** `Integrator(func, method)` with the constructor's defaults. */
  function Make(func: Callee<Integrand>, scheme: string): (s: Integrator)
    ensures s.func == func && s.scheme == scheme
    ensures s.precision == DefaultPrecision && s.maxIterations == DefaultMaxIterations
  {
    Integrator(func, scheme, DefaultPrecision, DefaultMaxIterations)
  }

  /** The dictionary of a one-dimensional rule, without its display name. */
  datatype Estimate = Estimate(value: real, segments: int, iterations: int, converged: bool)

  /** A one-dimensional result with its `'method'` entry. */
  datatype Single = Single(estimate: Estimate, name: string)

  /** A positional argument of `solve`: a number, or a list/tuple of numbers. */
  datatype Arg = Number(x: real) | Sequence(items: seq<real>)

  /** What `solve` returns: a one-dimensional result, or the repeated
      product with its bound pairs. */
  datatype Outcome =
    | OneDimension(single: Single)
    | Repeated(value: real, name: string, bounds: seq<(real, real)>)

  datatype Rule = Trapezoid | Simpson

  function Pow2(k: nat): (r: nat)
    ensures r >= 1
  {
    if k == 0 then 1 else 2 * Pow2(k - 1)
  }

  /** The abscissa `a + i*h` of the i-th sample. */
  function Node(a: real, h: real, i: int): real
  {
    a + (i as real) * h
  }

  // ---------------------------------------------------------------------
  // The two composite rules
  // ---------------------------------------------------------------------

  /** `f(a + h) + ... + f(a + (m-1)h)`. */
  function InteriorSum(f: Integrand, a: real, h: real, m: nat): real
  {
    if m <= 1 then 0.0 else InteriorSum(f, a, h, m - 1) + f(Node(a, h, m - 1))
  }

  /** Simpson's weight of an interior sample: 4 at odd, 2 at even indices. */
  function Weight(i: int): real
  {
    if i % 2 == 1 then 4.0 else 2.0
  }

  /** `Weight(1)*f(a + h) + ... + Weight(m-1)*f(a + (m-1)h)`. */
  function WeightedSum(f: Integrand, a: real, h: real, m: nat): real
  {
    if m <= 1 then 0.0 else WeightedSum(f, a, h, m - 1) + Weight(m - 1) * f(Node(a, h, m - 1))
  }

  /** The composite trapezoid estimate with `n` segments. */
  function TrapezoidValue(f: Integrand, a: real, b: real, n: nat): real
    requires n >= 1
  {
    var h := (b - a) / (n as real);
    (0.5 * (f(a) + f(b)) + InteriorSum(f, a, h, n)) * h
  }

  /** The composite Simpson estimate with `n` segments. */
  function SimpsonValue(f: Integrand, a: real, b: real, n: nat): real
    requires n >= 1
  {
    var h := (b - a) / (n as real);
    (f(a) + f(b) + WeightedSum(f, a, h, n)) * (h / 3.0)
  }

  function RuleValue(rule: Rule, f: Integrand, a: real, b: real, n: nat): real
    requires n >= 1
  {
    match rule
    case Trapezoid => TrapezoidValue(f, a, b, n)
    case Simpson => SimpsonValue(f, a, b, n)
  }

  /** One pass of `_trapezoid_rule`'s inner loop. */
  method TrapezoidPass(f: Integrand, a: real, b: real, n: nat) returns (integral: real)
    requires n >= 1
    ensures integral == TrapezoidValue(f, a, b, n)
  {
    var h := (b - a) / (n as real);
    integral := 0.5 * (f(a) + f(b));
    integral := AddInterior(f, a, h, n, integral);
    integral := integral * h;
  }

  /** The loop of `_trapezoid_rule` over the interior samples, adding each
      to `init`. */
  method AddInterior(f: Integrand, a: real, h: real, n: nat, init: real) returns (integral: real)
    requires n >= 1
    ensures integral == init + InteriorSum(f, a, h, n)
  {
    integral := init;
    var i := 1;
    while i < n
      invariant 1 <= i <= n
      invariant integral == init + InteriorSum(f, a, h, i)
    {
      var x := a + (i as real) * h;
      assert x == Node(a, h, i);
      integral := integral + f(x);
      i := i + 1;
    }
  }

  /** One pass of `_simpson_rule`'s inner loop. */
  method SimpsonPass(f: Integrand, a: real, b: real, n: nat) returns (integral: real)
    requires n >= 1
    ensures integral == SimpsonValue(f, a, b, n)
  {
    var h := (b - a) / (n as real);
    integral := f(a) + f(b);
    integral := AddWeighted(f, a, h, n, integral);
    integral := integral * (h / 3.0);
  }

  /** The loop of `_simpson_rule` over the interior samples, adding each
      with weight 4 or 2 to `init`. */
  method AddWeighted(f: Integrand, a: real, h: real, n: nat, init: real) returns (integral: real)
    requires n >= 1
    ensures integral == init + WeightedSum(f, a, h, n)
  {
    integral := init;
    var i := 1;
    while i < n
      invariant 1 <= i <= n
      invariant integral == init + WeightedSum(f, a, h, i)
    {
      var x := a + (i as real) * h;
      assert x == Node(a, h, i);
      if i % 2 == 1 {
        integral := integral + 4.0 * f(x);
      } else {
        integral := integral + 2.0 * f(x);
      }
      i := i + 1;
    }
  }

  method RulePass(rule: Rule, f: Integrand, a: real, b: real, n: nat) returns (integral: real)
    requires n >= 1
    ensures integral == RuleValue(rule, f, a, b, n)
  {
    match rule
    case Trapezoid =>
      integral := TrapezoidPass(f, a, b, n);
    case Simpson =>
      integral := SimpsonPass(f, a, b, n);
  }

  // ---------------------------------------------------------------------
  // Refinement
  // ---------------------------------------------------------------------

  /** The refinement loop from pass `it` on, with `n` segments and the
      previous estimate `prev`: it stops at the first pass after the first
      whose estimate is within `precision` of the previous one, or after
      `maxIter` passes with `n` doubled once more. */
  function Refine(rule: Rule, f: Integrand, a: real, b: real, precision: real, maxIter: nat,
                  n: nat, prev: real, it: nat): Estimate
    requires n >= 1 && it < maxIter
    decreases maxIter - it
  {
    var integral := RuleValue(rule, f, a, b, n);
    if it > 0 && Abs(integral - prev) < precision then Estimate(integral, n, it, it < maxIter)
    else if it + 1 < maxIter then Refine(rule, f, a, b, precision, maxIter, 2 * n, integral, it + 1)
    else Estimate(integral, 2 * n, it + 1, it + 1 < maxIter)
  }

  /** The whole loop, from two segments. */
  function Refined(rule: Rule, f: Integrand, a: real, b: real, precision: real, maxIter: nat): Estimate
    requires maxIter >= 1
  {
    Refine(rule, f, a, b, precision, maxIter, 2, 0.0, 0)
  }

  /** `_trapezoid_rule` and `_simpson_rule`: the shared refinement loop. */
  method Refinement(rule: Rule, f: Integrand, a: real, b: real, precision: real, maxIter: nat)
    returns (e: Estimate)
    requires maxIter >= 1
    ensures e == Refined(rule, f, a, b, precision, maxIter)
  {
    var n: nat := 2;
    var prev := 0.0;
    var iterations: nat := 0;
    var integral := 0.0;
    while iterations < maxIter
      invariant iterations <= maxIter && n >= 1
      invariant iterations < maxIter
                ==> Refine(rule, f, a, b, precision, maxIter, n, prev, iterations) == Refined(rule, f, a, b, precision, maxIter)
      invariant iterations == maxIter
                ==> Estimate(integral, n, iterations, false) == Refined(rule, f, a, b, precision, maxIter)
    {
      integral := RulePass(rule, f, a, b, n);
      if iterations > 0 && Abs(integral - prev) < precision {
        break;
      }
      prev := integral;
      n := n * 2;
      iterations := iterations + 1;
    }
    e := Estimate(integral, n, iterations, iterations < maxIter);
  }

  /** Pass `k >= 1` did not stop the loop: its estimate (with `2*2^k`
      segments) is not within `precision` of the previous pass's. */
  predicate Unsettled(rule: Rule, f: Integrand, a: real, b: real, precision: real, k: nat)
  {
    Abs(RuleValue(rule, f, a, b, 2 * Pow2(k)) - RuleValue(rule, f, a, b, Pow2(k))) >= precision
  }

  /** What the loop reports when it is entered at pass `it`: between `it`
      and `maxIter` passes (at least one), `2*2^iterations` segments,
      `converged` exactly when it stopped early, with the last estimate
      within `precision` of the one before, the last pass's value when it
      did not, and no pass from `it` on before the last one settled. */
  ghost predicate Reported(rule: Rule, f: Integrand, a: real, b: real, precision: real,
                          maxIter: nat, it: nat, e: Estimate)
  {
    && it <= e.iterations <= maxIter && 1 <= e.iterations
    && e.segments == 2 * Pow2(e.iterations)
    && (e.converged <==> e.iterations < maxIter)
    && (e.converged ==> e.value == RuleValue(rule, f, a, b, 2 * Pow2(e.iterations))
                        && !Unsettled(rule, f, a, b, precision, e.iterations))
    && (!e.converged ==> e.value == RuleValue(rule, f, a, b, Pow2(maxIter)))
    && forall k :: it <= k < e.iterations && 1 <= k ==> Unsettled(rule, f, a, b, precision, k)
  }

  /** An outcome from pass `it + 1` on is one from pass `it` on when pass
      `it` did not settle. */
  lemma OutcomeEarlier(rule: Rule, f: Integrand, a: real, b: real, precision: real,
                       maxIter: nat, it: nat, e: Estimate)
    requires Reported(rule, f, a, b, precision, maxIter, it + 1, e)
    requires it > 0 ==> Unsettled(rule, f, a, b, precision, it)
    ensures Reported(rule, f, a, b, precision, maxIter, it, e)
  {
  }

  /** The outcome of the loop from pass `it` on, given that pass `it` uses
      `2*2^it` segments and `prev` is the previous pass's estimate. */
  lemma {:induction false} RefineOutcome(rule: Rule, f: Integrand, a: real, b: real, precision: real,
                                         maxIter: nat, prev: real, it: nat)
    requires it < maxIter
    requires it > 0 ==> prev == RuleValue(rule, f, a, b, Pow2(it))
    ensures Reported(rule, f, a, b, precision, maxIter, it, Refine(rule, f, a, b, precision, maxIter, 2 * Pow2(it), prev, it))
    decreases maxIter - it
  {
    var n := 2 * Pow2(it);
    var integral := RuleValue(rule, f, a, b, n);
    if it > 0 && Abs(integral - prev) < precision {
      RefineSettles(rule, f, a, b, precision, maxIter, prev, it);
    } else if it + 1 < maxIter {
      assert Pow2(it + 1) == n;
      RefineOutcome(rule, f, a, b, precision, maxIter, integral, it + 1);
      var e := Refine(rule, f, a, b, precision, maxIter, 2 * Pow2(it + 1), integral, it + 1);
      assert Refine(rule, f, a, b, precision, maxIter, n, prev, it) == e;
      OutcomeEarlier(rule, f, a, b, precision, maxIter, it, e);
    } else {
      RefineExhausted(rule, f, a, b, precision, maxIter, prev, it);
    }
  }

  /** The loop stops at pass `it` when that pass settles. */
  lemma RefineSettles(rule: Rule, f: Integrand, a: real, b: real, precision: real,
                      maxIter: nat, prev: real, it: nat)
    requires 0 < it < maxIter
    requires prev == RuleValue(rule, f, a, b, Pow2(it))
    requires Abs(RuleValue(rule, f, a, b, 2 * Pow2(it)) - prev) < precision
    ensures Reported(rule, f, a, b, precision, maxIter, it, Refine(rule, f, a, b, precision, maxIter, 2 * Pow2(it), prev, it))
  {
  }

  /** The loop gives up after pass `it` when it is the last one allowed and
      did not settle. */
  lemma RefineExhausted(rule: Rule, f: Integrand, a: real, b: real, precision: real,
                        maxIter: nat, prev: real, it: nat)
    requires it + 1 == maxIter
    requires it > 0 ==> prev == RuleValue(rule, f, a, b, Pow2(it))
    requires !(it > 0 && Abs(RuleValue(rule, f, a, b, 2 * Pow2(it)) - prev) < precision)
    ensures Reported(rule, f, a, b, precision, maxIter, it, Refine(rule, f, a, b, precision, maxIter, 2 * Pow2(it), prev, it))
  {
    assert Pow2(it + 1) == 2 * Pow2(it);
  }

  /** `_trapezoid_rule`/`_simpson_rule` as promised: between 1 and
      `max_iterations` passes, `segments == 2*2^iterations`, `converged`
      exactly when the loop stopped early, the returned estimate and the
      previous one within `precision` when it did, and no earlier pass
      within it. Without convergence the returned value is the last pass's,
      which used half the reported segments. */
  lemma RefinedOutcome(rule: Rule, f: Integrand, a: real, b: real, precision: real, maxIter: nat)
    requires maxIter >= 1
    ensures var e := Refined(rule, f, a, b, precision, maxIter);
      && 1 <= e.iterations <= maxIter
      && e.segments == 2 * Pow2(e.iterations)
      && (e.converged <==> e.iterations < maxIter)
      && (e.converged ==> e.value == RuleValue(rule, f, a, b, 2 * Pow2(e.iterations))
                          && !Unsettled(rule, f, a, b, precision, e.iterations))
      && (!e.converged ==> e.value == RuleValue(rule, f, a, b, Pow2(maxIter)))
      && forall k :: 1 <= k < e.iterations ==> Unsettled(rule, f, a, b, precision, k)
  {
    RefineOutcome(rule, f, a, b, precision, maxIter, 0.0, 0);
  }

  // ---------------------------------------------------------------------
  // Dispatch
  // ---------------------------------------------------------------------

  /** `validate_input`. */
  function ValidateInput(s: Integrator): (r: Result<bool>)
    ensures r.Ok? <==> s.func.Callable?
    ensures r.Ok? ==> r.value
    ensures r.Err? ==> r.message == NotCallableMessage
  {
    if s.func.NotCallable? then Err(NotCallableMessage) else Ok(true)
  }

  /** The one-dimensional result for `[a, b]`: the refined trapezoid or
      Simpson estimate, or for any other method name the Monte Carlo
      estimate, which this model takes from the caller as `monteCarlo`. */
  function SingleResult(s: Integrator, a: real, b: real, monteCarlo: (real, real) -> Estimate): Single
    requires s.func.Callable? && s.maxIterations >= 1
  {
    if s.scheme == "trapezoid" then
      Single(Refined(Trapezoid, s.func.fn, a, b, s.precision, s.maxIterations), "Trapezoidal Rule")
    else if s.scheme == "simpson" then
      Single(Refined(Simpson, s.func.fn, a, b, s.precision, s.maxIterations), "Simpson's Rule")
    else Single(monteCarlo(a, b), "Monte Carlo")
  }

  /** The display name follows the method string, with every name other
      than "trapezoid" and "simpson" falling through to Monte Carlo; the two
      quadrature rules report the bookkeeping of the refinement loop. */
  lemma SingleDispatch(s: Integrator, a: real, b: real, monteCarlo: (real, real) -> Estimate)
    requires s.func.Callable? && s.maxIterations >= 1
    ensures var r := SingleResult(s, a, b, monteCarlo);
      && (r.name == "Trapezoidal Rule" <==> s.scheme == "trapezoid")
      && (r.name == "Simpson's Rule" <==> s.scheme == "simpson")
      && (r.name == "Monte Carlo" <==> s.scheme != "trapezoid" && s.scheme != "simpson")
      && (r.name == "Monte Carlo" ==> r.estimate == monteCarlo(a, b))
      && (r.name != "Monte Carlo" ==>
            && 1 <= r.estimate.iterations <= s.maxIterations
            && r.estimate.segments == 2 * Pow2(r.estimate.iterations)
            && (r.estimate.converged <==> r.estimate.iterations < s.maxIterations))
  {
    RefinedOutcome(Trapezoid, s.func.fn, a, b, s.precision, s.maxIterations);
    RefinedOutcome(Simpson, s.func.fn, a, b, s.precision, s.maxIterations);
  }

  /** `_single_integral`. */
  method SingleIntegral(s: Integrator, a: real, b: real, monteCarlo: (real, real) -> Estimate) returns (r: Single)
    requires s.func.Callable? && s.maxIterations >= 1
    ensures r == SingleResult(s, a, b, monteCarlo)
  {
    if s.scheme == "trapezoid" {
      var e := Refinement(Trapezoid, s.func.fn, a, b, s.precision, s.maxIterations);
      r := Single(e, "Trapezoidal Rule");
    } else if s.scheme == "simpson" {
      var e := Refinement(Simpson, s.func.fn, a, b, s.precision, s.maxIterations);
      r := Single(e, "Simpson's Rule");
    } else {
      r := Single(monteCarlo(a, b), "Monte Carlo");
    }
  }

  /** Every positional bound is a list or tuple of exactly two numbers. */
  predicate PairedBounds(bounds: seq<Arg>)
  {
    forall i :: 0 <= i < |bounds| ==> bounds[i].Sequence? && |bounds[i].items| == 2
  }

  /** The bound pairs, in input order. */
  function Pairs(bounds: seq<Arg>): (r: seq<(real, real)>)
    requires PairedBounds(bounds)
    ensures |r| == |bounds|
    ensures forall i :: 0 <= i < |r| ==> r[i] == (bounds[i].items[0], bounds[i].items[1])
  {
    seq(|bounds|, i requires 0 <= i < |bounds| => (bounds[i].items[0], bounds[i].items[1]))
  }

  /** The product of the one-dimensional values over `pairs`, left to
      right. */
  function Product(s: Integrator, pairs: seq<(real, real)>, monteCarlo: (real, real) -> Estimate): real
    requires s.func.Callable? && s.maxIterations >= 1
  {
    if |pairs| == 0 then 1.0
    else Product(s, pairs[..|pairs| - 1], monteCarlo)
         * SingleResult(s, pairs[|pairs| - 1].0, pairs[|pairs| - 1].1, monteCarlo).estimate.value
  }

  /** One more well-formed bound extends the pairs by its two ends. */
  lemma PairsExtend(bounds: seq<Arg>, k: nat)
    requires k < |bounds| && PairedBounds(bounds[..k])
    requires bounds[k].Sequence? && |bounds[k].items| == 2
    ensures PairedBounds(bounds[..k + 1])
    ensures Pairs(bounds[..k + 1]) == Pairs(bounds[..k]) + [(bounds[k].items[0], bounds[k].items[1])]
  {
    assert bounds[..k + 1] == bounds[..k] + [bounds[k]];
  }

  /** A malformed bound anywhere makes the bounds unpaired. */
  lemma Unpaired(bounds: seq<Arg>, k: nat)
    requires k < |bounds| && !(bounds[k].Sequence? && |bounds[k].items| == 2)
    ensures !PairedBounds(bounds)
  {
  }

  /** One more pair multiplies the product by its one-dimensional value. */
  lemma ProductExtend(s: Integrator, pairs: seq<(real, real)>, p: (real, real), monteCarlo: (real, real) -> Estimate,
                      prefix: real, value: real)
    requires s.func.Callable? && s.maxIterations >= 1
    requires prefix == Product(s, pairs, monteCarlo) && value == SingleResult(s, p.0, p.1, monteCarlo).estimate.value
    ensures Product(s, pairs + [p], monteCarlo) == prefix * value
  {
    assert (pairs + [p])[..|pairs|] == pairs;
  }

  /** `_multi_integral`: the first bound that is not a two-element list or
      tuple aborts; otherwise the value is the product of the single
      integrals over the pairs. */
  method MultiIntegral(s: Integrator, bounds: seq<Arg>, monteCarlo: (real, real) -> Estimate)
    returns (r: Result<Outcome>)
    requires s.func.Callable? && s.maxIterations >= 1
    ensures r.Err? <==> !PairedBounds(bounds)
    ensures r.Err? ==> r.message == BadBoundsMessage
    ensures r.Ok? ==> r.value == Repeated(Product(s, Pairs(bounds), monteCarlo),
                                          "Repeated 1D " + s.scheme, Pairs(bounds))
  {
    var paired, result, current := MultiProduct(s, bounds, monteCarlo);
    if !paired {
      return Err(BadBoundsMessage);
    }
    r := Ok(Repeated(result, "Repeated 1D " + s.scheme, current));
  }

  /** The loop of `_multi_integral`: the running product over the bounds
      read so far, stopping at the first malformed bound. */
  method MultiProduct(s: Integrator, bounds: seq<Arg>, monteCarlo: (real, real) -> Estimate)
    returns (paired: bool, result: real, current: seq<(real, real)>)
    requires s.func.Callable? && s.maxIterations >= 1
    ensures paired <==> PairedBounds(bounds)
    ensures paired ==> current == Pairs(bounds) && result == Product(s, current, monteCarlo)
  {
    result := 1.0;
    current := [];
    var k := 0;
    while k < |bounds|
      invariant 0 <= k <= |bounds| && PairedBounds(bounds[..k])
      invariant current == Pairs(bounds[..k])
      invariant result == Product(s, current, monteCarlo)
    {
      var bound := bounds[k];
      if !bound.Sequence? || |bound.items| != 2 {
        Unpaired(bounds, k);
        return false, result, current;
      }
      var a, b := bound.items[0], bound.items[1];
      PairsExtend(bounds, k);
      var integral := SingleIntegral(s, a, b, monteCarlo);
      ProductExtend(s, current, (a, b), monteCarlo, result, integral.estimate.value);
      current, result := current + [(a, b)], result * integral.estimate.value;
      k := k + 1;
    }
    assert bounds[..k] == bounds;
    paired := true;
  }

  /** `solve(a, b, *args)`: without extra arguments the one-dimensional
      result for `[a, b]`; with them, `a` and `b` are themselves the first
      two bound pairs of the repeated product. */
  method Solve(s: Integrator, a: Arg, b: Arg, args: seq<Arg>, monteCarlo: (real, real) -> Estimate)
    returns (r: Result<Outcome>)
    requires s.maxIterations >= 1
    requires |args| == 0 ==> a.Number? && b.Number?
    ensures !s.func.Callable? ==> r == Err(NotCallableMessage)
    ensures s.func.Callable? && |args| == 0
            ==> r == Ok(OneDimension(SingleResult(s, a.x, b.x, monteCarlo)))
    ensures s.func.Callable? && |args| > 0
            ==> (r.Err? <==> !PairedBounds([a, b] + args))
                && (r.Err? ==> r.message == BadBoundsMessage)
                && (r.Ok? ==> r.value == Repeated(Product(s, Pairs([a, b] + args), monteCarlo),
                                                  "Repeated 1D " + s.scheme, Pairs([a, b] + args)))
    ensures s.func.Callable? && |args| > 0 && a.Number? ==> r == Err(BadBoundsMessage)
  {
    var check := ValidateInput(s);
    if check.Err? {
      return Err(check.message);
    }
    if |args| == 0 {
      var single := SingleIntegral(s, a.x, b.x, monteCarlo);
      r := Ok(OneDimension(single));
    } else {
      if a.Number? {
        assert !([a, b] + args)[0].Sequence?;
      }
      r := MultiIntegral(s, [a, b] + args, monteCarlo);
    }
  }

  // ---------------------------------------------------------------------
  // Exactness
  // ---------------------------------------------------------------------

  /** Adding the next affine sample to the closed form of the interior sum. */
  lemma AffineSumStep(p: real, q: real, a: real, h: real, k: real, j: real, sum: real, fx: real)
    requires j == k - 1.0 && fx == p * (a + j * h) + q
    requires 2.0 * sum == 2.0 * (j - 1.0) * (p * a + q) + p * h * (j - 1.0) * j
    ensures 2.0 * (sum + fx) == 2.0 * (k - 1.0) * (p * a + q) + p * h * (k - 1.0) * k
  {
  }

  /** The interior samples of an affine integrand sum to a closed form; `k`
      is the sample count `m` as a real. */
  lemma {:induction false} InteriorSumAffine(f: Integrand, p: real, q: real, a: real, h: real, m: nat, k: real)
    requires m >= 1 && k == m as real && forall x :: f(x) == p * x + q
    ensures 2.0 * InteriorSum(f, a, h, m) == 2.0 * (k - 1.0) * (p * a + q) + p * h * (k - 1.0) * k
  {
    if m > 1 {
      InteriorSumAffine(f, p, q, a, h, m - 1, k - 1.0);
      AffineSumStep(p, q, a, h, k, (m - 1) as real, InteriorSum(f, a, h, m - 1), f(Node(a, h, m - 1)));
    }
  }

  /** The trapezoid formula applied to the closed form. */
  lemma TrapezoidAlgebra(p: real, q: real, a: real, b: real, h: real, n: real, sum: real)
    requires h * n == b - a
    requires 2.0 * sum == 2.0 * (n - 1.0) * (p * a + q) + p * h * (n - 1.0) * n
    ensures (0.5 * ((p * a + q) + (p * b + q)) + sum) * h == p * (b * b - a * a) / 2.0 + q * (b - a)
  {
    assert b == a + h * n;
    assert (0.5 * ((p * a + q) + (p * b + q)) + sum) * h
           == n * h * (p * a + q) + p * (h * n) * (h * n) / 2.0;
  }

  /** The composite trapezoid rule integrates an affine function exactly,
      for every segment count. */
  lemma TrapezoidExact(f: Integrand, p: real, q: real, a: real, b: real, n: nat)
    requires n >= 1 && forall x :: f(x) == p * x + q
    ensures TrapezoidValue(f, a, b, n) == p * (b * b - a * a) / 2.0 + q * (b - a)
  {
    var h := (b - a) / (n as real);
    DivCancel(b - a, n as real);
    InteriorSumAffine(f, p, q, a, h, n, n as real);
    TrapezoidAlgebra(p, q, a, b, h, n as real, InteriorSum(f, a, h, n));
  }

  /** Simpson's samples grouped into panels `f(x0) + 4 f(x1) + f(x2)`. */
  function Panels(f: Integrand, a: real, h: real, k: nat): real
  {
    if k == 0 then 0.0
    else Panels(f, a, h, k - 1)
         + (f(Node(a, h, 2 * k - 2)) + 4.0 * f(Node(a, h, 2 * k - 1)) + f(Node(a, h, 2 * k)))
  }

  /** The Simpson weights of one panel `[u, u + 2h]`. */
  function Panel(f: Integrand, u: real, h: real): real
  {
    f(u) + 4.0 * f(u + h) + f(u + 2.0 * h)
  }

  /** The weighted sum with its end samples regroups into panels. */
  lemma {:induction false} WeightedAsPanels(f: Integrand, a: real, h: real, k: nat)
    requires k >= 1
    ensures f(Node(a, h, 0)) + WeightedSum(f, a, h, 2 * k) + f(Node(a, h, 2 * k)) == Panels(f, a, h, k)
  {
    if k == 1 {
      assert WeightedSum(f, a, h, 2) == 4.0 * f(Node(a, h, 1));
    } else {
      WeightedAsPanels(f, a, h, k - 1);
      assert Weight(2 * k - 2) == 2.0 && Weight(2 * k - 1) == 4.0;
      assert WeightedSum(f, a, h, 2 * k)
             == WeightedSum(f, a, h, 2 * k - 2) + 2.0 * f(Node(a, h, 2 * k - 2)) + 4.0 * f(Node(a, h, 2 * k - 1));
    }
  }

  /** The quadratic `P x^2 + Q x + R`. */
  function Quadratic(pc: real, qc: real, rc: real, x: real): real
  {
    pc * x * x + qc * x + rc
  }

  /** An antiderivative of `Quadratic(pc, qc, rc, .)`. */
  function Cubic(pc: real, qc: real, rc: real, x: real): real
  {
    pc * x * x * x / 3.0 + qc * x * x / 2.0 + rc * x
  }

  /** One Simpson panel integrates a quadratic exactly. */
  lemma PanelExact(pc: real, qc: real, rc: real, u: real, h: real)
    ensures (h / 3.0) * (Quadratic(pc, qc, rc, u) + 4.0 * Quadratic(pc, qc, rc, u + h)
                         + Quadratic(pc, qc, rc, u + 2.0 * h))
            == Cubic(pc, qc, rc, u + 2.0 * h) - Cubic(pc, qc, rc, u)
  {
  }

  /** Consecutive sample abscissas are `h` apart. */
  lemma NodeNext(a: real, h: real, i: int)
    ensures Node(a, h, i + 1) == Node(a, h, i) + h
  {
  }

  /** `F` integrates `f` exactly over every Simpson panel of width `2h`. */
  ghost predicate PanelsIntegrate(f: Integrand, F: real -> real, h: real)
  {
    forall u {:trigger Panel(f, u, h)} :: (h / 3.0) * Panel(f, u, h) == F(u + 2.0 * h) - F(u)
  }

  /** Adding one exact panel to a telescoped sum. */
  lemma TelescopeStep(h: real, sum: real, panel: real, total: real, c0: real, cu: real, c2: real)
    requires total == sum + panel
    requires (h / 3.0) * sum == cu - c0
    requires (h / 3.0) * panel == c2 - cu
    ensures (h / 3.0) * total == c2 - c0
  {
    assert (h / 3.0) * total == (h / 3.0) * sum + (h / 3.0) * panel;
  }

  /** The k-th panel starts at node 2(k - 1) and ends at node 2k. */
  lemma PanelsNext(f: Integrand, a: real, h: real, k: nat)
    requires k > 0
    ensures Panels(f, a, h, k) == Panels(f, a, h, k - 1) + Panel(f, Node(a, h, 2 * (k - 1)), h)
    ensures Node(a, h, 2 * k) == Node(a, h, 2 * (k - 1)) + 2.0 * h
  {
    assert 2 * (k - 1) == 2 * k - 2;
    NodeNext(a, h, 2 * k - 2);
    NodeNext(a, h, 2 * k - 1);
  }

  /** One exact panel from `u` to `e = u + 2h`. */
  lemma PanelAt(f: Integrand, F: real -> real, u: real, h: real, e: real)
    requires PanelsIntegrate(f, F, h) && e == u + 2.0 * h
    ensures (h / 3.0) * Panel(f, u, h) == F(e) - F(u)
  {
  }

  /** When every panel is exact, the panels telescope to `F`'s increment. */
  lemma {:induction false} PanelsTelescope(f: Integrand, F: real -> real, a: real, h: real, k: nat)
    requires PanelsIntegrate(f, F, h)
    ensures (h / 3.0) * Panels(f, a, h, k) == F(Node(a, h, 2 * k)) - F(a)
  {
    if k > 0 {
      PanelsTelescope(f, F, a, h, k - 1);
      PanelsTelescopeStep(f, F, a, h, k);
    } else {
      assert Node(a, h, 0) == a;
    }
  }

  /** The induction step of `PanelsTelescope`: one more exact panel. */
  lemma PanelsTelescopeStep(f: Integrand, F: real -> real, a: real, h: real, k: nat)
    requires k > 0 && PanelsIntegrate(f, F, h)
    requires (h / 3.0) * Panels(f, a, h, k - 1) == F(Node(a, h, 2 * (k - 1))) - F(a)
    ensures (h / 3.0) * Panels(f, a, h, k) == F(Node(a, h, 2 * k)) - F(a)
  {
    var u, e := Node(a, h, 2 * (k - 1)), Node(a, h, 2 * k);
    PanelsNext(f, a, h, k);
    PanelAt(f, F, u, h, e);
    TelescopeStep(h, Panels(f, a, h, k - 1), Panel(f, u, h), Panels(f, a, h, k), F(a), F(u), F(e));
  }

  /** Simpson panels of a quadratic are exact for its antiderivative. */
  lemma QuadraticPanels(f: Integrand, pc: real, qc: real, rc: real, h: real)
    requires forall x :: f(x) == Quadratic(pc, qc, rc, x)
    ensures PanelsIntegrate(f, x => Cubic(pc, qc, rc, x), h)
  {
    forall u
      ensures (h / 3.0) * Panel(f, u, h) == Cubic(pc, qc, rc, u + 2.0 * h) - Cubic(pc, qc, rc, u)
    {
      assert Panel(f, u, h) == Quadratic(pc, qc, rc, u) + 4.0 * Quadratic(pc, qc, rc, u + h)
                               + Quadratic(pc, qc, rc, u + 2.0 * h);
      PanelExact(pc, qc, rc, u, h);
    }
  }

  /** When every panel of width `2h` is exact for `F`, so is the composite
      Simpson rule with `n` segments of width `h`. */
  lemma SimpsonTelescopes(f: Integrand, F: real -> real, a: real, b: real, n: nat)
    requires n >= 2 && n % 2 == 0 && PanelsIntegrate(f, F, (b - a) / (n as real))
    ensures SimpsonValue(f, a, b, n) == F(b) - F(a)
  {
    var h := (b - a) / (n as real);
    var k := n / 2;
    assert 2 * k == n;
    EndNode(a, b, n);
    assert Node(a, h, 0) == a;
    WeightedAsPanels(f, a, h, k);
    PanelsTelescope(f, F, a, h, k);
  }

  /** The n-th node of n segments of `[a, b]` is `b`. */
  lemma EndNode(a: real, b: real, n: nat)
    requires n >= 1
    ensures Node(a, (b - a) / (n as real), n) == b
  {
    DivCancel(b - a, n as real);
  }

  /** The composite Simpson rule integrates a quadratic exactly, for every
      even segment count. */
  lemma SimpsonExact(f: Integrand, pc: real, qc: real, rc: real, a: real, b: real, n: nat)
    requires n >= 2 && n % 2 == 0 && forall x :: f(x) == Quadratic(pc, qc, rc, x)
    ensures SimpsonValue(f, a, b, n) == Cubic(pc, qc, rc, b) - Cubic(pc, qc, rc, a)
  {
    var F := x => Cubic(pc, qc, rc, x);
    QuadraticPanels(f, pc, qc, rc, (b - a) / (n as real));
    SimpsonTelescopes(f, F, a, b, n);
    assert F(b) == Cubic(pc, qc, rc, b) && F(a) == Cubic(pc, qc, rc, a);
  }

  /** On an affine integrand the refined trapezoid rule stops at the second
      pass with the exact integral (when a second pass is allowed and the
      tolerance is positive). */
  lemma TrapezoidConvergesOnAffine(f: Integrand, p: real, q: real, a: real, b: real,
                                   precision: real, maxIter: nat)
    requires forall x :: f(x) == p * x + q
    requires precision > 0.0 && maxIter >= 2
    ensures Refined(Trapezoid, f, a, b, precision, maxIter)
            == Estimate(p * (b * b - a * a) / 2.0 + q * (b - a), 4, 1, true)
  {
    var v := p * (b * b - a * a) / 2.0 + q * (b - a);
    TrapezoidExact(f, p, q, a, b, 2);
    TrapezoidExact(f, p, q, a, b, 4);
    assert RuleValue(Trapezoid, f, a, b, 2) == v && RuleValue(Trapezoid, f, a, b, 4) == v;
    assert Refine(Trapezoid, f, a, b, precision, maxIter, 4, v, 1) == Estimate(v, 4, 1, true);
  }

  /** On a quadratic integrand the refined Simpson rule stops at the second
      pass with the exact integral. */
  lemma SimpsonConvergesOnQuadratic(f: Integrand, pc: real, qc: real, rc: real, a: real, b: real,
                                    precision: real, maxIter: nat)
    requires forall x :: f(x) == Quadratic(pc, qc, rc, x)
    requires precision > 0.0 && maxIter >= 2
    ensures Refined(Simpson, f, a, b, precision, maxIter)
            == Estimate(Cubic(pc, qc, rc, b) - Cubic(pc, qc, rc, a), 4, 1, true)
  {
    var v := Cubic(pc, qc, rc, b) - Cubic(pc, qc, rc, a);
    SimpsonExact(f, pc, qc, rc, a, b, 2);
    SimpsonExact(f, pc, qc, rc, a, b, 4);
    assert RuleValue(Simpson, f, a, b, 2) == v && RuleValue(Simpson, f, a, b, 4) == v;
    assert Refine(Simpson, f, a, b, precision, maxIter, 4, v, 1) == Estimate(v, 4, 1, true);
  }

  /** `2x + 3` over `[0, 2]` with the default settings: 10, converged. */
  lemma LinearSample()
    ensures var s := Make(Callable(x => 2.0 * x + 3.0), "trapezoid");
      SingleResult(s, 0.0, 2.0, (lo, hi) => Estimate(0.0, 0, 0, false))
      == Single(Estimate(10.0, 4, 1, true), "Trapezoidal Rule")
  {
    TrapezoidConvergesOnAffine(x => 2.0 * x + 3.0, 2.0, 3.0, 0.0, 2.0, DefaultPrecision, DefaultMaxIterations);
  }

  /** `x^2 + 2x + 1` over `[0, 2]` with Simpson's rule: 26/3, converged. */
  lemma QuadraticSample()
    ensures var s := Make(Callable(x => x * x + 2.0 * x + 1.0), "simpson");
      SingleResult(s, 0.0, 2.0, (lo, hi) => Estimate(0.0, 0, 0, false))
      == Single(Estimate(26.0 / 3.0, 4, 1, true), "Simpson's Rule")
  {
    var f: Integrand := x => x * x + 2.0 * x + 1.0;
    assert forall x :: f(x) == Quadratic(1.0, 2.0, 1.0, x);
    SimpsonConvergesOnQuadratic(f, 1.0, 2.0, 1.0, 0.0, 2.0, DefaultPrecision, DefaultMaxIterations);
  }
}
