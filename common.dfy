/** Shared vocabulary of the solvers: the ValueError path, caller-supplied
    callables and the absolute value used by every convergence test. */
module Common {

  /** The outcome of a solver entry point: a value, or the message of the
      ValueError the solver raises. */
  datatype Result<T> = Ok(value: T) | Err(message: string)

  /** Python's `Optional`: `None` where a result field may be missing. */
  datatype Option<T> = None | Some(value: T)

  /** A configuration slot that should hold a callable; `NotCallable` stands
      for any other object a caller may pass (a string, say), which the
      `callable(...)` guards reject. */
  datatype Callee<F> = Callable(fn: F) | NotCallable

  function Abs(x: real): (r: real)
    ensures r >= 0.0
    ensures r == x || r == -x
  {
    if x < 0.0 then -x else x
  }

  /** Cancellation of a non-zero divisor. */
  lemma DivCancel(p: real, q: real)
    requires q != 0.0
    ensures (p / q) * q == p && q * (p / q) == p
  {
  }

  /** Cancellation of a non-zero factor. */
  lemma MulCancel(a: real, p: real, q: real)
    requires a != 0.0 && a * p == a * q
    ensures p == q
  {
    assert p == (a * p) / a;
    assert q == (a * q) / a;
  }
}
