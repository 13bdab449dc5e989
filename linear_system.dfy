/** Gaussian elimination with partial pivoting (LinearSystemSolver).

    The solver copies the caller's matrix and vector, eliminates column by
    column, stops as soon as a pivot is smaller than 1e-10 in magnitude, and
    otherwise back-substitutes.  Over exact arithmetic the solution it reports
    is the one and only solution of the original system. */
module LinearSystem {
  import opened Common

  /** `self.precision`: a pivot below this magnitude counts as zero. */
  const Tolerance: real := 0.0000000001

  const SingularMessage: string := "Matrix is singular or nearly singular"
  const SolvedMessage: string := "Solution found"

  /** The record returned by `solve`. */
  datatype Report = Report(solution: Option<seq<real>>, isSingular: bool, message: string)

  /** Square `n` by `n` matrix with a right-hand side of length `n`. */
  predicate IsSystem(m: seq<seq<real>>, v: seq<real>, n: nat)
  {
    |m| == n && |v| == n && forall i :: 0 <= i < n ==> |m[i]| == n
  }

  /** What `validate_input` accepts. */
  predicate IsSquareSystem(m: seq<seq<real>>, v: seq<real>)
  {
    |m| > 0 && IsSystem(m, v, |m|)
  }

  /** Index of the first row whose length differs from `n`, scanning from
      row `k` on; `|m|` when there is none. */
  function FirstBadRow(m: seq<seq<real>>, n: nat, k: nat): (r: nat)
    requires k <= |m|
    ensures k <= r <= |m|
    ensures forall i :: k <= i < r ==> |m[i]| == n
    ensures r < |m| ==> |m[r]| != n
    decreases |m| - k
  {
    if k == |m| then |m|
    else if |m[k]| != n then k
    else FirstBadRow(m, n, k + 1)
  }

  /** `validate_input`: empty matrix, then any row of the wrong length, then
      a vector of the wrong length; otherwise True. */
  function ValidateInput(m: seq<seq<real>>, v: seq<real>): (r: Result<bool>)
    ensures r.Ok? <==> IsSquareSystem(m, v)
    ensures r.Ok? ==> r.value
    ensures |m| == 0 ==> r == Err("Matrix cannot be empty")
    ensures |m| > 0 && (exists i :: 0 <= i < |m| && |m[i]| != |m|) ==> r == Err("Matrix must be square")
    ensures |m| > 0 && (forall i :: 0 <= i < |m| ==> |m[i]| == |m|) && |v| != |m|
            ==> r == Err("Vector dimension must match matrix size")
  {
    if |m| == 0 then Err("Matrix cannot be empty")
    else if FirstBadRow(m, |m|, 0) < |m| then Err("Matrix must be square")
    else if |v| != |m| then Err("Vector dimension must match matrix size")
    else Ok(true)
  }

  /** Sum of `a[k] * x[k]` for `lo <= k < hi`, accumulated left to right. */
  function DotRange(a: seq<real>, x: seq<real>, lo: nat, hi: nat): real
    requires lo <= hi <= |a| && hi <= |x|
    decreases hi - lo
  {
    if lo == hi then 0.0 else DotRange(a, x, lo, hi - 1) + a[hi - 1] * x[hi - 1]
  }

  function Dot(a: seq<real>, x: seq<real>): real
    requires |a| == |x|
  {
    DotRange(a, x, 0, |a|)
  }

  /** `x` solves the system `m · x = v`. */
  predicate Satisfies(m: seq<seq<real>>, v: seq<real>, x: seq<real>)
  {
    |v| == |m| &&
    forall i :: 0 <= i < |m| ==> |m[i]| == |x| && Dot(m[i], x) == v[i]
  }

  /** The solutions of length `n` of the system `m · x = v`. */
  ghost function Solutions(m: seq<seq<real>>, v: seq<real>, n: nat): iset<seq<real>>
  {
    iset x | |x| == n && Satisfies(m, v, x)
  }

  /** Entries left of the diagonal are zero in the first `cols` columns. */
  predicate ZeroBelowDiagonal(m: seq<seq<real>>, n: nat, cols: nat)
    requires forall i :: 0 <= i < |m| ==> |m[i]| == n
    requires cols <= n
  {
    forall i, k :: 0 <= k < cols && k < i < |m| ==> m[i][k] == 0.0
  }

  /** Row `a` minus `f` times row `p`, updating only the columns from `from`
      on, as the elimination loop does. */
  function RowOp(a: seq<real>, f: real, p: seq<real>, from: nat): (r: seq<real>)
    requires |p| == |a|
    ensures |r| == |a|
    ensures forall k :: 0 <= k < from && k < |a| ==> r[k] == a[k]
    ensures forall k :: from <= k < |a| ==> r[k] == a[k] - f * p[k]
  {
    seq(|a|, k requires 0 <= k < |a| => if k < from then a[k] else a[k] - f * p[k])
  }

  // ---------------------------------------------------------------------
  // Lemmas on dot products
  // ---------------------------------------------------------------------

  lemma {:induction false} DotRangeSplit(a: seq<real>, x: seq<real>, lo: nat, mid: nat, hi: nat)
    requires lo <= mid <= hi <= |a| && hi <= |x|
    ensures DotRange(a, x, lo, hi) == DotRange(a, x, lo, mid) + DotRange(a, x, mid, hi)
    decreases hi - mid
  {
    if mid < hi {
      DotRangeSplit(a, x, lo, mid, hi - 1);
    }
  }

  lemma {:induction false} DotRangeZero(a: seq<real>, x: seq<real>, lo: nat, hi: nat)
    requires lo <= hi <= |a| && hi <= |x|
    requires forall k :: lo <= k < hi ==> a[k] == 0.0
    ensures DotRange(a, x, lo, hi) == 0.0
    decreases hi - lo
  {
    if lo < hi {
      DotRangeZero(a, x, lo, hi - 1);
    }
  }

  /** The partial dot product only reads `x` inside its range. */
  lemma {:induction false} DotRangeFrame(a: seq<real>, x: seq<real>, y: seq<real>, lo: nat, hi: nat)
    requires lo <= hi <= |a| && hi <= |x| && hi <= |y|
    requires forall k :: lo <= k < hi ==> x[k] == y[k]
    ensures DotRange(a, x, lo, hi) == DotRange(a, y, lo, hi)
    decreases hi - lo
  {
    if lo < hi {
      DotRangeFrame(a, x, y, lo, hi - 1);
    }
  }

  /** A row operation is linear in the dot product, provided the pivot row
      is zero in the columns the operation skips. */
  lemma {:induction false} DotRowOp(a: seq<real>, f: real, p: seq<real>, from: nat, x: seq<real>, hi: nat)
    requires |p| == |a| == |x| && hi <= |a|
    requires forall k :: 0 <= k < from && k < |a| ==> p[k] == 0.0
    ensures DotRange(RowOp(a, f, p, from), x, 0, hi) == DotRange(a, x, 0, hi) - f * DotRange(p, x, 0, hi)
  {
    if hi > 0 {
      DotRowOp(a, f, p, from, x, hi - 1);
      var r := RowOp(a, f, p, from);
      var k := hi - 1;
      RowOpTerm(a, f, p, from, x, k);
      LinearStep(DotRange(r, x, 0, k), DotRange(a, x, 0, k), DotRange(p, x, 0, k),
                 r[k] * x[k], a[k] * x[k], p[k] * x[k], f);
    }
  }

  /** One product of the row operation's dot product. */
  lemma RowOpTerm(a: seq<real>, f: real, p: seq<real>, from: nat, x: seq<real>, k: nat)
    requires |p| == |a| == |x| && k < |a|
    requires k < from ==> p[k] == 0.0
    ensures RowOp(a, f, p, from)[k] * x[k] == a[k] * x[k] - f * (p[k] * x[k])
  {
    var r := RowOp(a, f, p, from);
    if k < from {
      assert r[k] == a[k];
    } else {
      assert r[k] == a[k] - f * p[k];
    }
  }

  /** Adding one more term keeps `dr = da - f * dp`. */
  lemma LinearStep(dr: real, da: real, dp: real, tr: real, ta: real, tp: real, f: real)
    requires dr == da - f * dp && tr == ta - f * tp
    ensures dr + tr == (da + ta) - f * (dp + tp)
  {
  }

  // ---------------------------------------------------------------------
  // Steps of the elimination and the lemmas that say they keep the solutions
  // ---------------------------------------------------------------------

  /** Exchanging two equations does not change the solutions. */
  lemma SwapKeepsSolutions(m: seq<seq<real>>, v: seq<real>, n: nat, i: nat, j: nat)
    requires IsSystem(m, v, n) && i < n && j < n
    ensures Solutions(m[i := m[j]][j := m[i]], v[i := v[j]][j := v[i]], n) == Solutions(m, v, n)
  {
    var m', v' := m[i := m[j]][j := m[i]], v[i := v[j]][j := v[i]];
    forall x | |x| == n
      ensures Satisfies(m', v', x) <==> Satisfies(m, v, x)
    {
      if Satisfies(m, v, x) {
        forall r | 0 <= r < n ensures |m'[r]| == |x| && Dot(m'[r], x) == v'[r] {
          if r == j { assert Dot(m[i], x) == v[i]; }
          else if r == i { assert Dot(m[j], x) == v[j]; }
        }
      }
      if Satisfies(m', v', x) {
        forall r | 0 <= r < n ensures |m[r]| == |x| && Dot(m[r], x) == v[r] {
          if r == j { assert Dot(m'[i], x) == v'[i]; }
          else if r == i { assert Dot(m'[j], x) == v'[j]; }
          else { assert Dot(m'[r], x) == v'[r]; }
        }
      }
    }
    assert Solutions(m', v', n) == Solutions(m, v, n);
  }

  /** Subtracting a multiple of the pivot equation from another one does not
      change the solutions. */
  lemma RowOpKeepsSolutions(m: seq<seq<real>>, v: seq<real>, n: nat, row: nat, col: nat, f: real)
    requires IsSystem(m, v, n) && col < row < n
    requires forall k :: 0 <= k < col ==> m[col][k] == 0.0
    ensures Solutions(m[row := RowOp(m[row], f, m[col], col)], v[row := v[row] - f * v[col]], n) == Solutions(m, v, n)
  {
    var m', v' := m[row := RowOp(m[row], f, m[col], col)], v[row := v[row] - f * v[col]];
    forall x | |x| == n
      ensures Satisfies(m', v', x) <==> Satisfies(m, v, x)
    {
      DotRowOp(m[row], f, m[col], col, x, n);
      assert Dot(m'[row], x) == Dot(m[row], x) - f * Dot(m[col], x);
      if Satisfies(m, v, x) {
        assert Dot(m[col], x) == v[col] && Dot(m[row], x) == v[row];
        forall r | 0 <= r < n ensures |m'[r]| == |x| && Dot(m'[r], x) == v'[r] {
          if r != row { assert Dot(m[r], x) == v[r]; }
        }
      }
      if Satisfies(m', v', x) {
        assert Dot(m'[col], x) == v'[col] && Dot(m'[row], x) == v'[row];
        forall r | 0 <= r < n ensures |m[r]| == |x| && Dot(m[r], x) == v[r] {
          if r != row { assert Dot(m'[r], x) == v'[r]; }
        }
      }
    }
    assert Solutions(m', v', n) == Solutions(m, v, n);
  }

  /** The pivot search: the first row at or below `col` whose entry in
      column `col` has the largest magnitude (a strict `>` keeps the first
      of equal candidates). */
  method FindPivot(m: seq<seq<real>>, n: nat, col: nat) returns (maxRow: nat)
    requires |m| == n && col < n
    requires forall i :: 0 <= i < n ==> |m[i]| == n
    ensures col <= maxRow < n
    ensures forall r :: col <= r < n ==> Abs(m[r][col]) <= Abs(m[maxRow][col])
    ensures forall r :: col <= r < maxRow ==> Abs(m[r][col]) < Abs(m[maxRow][col])
  {
    maxRow := col;
    var row := col + 1;
    while row < n
      invariant col < row <= n
      invariant col <= maxRow < row
      invariant forall r :: col <= r < row ==> Abs(m[r][col]) <= Abs(m[maxRow][col])
      invariant forall r :: col <= r < maxRow ==> Abs(m[r][col]) < Abs(m[maxRow][col])
    {
      if Abs(m[row][col]) > Abs(m[maxRow][col]) {
        maxRow := row;
      }
      row := row + 1;
    }
  }

  /** One row of the elimination: `vector[row] -= factor * vector[col]`
      and `matrix[row][c] -= factor * matrix[col][c]` for `c` in
      `col..n-1`. */
  method SubtractPivotRow(m: seq<seq<real>>, v: seq<real>, n: nat, row: nat, col: nat, factor: real)
    returns (m': seq<seq<real>>, v': seq<real>)
    requires IsSystem(m, v, n) && col < row < n
    ensures m' == m[row := RowOp(m[row], factor, m[col], col)]
    ensures v' == v[row := v[row] - factor * v[col]]
  {
    v' := v[row := v[row] - factor * v[col]];
    m' := m;
    var c := col;
    while c < n
      invariant col <= c <= n
      invariant |m'| == n && |m'[row]| == n
      invariant forall i :: 0 <= i < n && i != row ==> m'[i] == m[i]
      invariant forall k :: 0 <= k < n && (k < col || c <= k) ==> m'[row][k] == m[row][k]
      invariant forall k :: col <= k < c ==> m'[row][k] == m[row][k] - factor * m[col][k]
    {
      m' := m'[row := m'[row][c := m'[row][c] - factor * m'[col][c]]];
      c := c + 1;
    }
    assert m'[row] == RowOp(m[row], factor, m[col], col);
  }

  /** Eliminates column `col` below the pivot: every later row loses
      `factor` times the pivot row, columns `col..n-1`, and the matching
      right-hand side entry. */
  method EliminateBelow(m: seq<seq<real>>, v: seq<real>, n: nat, col: nat)
    returns (m': seq<seq<real>>, v': seq<real>)
    requires IsSystem(m, v, n) && col < n
    requires m[col][col] != 0.0
    requires ZeroBelowDiagonal(m, n, col)
    ensures IsSystem(m', v', n)
    ensures forall i :: 0 <= i <= col ==> m'[i] == m[i] && v'[i] == v[i]
    ensures forall i :: col < i < n ==> m'[i][col] == 0.0
    ensures ZeroBelowDiagonal(m', n, col + 1)
    ensures Solutions(m', v', n) == Solutions(m, v, n)
  {
    m', v' := m, v;
    var row := col + 1;
    while row < n
      invariant col < row <= n
      invariant IsSystem(m', v', n)
      invariant forall i :: 0 <= i <= col || row <= i < n ==> m'[i] == m[i] && v'[i] == v[i]
      invariant forall i :: col < i < row ==> m'[i][col] == 0.0
      invariant ZeroBelowDiagonal(m', n, col)
      invariant Solutions(m', v', n) == Solutions(m, v, n)
    {
      var factor := m'[row][col] / m'[col][col];
      ghost var before, vBefore := m', v';
      m', v' := SubtractPivotRow(m', v', n, row, col, factor);
      RowOpKeepsSolutions(before, vBefore, n, row, col, factor);
      assert m'[row][col] == before[row][col] - factor * before[col][col];
      DivCancel(before[row][col], before[col][col]);
      row := row + 1;
    }
    forall i, k | 0 <= k < col + 1 && k < i < n
      ensures m'[i][k] == 0.0
    {
      if k < col {
        assert ZeroBelowDiagonal(m', n, col);
      }
    }
  }

  /** The `sum_ax` accumulator: `a[c] * x[c]` summed for `c` in `lo..n-1`. */
  method SumAx(a: seq<real>, x: seq<real>, lo: nat, n: nat) returns (sumAx: real)
    requires lo <= n <= |a| && n <= |x|
    ensures sumAx == DotRange(a, x, lo, n)
  {
    sumAx := 0.0;
    var c := lo;
    while c < n
      invariant lo <= c <= n
      invariant sumAx == DotRange(a, x, lo, c)
    {
      sumAx := sumAx + a[c] * x[c];
      c := c + 1;
    }
  }

  /** Back substitution on an upper-triangular system with a non-zero
      diagonal, from the last row upwards. */
  method BackSubstitute(m: seq<seq<real>>, v: seq<real>, n: nat) returns (x: seq<real>)
    requires IsSystem(m, v, n)
    requires ZeroBelowDiagonal(m, n, n)
    requires forall k :: 0 <= k < n ==> m[k][k] != 0.0
    ensures |x| == n
    ensures Satisfies(m, v, x)
  {
    x := seq(n, _ => 0.0);
    var row := n;
    while row > 0
      invariant 0 <= row <= n && |x| == n
      invariant forall i :: row <= i < n ==> m[i][i] * x[i] + DotRange(m[i], x, i + 1, n) == v[i]
    {
      row := row - 1;
      var sumAx := SumAx(m[row], x, row + 1, n);
      ghost var old_x := x;
      x := x[row := (v[row] - sumAx) / m[row][row]];
      forall i | row <= i < n
        ensures m[i][i] * x[i] + DotRange(m[i], x, i + 1, n) == v[i]
      {
        DotRangeFrame(m[i], x, old_x, i + 1, n);
        if i == row {
          assert DotRange(m[i], x, i + 1, n) == sumAx;
          DivCancel(v[row] - sumAx, m[row][row]);
          assert m[i][i] * x[i] == v[row] - sumAx;
        } else {
          assert x[i] == old_x[i];
        }
      }
    }
    UpperTriangularSatisfies(m, v, n, x);
  }

  /** Conversely to RowFromDiagonal: if each equation holds from its
      diagonal on, the whole upper-triangular system holds. */
  lemma UpperTriangularSatisfies(m: seq<seq<real>>, v: seq<real>, n: nat, x: seq<real>)
    requires IsSystem(m, v, n) && ZeroBelowDiagonal(m, n, n) && |x| == n
    requires forall i :: 0 <= i < n ==> m[i][i] * x[i] + DotRange(m[i], x, i + 1, n) == v[i]
    ensures Satisfies(m, v, x)
  {
    forall i | 0 <= i < n
      ensures |m[i]| == |x| && Dot(m[i], x) == v[i]
    {
      assert forall k :: 0 <= k < i ==> m[i][k] == 0.0;
      DotRangeZero(m[i], x, 0, i);
      DotRangeSplit(m[i], x, 0, i, n);
      DotRangeSplit(m[i], x, i, i + 1, n);
      assert DotRange(m[i], x, i, i + 1) == m[i][i] * x[i];
      assert Dot(m[i], x) == DotRange(m[i], x, 0, n);
    }
  }

  /** An upper-triangular system with a non-zero diagonal has at most one
      solution: its entries agree from index `k` on. */
  lemma {:induction false} UpperTriangularAgree(m: seq<seq<real>>, v: seq<real>, n: nat, x: seq<real>, y: seq<real>, k: nat)
    requires IsSystem(m, v, n) && ZeroBelowDiagonal(m, n, n)
    requires forall i :: 0 <= i < n ==> m[i][i] != 0.0
    requires |x| == n && |y| == n && Satisfies(m, v, x) && Satisfies(m, v, y)
    requires k <= n
    ensures forall i :: k <= i < n ==> x[i] == y[i]
    decreases n - k
  {
    if k < n {
      UpperTriangularAgree(m, v, n, x, y, k + 1);
      DotRangeFrame(m[k], x, y, k + 1, n);
      RowFromDiagonal(m, v, n, x, k);
      RowFromDiagonal(m, v, n, y, k);
      assert DotRange(m[k], x, k + 1, n) == DotRange(m[k], y, k + 1, n);
      assert m[k][k] * x[k] + DotRange(m[k], x, k + 1, n) == v[k];
      assert m[k][k] * y[k] + DotRange(m[k], y, k + 1, n) == v[k];
      assert m[k][k] * x[k] == m[k][k] * y[k];
      MulCancel(m[k][k], x[k], y[k]);
    }
  }

  /** In an upper-triangular system, equation `k` only involves `x[k..]`. */
  lemma RowFromDiagonal(m: seq<seq<real>>, v: seq<real>, n: nat, x: seq<real>, k: nat)
    requires IsSystem(m, v, n) && ZeroBelowDiagonal(m, n, n)
    requires |x| == n && Satisfies(m, v, x) && k < n
    ensures m[k][k] * x[k] + DotRange(m[k], x, k + 1, n) == v[k]
  {
    DotRangeSplit(m[k], x, 0, k, n);
    DotRangeSplit(m[k], x, k, k + 1, n);
    DotRangeZero(m[k], x, 0, k);
    assert Dot(m[k], x) == v[k];
  }

  /** `solve`: validation, then elimination with partial pivoting on private
      copies, then back substitution.  A reported solution solves the
      original system and is its only solution. */
  method Solve(matrix: seq<seq<real>>, vector: seq<real>) returns (r: Result<Report>)
    ensures r.Err? <==> ValidateInput(matrix, vector).Err?
    ensures r.Err? ==> r.message == ValidateInput(matrix, vector).message
    ensures r.Ok? && r.value.isSingular ==> r.value == Report(None, true, SingularMessage)
    ensures r.Ok? && !r.value.isSingular ==>
              r.value.message == SolvedMessage && r.value.solution.Some? &&
              |r.value.solution.value| == |matrix| &&
              Satisfies(matrix, vector, r.value.solution.value)
    ensures r.Ok? && !r.value.isSingular ==>
              forall y :: |y| == |matrix| && Satisfies(matrix, vector, y) ==> y == r.value.solution.value
  {
    var valid := ValidateInput(matrix, vector);
    if valid.Err? {
      return Err(valid.message);
    }
    var n := |matrix|;
    var m, v := matrix, vector;
    var col := 0;
    while col < n
      invariant 0 <= col <= n
      invariant IsSystem(m, v, n)
      invariant ZeroBelowDiagonal(m, n, col)
      invariant forall k :: 0 <= k < col ==> Abs(m[k][k]) >= Tolerance
      invariant Solutions(m, v, n) == Solutions(matrix, vector, n)
    {
      var maxRow := FindPivot(m, n, col);
      if maxRow != col {
        SwapKeepsSolutions(m, v, n, col, maxRow);
        m, v := m[col := m[maxRow]][maxRow := m[col]], v[col := v[maxRow]][maxRow := v[col]];
      }
      if Abs(m[col][col]) < Tolerance {
        return Ok(Report(None, true, SingularMessage));
      }
      m, v := EliminateBelow(m, v, n, col);
      col := col + 1;
    }
    var solution := BackSubstitute(m, v, n);
    assert solution in Solutions(m, v, n);
    forall y | |y| == n && Satisfies(matrix, vector, y)
      ensures y == solution
    {
      assert y in Solutions(matrix, vector, n);
      UpperTriangularAgree(m, v, n, y, solution, 0);
    }
    return Ok(Report(Some(solution), false, SolvedMessage));
  }
}
