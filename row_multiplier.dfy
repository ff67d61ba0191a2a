/** The row-decomposition strategy (algorithms/ForkJoinRowMultiplier.java).
    A task over the output rows [start, end) either computes them directly or
    halves the range, solves both halves and stacks the two fragments.
    `fork(); compute(); join()` becomes two ordinary calls: the tasks only
    read `A` and `B` and each returns a fragment of its own. */
module RowDecomposition {
  import opened Grids
  import opened Matrices

  /** The base-case test of `RowTask.compute`. */
  predicate IsLeaf(threshold: int, start: int, end: int) {
    end - start <= threshold
  }

  /** With `threshold >= 1`, a task that is not a leaf splits strictly inside
      its range, so both halves are smaller than the task. */
  lemma SplitShrinks(threshold: int, start: int, end: int)
    requires threshold >= 1 && 0 <= start <= end && !IsLeaf(threshold, start, end)
    ensures start < Midpoint(start, end) < end
  {
  }

  /** With `threshold <= 0`, a one-row task is not a leaf and splits at
      `mid == start`: its right half [mid, end) is the task itself, which
      therefore recurses forever. */
  lemma SelfSpawn(threshold: int, start: nat)
    requires threshold <= 0
    ensures !IsLeaf(threshold, start, start + 1) && Midpoint(start, start + 1) == start
  {
  }

  class RowMultiplier {
    const threshold: int

    /** Rows per leaf; the recursion only terminates for a positive threshold. */
    ghost predicate Valid() {
      threshold >= 1
    }

    constructor (threshold: int)
      requires threshold >= 1
      ensures Valid() && this.threshold == threshold
    {
      this.threshold := threshold;
    }

    /** The same dimension check as the sequential strategy, made before any
        task exists; then one root task over all rows [0, A.rows). */
    method Multiply(A: Matrix, B: Matrix) returns (r: Outcome)
      requires Valid() && A.Valid() && B.Valid()
      ensures MultiplyOutcome(A, B, r)
      ensures r.Success? ==> fresh(r.c) && fresh(r.c.data)
    {
      if A.cols != B.rows {
        return DimensionMismatch(A.rows, A.cols, B.rows, B.cols);
      }
      var rootTask := new RowTask(A, B, threshold, 0, A.rows);
      var C := rootTask.Compute();
      return Success(C);
    }
  }

  /** One unit of work: the rows [start, end) of `A · B`. */
  class RowTask {
    const A: Matrix
    const B: Matrix
    const threshold: int
    const start: int
    const end: int

    ghost predicate Valid() {
      && A.Valid() && B.Valid() && A.cols == B.rows
      && threshold >= 1
      && 0 <= start <= end <= A.rows
    }

    constructor (A: Matrix, B: Matrix, threshold: int, start: int, end: int)
      ensures this.A == A && this.B == B && this.threshold == threshold
      ensures this.start == start && this.end == end
    {
      this.A, this.B, this.threshold := A, B, threshold;
      this.start, this.end := start, end;
    }

    /** Returns a fresh `(end - start) × B.cols` fragment whose row `i` is row
        `start + i` of `A · B`, in the base case and the recursive case alike. */
    method Compute() returns (m: Matrix)
      requires Valid()
      ensures fresh(m) && fresh(m.data) && m.Valid()
      ensures m.rows == end - start && m.cols == B.cols
      ensures m.Value() == Partial(A.Value(), B.Value(), start, end, 0, B.cols, 0, A.cols)
      decreases end - start
    {
      if IsLeaf(threshold, start, end) {
        m := ComputeDirectly();
        return;
      }

      SplitShrinks(threshold, start, end);
      var mid := Midpoint(start, end);
      var leftTask := new RowTask(A, B, threshold, start, mid);
      var rightTask := new RowTask(A, B, threshold, mid, end);
      // leftTask.fork(); rightTask.compute(); leftTask.join()
      var rightResult := rightTask.Compute();
      var leftResult := leftTask.Compute();
      m := CombineMatrices(leftResult, rightResult, start, mid, end);
      StackRowRanges(A.Value(), B.Value(), start, mid, end, 0, B.cols, 0, A.cols);
    }

    /** The base case: every row of [start, end) computed directly, each cell
        the full dot product over k = 0 .. A.cols-1, into a fresh fragment. */
    method ComputeDirectly() returns (m: Matrix)
      requires Valid()
      ensures fresh(m) && fresh(m.data) && m.Valid()
      ensures m.rows == end - start && m.cols == B.cols
      ensures m.Value() == Partial(A.Value(), B.Value(), start, end, 0, B.cols, 0, A.cols)
    {
      var rowsToCompute := end - start;
      ghost var a, b := A.Value(), B.Value();
      var result := new Matrix(rowsToCompute, B.cols);
      for i := 0 to rowsToCompute
        invariant forall i', j :: 0 <= i' < i && 0 <= j < B.cols ==> result.data[i', j] == Dot(a, b, start + i', j, 0, A.cols)
      {
        var actualRow := start + i;
        FillRow(A, B, result, i, actualRow, 0, 0, A.cols);
        assert A.Value() == a && B.Value() == b;
      }
      ValueIsPartial(result, a, b, start, end, 0, B.cols, 0, A.cols);
      m := result;
    }

    /** A fresh `(end - start) × B.cols` matrix holding the rows of `left` at
        0 .. mid-start-1 and the rows of `right` after them, in order. */
    method CombineMatrices(left: Matrix, right: Matrix, start: int, mid: int, end: int) returns (combined: Matrix)
      requires left.Valid() && right.Valid()
      requires 0 <= start <= mid <= end
      requires left.rows == mid - start && right.rows == end - mid
      requires left.cols == B.cols && right.cols == B.cols
      ensures fresh(combined) && fresh(combined.data) && combined.Valid()
      ensures combined.rows == end - start && combined.cols == B.cols
      ensures combined.Value() == Stack(left.Value(), right.Value())
    {
      var totalRows := end - start;
      var cols := B.cols;
      combined := new Matrix(totalRows, cols);

      var leftRows := mid - start;
      for i := 0 to leftRows
        invariant forall i', j :: 0 <= i' < i && 0 <= j < cols ==> combined.data[i', j] == left.data[i', j]
      {
        for j := 0 to cols
          invariant forall i', j' :: 0 <= i' < i && 0 <= j' < cols ==> combined.data[i', j'] == left.data[i', j']
          invariant forall j' :: 0 <= j' < j ==> combined.data[i, j'] == left.data[i, j']
        {
          combined.data[i, j] := left.data[i, j];
        }
      }

      var rightRows := end - mid;
      for i := 0 to rightRows
        invariant forall i', j :: 0 <= i' < leftRows && 0 <= j < cols ==> combined.data[i', j] == left.data[i', j]
        invariant forall i', j :: 0 <= i' < i && 0 <= j < cols ==> combined.data[leftRows + i', j] == right.data[i', j]
      {
        for j := 0 to cols
          invariant forall i', j' :: 0 <= i' < leftRows && 0 <= j' < cols ==> combined.data[i', j'] == left.data[i', j']
          invariant forall i', j' :: 0 <= i' < i && 0 <= j' < cols ==> combined.data[leftRows + i', j'] == right.data[i', j']
          invariant forall j' :: 0 <= j' < j ==> combined.data[leftRows + i, j'] == right.data[i, j']
        {
          combined.data[leftRows + i, j] := right.data[i, j];
        }
      }

      ValueIsStack(combined, left, right);
    }
  }
}
