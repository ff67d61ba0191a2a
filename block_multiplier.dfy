/** The block-decomposition strategy (algorithms/ForkJoinBlockMultiplier.java).
    A task covers an output block [rStart, rEnd) × [cStart, cEnd) and a
    k-range [kStart, kEnd). It computes the block directly, or halves the
    k-range and adds the two same-shaped fragments; a third branch, which
    would split the block into quadrants and tile them, can never be reached.
    `fork(); compute(); join()` becomes ordinary calls. */
module BlockDecomposition {
  import opened Grids
  import opened Matrices

  /** Java's 32-bit `int` arithmetic: the value in [-2^31, 2^31) congruent to
      `x` modulo 2^32. */
  function Int32(x: int): (r: int)
    ensures -0x8000_0000 <= r < 0x8000_0000
    ensures (r - x) % 0x1_0000_0000 == 0
    ensures -0x8000_0000 <= x < 0x8000_0000 ==> r == x
  {
    var m := x % 0x1_0000_0000;
    if m >= 0x8000_0000 then m - 0x1_0000_0000 else m
  }

  /** The base-case test of `BlockTask.compute`: a small block or a short
      k-range. The area `rows * cols` is a 32-bit product, so a huge block
      whose area wraps to a value <= threshold is also a leaf. */
  predicate IsLeaf(threshold: int, rows: int, cols: int, kSize: int) {
    Int32(rows * cols) <= threshold || kSize <= threshold
  }

  /** A task that is not a leaf always has `kSize > threshold`, so the k-split
      branch is always taken and the quadrant branch is dead. */
  lemma QuadrantSplitUnreachable(threshold: int, rows: int, cols: int, kSize: int)
    requires !IsLeaf(threshold, rows, cols, kSize)
    ensures kSize > threshold
  {
  }

  /** With `threshold >= 1`, a k-split falls strictly inside the k-range, so
      both halves have a shorter k-range than the task. */
  lemma KSplitShrinks(threshold: int, kStart: int, kEnd: int)
    requires threshold >= 1 && 0 <= kStart && kEnd - kStart > threshold
    ensures kStart < Midpoint(kStart, kEnd) < kEnd
  {
  }

  /** With `threshold <= 0`, a task with a one-wide k-range and a non-empty
      block (or a negative threshold) is not a leaf, takes the k-split and
      splits at `kMid == kStart`: its right half is the task itself, which
      therefore recurses forever. */
  lemma SelfSpawn(threshold: int, rows: int, cols: int, kStart: nat)
    requires threshold <= 0 && Int32(rows * cols) > threshold
    ensures !IsLeaf(threshold, rows, cols, 1) && 1 > threshold
    ensures Midpoint(kStart, kStart + 1) == kStart
  {
  }

  class BlockMultiplier {
    const threshold: int

    /** The threshold bounds both the block area and the k-range of a leaf;
        the recursion only terminates for a positive threshold. */
    ghost predicate Valid() {
      threshold >= 1
    }

    constructor (threshold: int)
      requires threshold >= 1
      ensures Valid() && this.threshold == threshold
    {
      this.threshold := threshold;
    }

    /** The same dimension check as the other strategies, made before any task
        exists; then one root task over [0, A.rows) × [0, B.cols) with the full
        k-range [0, A.cols). */
    method Multiply(A: Matrix, B: Matrix) returns (r: Outcome)
      requires Valid() && A.Valid() && B.Valid()
      ensures MultiplyOutcome(A, B, r)
      ensures r.Success? ==> fresh(r.c) && fresh(r.c.data)
    {
      if A.cols != B.rows {
        return DimensionMismatch(A.rows, A.cols, B.rows, B.cols);
      }
      var rootTask := new BlockTask(A, B, threshold, 0, A.rows, 0, B.cols, 0, A.cols);
      var C := rootTask.Compute();
      return Success(C);
    }
  }

  /** One unit of work: the block [rStart, rEnd) × [cStart, cEnd) of `A · B`,
      summed over the k-range [kStart, kEnd) only. */
  class BlockTask {
    const A: Matrix
    const B: Matrix
    const threshold: int
    const rStart: int
    const rEnd: int
    const cStart: int
    const cEnd: int
    const kStart: int
    const kEnd: int

    ghost predicate Valid() {
      && A.Valid() && B.Valid() && A.cols == B.rows
      && threshold >= 1
      && 0 <= rStart <= rEnd <= A.rows
      && 0 <= cStart <= cEnd <= B.cols
      && 0 <= kStart <= kEnd <= A.cols
    }

    /** The fragment this task is responsible for. */
    ghost function Expected(): (g: Grid)
      reads A.data, B.data
      requires Valid()
      ensures g.Valid() && g.rows == rEnd - rStart && g.cols == cEnd - cStart
    {
      Partial(A.Value(), B.Value(), rStart, rEnd, cStart, cEnd, kStart, kEnd)
    }

    constructor (A: Matrix, B: Matrix, threshold: int,
                 rStart: int, rEnd: int, cStart: int, cEnd: int, kStart: int, kEnd: int)
      ensures this.A == A && this.B == B && this.threshold == threshold
      ensures this.rStart == rStart && this.rEnd == rEnd
      ensures this.cStart == cStart && this.cEnd == cEnd
      ensures this.kStart == kStart && this.kEnd == kEnd
    {
      this.A, this.B, this.threshold := A, B, threshold;
      this.rStart, this.rEnd := rStart, rEnd;
      this.cStart, this.cEnd := cStart, cEnd;
      this.kStart, this.kEnd := kStart, kEnd;
    }

    /** Returns a fresh `(rEnd - rStart) × (cEnd - cStart)` fragment whose cell
        (i, j) is the dot product of row rStart + i and column cStart + j over
        [kStart, kEnd) only. */
    method Compute() returns (m: Matrix)
      requires Valid()
      ensures fresh(m) && fresh(m.data) && m.Valid()
      ensures m.rows == rEnd - rStart && m.cols == cEnd - cStart
      ensures m.Value() == Expected()
      decreases kEnd - kStart
    {
      var rows := rEnd - rStart;
      var cols := cEnd - cStart;
      var kSize := kEnd - kStart;

      if IsLeaf(threshold, rows, cols, kSize) {
        m := ComputeDirectly();
      } else if kSize > threshold {
        KSplitShrinks(threshold, kStart, kEnd);
        var kMid := Midpoint(kStart, kEnd);
        var leftTask := new BlockTask(A, B, threshold, rStart, rEnd, cStart, cEnd, kStart, kMid);
        var rightTask := new BlockTask(A, B, threshold, rStart, rEnd, cStart, cEnd, kMid, kEnd);
        // leftTask.fork(); rightTask.compute(); leftTask.join()
        var rightResult := rightTask.Compute();
        var leftResult := leftTask.Compute();
        m := AddMatrices(leftResult, rightResult);
        SumKRanges(A.Value(), B.Value(), rStart, rEnd, cStart, cEnd, kStart, kMid, kEnd);
      } else {
        // The quadrant split: unreachable.
        QuadrantSplitUnreachable(threshold, rows, cols, kSize);
        assert false;
      }
    }

    /** The base case: every cell of the block computed directly, summing over
        this task's own k-range only, into a fresh fragment. */
    method ComputeDirectly() returns (m: Matrix)
      requires Valid()
      ensures fresh(m) && fresh(m.data) && m.Valid()
      ensures m.rows == rEnd - rStart && m.cols == cEnd - cStart
      ensures m.Value() == Expected()
    {
      var rows := rEnd - rStart;
      var cols := cEnd - cStart;
      ghost var a, b := A.Value(), B.Value();
      var result := new Matrix(rows, cols);
      for i := 0 to rows
        invariant forall i', j :: 0 <= i' < i && 0 <= j < cols ==> result.data[i', j] == Dot(a, b, rStart + i', cStart + j, kStart, kEnd)
      {
        var actualRow := rStart + i;
        FillRow(A, B, result, i, actualRow, cStart, kStart, kEnd);
        assert A.Value() == a && B.Value() == b;
      }
      ValueIsPartial(result, a, b, rStart, rEnd, cStart, cEnd, kStart, kEnd);
      m := result;
    }

    /** A fresh matrix of `left`'s shape holding the cell-by-cell sum of `left`
        and `right`; `right` is read only where `left` has cells. */
    method AddMatrices(left: Matrix, right: Matrix) returns (result: Matrix)
      requires left.Valid() && right.Valid()
      requires left.rows <= right.rows && left.cols <= right.cols
      ensures fresh(result) && fresh(result.data) && result.Valid()
      ensures result.rows == left.rows && result.cols == left.cols
      ensures result.Value() == Sum(left.Value(), right.Value())
    {
      result := new Matrix(left.rows, left.cols);
      for i := 0 to left.rows
        invariant forall i', j :: 0 <= i' < i && 0 <= j < left.cols ==> result.data[i', j] == left.data[i', j] + right.data[i', j]
      {
        for j := 0 to left.cols
          invariant forall i', j' :: 0 <= i' < i && 0 <= j' < left.cols ==> result.data[i', j'] == left.data[i', j'] + right.data[i', j']
          invariant forall j' :: 0 <= j' < j ==> result.data[i, j'] == left.data[i, j'] + right.data[i, j']
        {
          result.data[i, j] := left.data[i, j] + right.data[i, j];
        }
      }
      ValueIs(result, Sum(left.Value(), right.Value()));
    }

    /** A fresh `(topLeft.rows + bottomLeft.rows) × (topLeft.cols + topRight.cols)`
        matrix with each quadrant copied at its offset: (0, 0), (0, topLeft.cols),
        (topLeft.rows, 0) and (topLeft.rows, topLeft.cols). */
    method CombineBlocks(topLeft: Matrix, topRight: Matrix, bottomLeft: Matrix, bottomRight: Matrix)
      returns (result: Matrix)
      requires topLeft.Valid() && topRight.Valid() && bottomLeft.Valid() && bottomRight.Valid()
      requires topLeft.rows == topRight.rows && bottomLeft.rows == bottomRight.rows
      requires topLeft.cols == bottomLeft.cols && topRight.cols == bottomRight.cols
      ensures fresh(result) && fresh(result.data) && result.Valid()
      ensures result.rows == topLeft.rows + bottomLeft.rows && result.cols == topLeft.cols + topRight.cols
      ensures result.Value() == Tile(topLeft.Value(), topRight.Value(), bottomLeft.Value(), bottomRight.Value())
    {
      var totalRows := topLeft.rows + bottomLeft.rows;
      var totalCols := topLeft.cols + topRight.cols;
      result := new Matrix(totalRows, totalCols);

      CopyInto(result, topLeft, 0, 0);
      CopyInto(result, topRight, 0, topLeft.cols);
      CopyInto(result, bottomLeft, topLeft.rows, 0);
      CopyInto(result, bottomRight, topLeft.rows, topLeft.cols);
      ValueIsTile(result, topLeft, topRight, bottomLeft, bottomRight);
    }

    /** One of the four copy loops of `combineBlocks`: the cells of `q` written
        into `m` at offset (r0, c0), row by row; nothing else in `m` changes. */
    method CopyInto(m: Matrix, q: Matrix, r0: nat, c0: nat)
      requires m.Valid() && q.Valid() && r0 + q.rows <= m.rows && c0 + q.cols <= m.cols
      requires m.data != q.data
      modifies m.data
      ensures Copied(m, q, r0, c0, q.rows)
      ensures forall i, j :: 0 <= i < m.rows && 0 <= j < m.cols && !(r0 <= i < r0 + q.rows && c0 <= j < c0 + q.cols) ==>
        m.data[i, j] == old(m.data[i, j])
    {
      for i := 0 to q.rows
        invariant Copied(m, q, r0, c0, i)
        invariant forall i', j :: 0 <= i' < m.rows && 0 <= j < m.cols && !(r0 <= i' < r0 + q.rows && c0 <= j < c0 + q.cols) ==>
          m.data[i', j] == old(m.data[i', j])
      {
        for j := 0 to q.cols
          invariant Copied(m, q, r0, c0, i)
          invariant forall j' :: 0 <= j' < j ==> m.data[r0 + i, c0 + j'] == q.data[i, j']
          invariant forall i', j' :: 0 <= i' < m.rows && 0 <= j' < m.cols && !(r0 <= i' < r0 + q.rows && c0 <= j' < c0 + q.cols) ==>
            m.data[i', j'] == old(m.data[i', j'])
        {
          m.data[r0 + i, c0 + j] := q.data[i, j];
        }
      }
    }
  }
}
