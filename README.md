# Parallel dense matrix multiplication, modelled in Dafny

The repository multiplies dense matrices in three ways behind one
`multiply(A, B)` interface:

- **Sequential.** The triple loop i, j, k. Each cell is a running sum with k ascending.
- **Fork/join by rows.** A task over the output rows `[start, end)` works in one of two ways:
  - at or below a threshold, it computes its rows directly;
  - otherwise it halves the row range, solves both halves and stacks the two fragments it gets back.
- **Fork/join by blocks.** A task covers an output block `[rStart, rEnd) × [cStart, cEnd)` and a k-range `[kStart, kEnd)`:
  - a small block or a short k-range is computed directly;
  - otherwise it halves the k-range and adds the two same-shaped fragments.

  The code also has a third branch that would split the block into four quadrants and tile them. That branch can never be taken.

All three reject `A.cols != B.rows` with an `IllegalArgumentException` that
reports the four dimensions.

The model has five modules:

- `Grids` (grids.dfy) is the value layer that every strategy is proved against:
  - `Grid` is a rectangular matrix value.
  - `Dot` is the partial dot product over a k-range, folded with k ascending.
  - `Partial` is the fragment a task is responsible for. `Product` is the full product.
  - `Stack`, `Beside`, `Tile` and `Sum` are the ways fragments are combined. The lemmas show that combining the fragments of two (or four) sub-tasks gives the fragment of the parent task.
- `Matrices` (matrix.dfy) holds the following:
  - the `Matrix` class: final `rows`, `cols` and `data`, with `data` as an `array2<int>`, and a ghost `Value()` that reads the array as a `Grid`;
  - the `Outcome` of `multiply`: a product or a dimension mismatch;
  - `MultiplyOutcome`, the contract shared by the three strategies.
- `Sequential` (sequential.dfy), `RowDecomposition` (row_multiplier.dfy) and `BlockDecomposition` (block_multiplier.dfy) are the three strategies:
  - each task is a class with final fields, as in the Java;
  - `compute()` is a recursive method;
  - each copy or add loop is a method with loop invariants.

  Every strategy's `Multiply` ensures the same `MultiplyOutcome`:
  - a mismatch is reported exactly when `A.cols != B.rows`, with those dimensions;
  - otherwise the result is a fresh `A.rows × B.cols` matrix whose value is `Product(A.Value(), B.Value())`.

The following are modelled as parameters or replaced:

- **Java's `double`.** Elements are `int`, so every sum is exact.
- **`fork(); compute(); join()`.** These become two ordinary calls, right task first and then left. The tasks only read `A` and `B`, and each returns a fresh matrix of its own.
- **The random source of `Matrix.random`.** It becomes a parameter `draw`: `draw(n)` is the n-th value drawn.

## Model

| member | source | states |
|---|---|---|
| Matrices.Matrix.Value | matrix/Matrix.java:5-8 | a valid matrix holds a rectangular `rows × cols` grid whose cell (i, j) is `data[i][j]` |
| Matrices.Matrix.constructor | matrix/Matrix.java:10-14 | a new `r × c` matrix has fresh storage of exactly that shape, every cell 0 |
| Matrices.Matrix.Random | matrix/Matrix.java:16-25 | a fresh `r × c` matrix filled row by row, one draw per cell: cell (i, j) holds draw number `i * c + j` |
| Matrices.Matrix.GetRowCount | matrix/Matrix.java:27-29 | returns the row count, which is the storage's first dimension |
| Matrices.Matrix.GetColCount | matrix/Matrix.java:31-33 | returns the column count, which is the storage's second dimension |
| Matrices.FillRow | algorithms/SequentialMultiplier.java:17-22 | the j and k loops of every base case: cell (i, j) becomes the dot product of row `row` of A and column `c0 + j` of B over [k0, k1); every other row is unchanged |
| Matrices.MultiplyOutcome | algorithms/SequentialMultiplier.java:8-25 | the outcome all three strategies promise: `IllegalArgumentException` with the four dimensions exactly when `A.cols != B.rows`, otherwise an `A.rows × B.cols` matrix holding `A · B` |
| Grids.Partial | algorithms/ForkJoinBlockMultiplier.java:52-58 | the fragment a task owns: shape `(r1 - r0) × (c1 - c0)`, cell (i, j) the dot product of row r0 + i and column c0 + j over [k0, k1) only |
| Grids.Product | algorithms/SequentialMultiplier.java:14-23 | the product is `A.rows × B.cols`, cell (i, j) the dot product of row i of A and column j of B over all k |
| Grids.Dot | algorithms/SequentialMultiplier.java:18-20 | the running `sum` of a cell: `A[i][k] * B[k][j]` added with k ascending over a k-range, starting from 0 |
| Grids.DotSplit | algorithms/ForkJoinBlockMultiplier.java:117-133 | a dot product over [lo, hi) is the one over [lo, mid) plus the one over [mid, hi), for any mid in between |
| Grids.Stack | algorithms/ForkJoinRowMultiplier.java:122-145 | the rows of the top fragment, then the rows of the bottom fragment, in order |
| Grids.Beside | algorithms/ForkJoinBlockMultiplier.java:206-242 | the columns of the left fragment, then the columns of the right fragment, row by row |
| Grids.Tile | algorithms/ForkJoinBlockMultiplier.java:193-242 | four quadrants laid out as [tl tr; bl br]: each quadrant's cell (i, j) lands at its offset |
| Grids.Sum | algorithms/ForkJoinBlockMultiplier.java:181-191 | the cell-by-cell sum of two fragments, with the shape of the first |
| Grids.StackRowRanges | algorithms/ForkJoinRowMultiplier.java:105-109 | stacking the fragments for rows [r0, rm) and [rm, r1) gives the fragment for rows [r0, r1) |
| Grids.BesideColRanges | algorithms/ForkJoinBlockMultiplier.java:139-150 | placing the fragments for columns [c0, cm) and [cm, c1) side by side gives the fragment for [c0, c1) |
| Grids.TileQuadrants | algorithms/ForkJoinBlockMultiplier.java:137-168 | tiling the four quadrant fragments of a block gives the fragment of the whole block |
| Grids.SumKRanges | algorithms/ForkJoinBlockMultiplier.java:118-133 | adding the fragments of one block over the k-ranges [k0, km) and [km, k1) gives its fragment over [k0, k1) |
| Grids.TwoByTwo | Main.java:53-73 | [[1, 2], [3, 4]] · [[5, 6], [7, 8]] is [[19, 22], [43, 50]] |
| Grids.ProductIdentity | algorithms/SequentialMultiplier.java:16-23 | multiplying by the identity leaves a matrix unchanged |
| Grids.ProductZero | algorithms/SequentialMultiplier.java:16-23 | multiplying by a zero matrix gives the zero matrix of the product's shape |
| Grids.ProductScale | algorithms/SequentialMultiplier.java:16-23 | scaling B by c scales the product by c |
| Grids.Midpoint | algorithms/ForkJoinRowMultiplier.java:91 | `(start + end) / 2` (also `kMid` at ForkJoinBlockMultiplier.java:119) lies between start and end for non-negative bounds, and strictly between them once `end - start >= 2` |
| Sequential.SequentialMultiplier.Multiply | algorithms/SequentialMultiplier.java:8-25 | a mismatch exactly when `A.cols != B.rows`, carrying the four dimensions; otherwise a fresh matrix holding `A · B` |
| RowDecomposition.IsLeaf | algorithms/ForkJoinRowMultiplier.java:63-67 | a task computes directly exactly when its row count `end - start` is at most the threshold |
| RowDecomposition.SplitShrinks | algorithms/ForkJoinRowMultiplier.java:67-97 | with a positive threshold, a task that is not a leaf splits strictly inside its range, so both sub-tasks are smaller |
| RowDecomposition.SelfSpawn | algorithms/ForkJoinRowMultiplier.java:67-97 | with `threshold <= 0`, a one-row task is not a leaf and its right sub-task is [start, start + 1) again |
| RowDecomposition.RowMultiplier.constructor | algorithms/ForkJoinRowMultiplier.java:23-25 | stores the threshold, which must be positive |
| RowDecomposition.RowMultiplier.Multiply | algorithms/ForkJoinRowMultiplier.java:28-41 | the same outcome as the sequential strategy: the mismatch exactly when `A.cols != B.rows`, otherwise `A · B` |
| RowDecomposition.RowTask.constructor | algorithms/ForkJoinRowMultiplier.java:54-59 | the task records A, B and the row range [start, end) |
| RowDecomposition.RowTask.Compute | algorithms/ForkJoinRowMultiplier.java:62-110 | returns a fresh `(end - start) × B.cols` matrix whose row i is row start + i of `A · B`, whether it computes directly or splits |
| RowDecomposition.RowTask.ComputeDirectly | algorithms/ForkJoinRowMultiplier.java:67-87 | the base case yields that same fragment, each cell summed over all of k |
| RowDecomposition.RowTask.CombineMatrices | algorithms/ForkJoinRowMultiplier.java:122-145 | a fresh matrix whose value is the left fragment's rows followed by the right fragment's rows |
| BlockDecomposition.Int32 | algorithms/ForkJoinBlockMultiplier.java:89 | Java `int` arithmetic: the result lies in [-2^31, 2^31), is congruent to the exact value modulo 2^32, and equals it when it fits |
| BlockDecomposition.IsLeaf | algorithms/ForkJoinBlockMultiplier.java:82-89 | a task computes directly exactly when its 32-bit area `rows * cols` or its k-range length is at most the threshold |
| BlockDecomposition.QuadrantSplitUnreachable | algorithms/ForkJoinBlockMultiplier.java:89-137 | a task that is not a leaf always has `kSize > threshold`, so the quadrant branch is never taken |
| BlockDecomposition.KSplitShrinks | algorithms/ForkJoinBlockMultiplier.java:118-123 | with a positive threshold, the k-split falls strictly inside the k-range, so both sub-tasks have shorter k-ranges |
| BlockDecomposition.SelfSpawn | algorithms/ForkJoinBlockMultiplier.java:89-123 | with `threshold <= 0`, a task with a one-wide k-range (and an area above the threshold) is not a leaf, and its right sub-task has the same k-range again |
| BlockDecomposition.BlockMultiplier.constructor | algorithms/ForkJoinBlockMultiplier.java:27-29 | stores the threshold, which must be positive |
| BlockDecomposition.BlockMultiplier.Multiply | algorithms/ForkJoinBlockMultiplier.java:32-47 | the same outcome as the sequential strategy; the root task covers all rows, all columns and the full k-range |
| BlockDecomposition.BlockTask.Expected | algorithms/ForkJoinBlockMultiplier.java:49-64 | the fragment a task owns has the shape of its block |
| BlockDecomposition.BlockTask.constructor | algorithms/ForkJoinBlockMultiplier.java:66-78 | the task records A, B, its block and its k-range |
| BlockDecomposition.BlockTask.Compute | algorithms/ForkJoinBlockMultiplier.java:81-169 | returns a fresh matrix holding the task's block of `A · B`, summed over its k-range only |
| BlockDecomposition.BlockTask.ComputeDirectly | algorithms/ForkJoinBlockMultiplier.java:89-110 | the base case yields that same fragment, summing over [kStart, kEnd) only |
| BlockDecomposition.BlockTask.AddMatrices | algorithms/ForkJoinBlockMultiplier.java:181-191 | a fresh matrix of the left operand's shape holding the cell-by-cell sum |
| BlockDecomposition.BlockTask.CombineBlocks | algorithms/ForkJoinBlockMultiplier.java:206-242 | a fresh matrix whose value tiles the four quadrants at their offsets |
| BlockDecomposition.BlockTask.CopyInto | algorithms/ForkJoinBlockMultiplier.java:213-239 | one quadrant copy loop: q's cells land at offset (r0, c0), and no other cell changes |

## Left out

- Elements are mathematical integers. The source's `double` rounding is not modelled. Nor is the 0.001 tolerance its correctness check uses to compare strategies. The model's sums are exact, so the order of summation cannot matter.
- Scheduling is not modelled: the `ForkJoinPool`, work stealing and parallel execution. `fork(); compute(); join()` runs as two sequential calls, right then left. This ordering is sound because the tasks share nothing they write: each writes only to a fresh matrix of its own.
- Exceptions thrown inside a forked task are not modelled, because under the model's preconditions no array access goes out of bounds.
- `MatrixMultiplier`, the interface the three strategies implement, has no counterpart. The three classes give `Multiply` the same contract, `MultiplyOutcome`, instead.
- Matrices.Matrix.Random: does not model `java.util.Random` or the range [0, 10) of `nextDouble() * 10`. The values are the n-th results of a `draw` parameter, because randomness cannot be modelled.
- Matrices.Matrix.constructor: negative sizes, for which Java throws `NegativeArraySizeException`, cannot be expressed, because the sizes are `nat`.
- Matrices.Matrix.Value: `data` is modelled as a rectangular `array2`. A Java `double[][]` is an array of row arrays, and a caller could replace or share a row. The core never does either.
- Matrices.FillRow: the j and k loops of the three base cases are one shared method. In the source they are written out in each `compute()` and in `multiply`. The row loop stays in each caller.
- BlockDecomposition.BlockTask.CopyInto: the four copy loops of `combineBlocks` are four calls to this one method.
- RowDecomposition.RowTask.ComputeDirectly and BlockDecomposition.BlockTask.ComputeDirectly: the leaf branch of `compute()` is a method of its own, which `Compute` calls.
- RowDecomposition.RowTask.CombineMatrices: requires the fragments to have exactly the shapes of [start, mid) and [mid, end). The source does not check them, and its only caller passes fragments of those shapes.
- BlockDecomposition.BlockTask.AddMatrices: requires `right` to be at least as large as `left`, which the source assumes ("Both matrices have the same dimensions") without checking.
- BlockDecomposition.BlockTask.CombineBlocks: requires the four quadrants to line up, which the source assumes without checking. The method is proved on its own, and `Compute` never calls it because its branch is dead (BlockDecomposition.QuadrantSplitUnreachable).
- BlockDecomposition.BlockTask.Compute: the quadrant branch (ForkJoinBlockMultiplier.java:137-168) is `assert false`, because it cannot be reached.
- The 32-bit overflow of `start + end` and `kStart + kEnd` in the midpoint is not modelled. It needs dimensions above 2^30, and matrices that large would not fit in memory. The area `rows * cols` in the leaf test is modelled with 32-bit wrap-around (BlockDecomposition.Int32).
- Multiplier constructors and `Multiply`: they require `threshold >= 1`, which the source does not check (see Findings).
- The JavaFX GUI (MatrixGUI.java), the benchmark harness (MatrixBenchmark.java) and the console driver (Main.java) are not part of this model. Their timing, printing and parsing are I/O. The one fact taken from Main.java is the expected 2 × 2 product (Grids.TwoByTwo).

## Findings

| source | as written | input that shows it | evidently intended | confidence | as-written member | corrected member |
|---|---|---|---|---|---|---|
| algorithms/ForkJoinRowMultiplier.java:23-25, 67-97 | any `int` threshold is accepted. With `threshold <= 0`, a one-row task is not a leaf; it splits at `mid == start`, so its right sub-task is the task itself, and `compute` recurses until the stack overflows | threshold 0, which the GUI passes unchecked from its Threshold field (MatrixGUI.java:467-472), and any A with at least one row | only a positive threshold is accepted, so every split makes progress and the recursion ends with `A · B` | not executed | RowDecomposition.SelfSpawn | RowDecomposition.RowTask.Compute |
| algorithms/ForkJoinBlockMultiplier.java:27-29, 89-123 | the same for blocks. With `threshold <= 0`, a task whose k-range is one wide and whose area exceeds the threshold is not a leaf. It takes the k-split at `kMid == kStart`, so its right sub-task is the task itself | threshold 0, and A and B with at least one row, one column and `A.cols >= 1` | only a positive threshold is accepted, so every k-split makes progress | not executed | BlockDecomposition.SelfSpawn | BlockDecomposition.BlockTask.Compute |
