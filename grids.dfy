/** Matrix values under exact arithmetic: the specification that every
    multiplication strategy is proved against. A `Grid` is what a `Matrix`
    object holds at one moment: its shape and its cells, row by row. */
module Grids {

  datatype Grid = Grid(rows: nat, cols: nat, cells: seq<seq<int>>)
  {
    /** Exactly `rows` rows, each of exactly `cols` cells: no ragged rows. */
    predicate Valid() {
      |cells| == rows && forall i :: 0 <= i < rows ==> |cells[i]| == cols
    }

    function At(i: nat, j: nat): int
      requires Valid() && i < rows && j < cols
    {
      cells[i][j]
    }
  }

  /** Two grids of the same shape that agree on every cell are equal. */
  lemma SameCells(g: Grid, h: Grid)
    requires g.Valid() && h.Valid() && g.rows == h.rows && g.cols == h.cols
    requires forall i, j :: 0 <= i < g.rows && 0 <= j < g.cols ==> g.At(i, j) == h.At(i, j)
    ensures g == h
  {
    forall i | 0 <= i < g.rows
      ensures g.cells[i] == h.cells[i]
    {
      assert forall j :: 0 <= j < g.cols ==> g.cells[i][j] == g.At(i, j);
    }
  }

  /** `a` can be multiplied by `b`: the columns of `a` match the rows of `b`. */
  predicate Conformable(a: Grid, b: Grid) {
    a.Valid() && b.Valid() && a.cols == b.rows
  }

  /** The partial dot product of row `i` of `a` and column `j` of `b` over
      the k-range [lo, hi), accumulated with k ascending from 0. */
  function Dot(a: Grid, b: Grid, i: nat, j: nat, lo: nat, hi: nat): int
    requires Conformable(a, b) && i < a.rows && j < b.cols && lo <= hi <= a.cols
    decreases hi - lo
  {
    if lo == hi then 0 else Dot(a, b, i, j, lo, hi - 1) + a.At(i, hi - 1) * b.At(hi - 1, j)
  }

  /** A sum over [lo, hi) is the sum over [lo, mid) plus the sum over [mid, hi). */
  lemma {:induction false} DotSplit(a: Grid, b: Grid, i: nat, j: nat, lo: nat, mid: nat, hi: nat)
    requires Conformable(a, b) && i < a.rows && j < b.cols && lo <= mid <= hi <= a.cols
    ensures Dot(a, b, i, j, lo, hi) == Dot(a, b, i, j, lo, mid) + Dot(a, b, i, j, mid, hi)
    decreases hi
  {
    if mid < hi {
      DotSplit(a, b, i, j, lo, mid, hi - 1);
    }
  }

  /** The ranges a fragment of `a · b` is taken over all lie inside the operands. */
  predicate InBounds(a: Grid, b: Grid, r0: nat, r1: nat, c0: nat, c1: nat, k0: nat, k1: nat) {
    Conformable(a, b) && r0 <= r1 <= a.rows && c0 <= c1 <= b.cols && k0 <= k1 <= a.cols
  }

  /** The fragment of `a · b` over rows [r0, r1) and columns [c0, c1), each cell
      summed over the k-range [k0, k1) only, indexed from (0, 0). */
  function Partial(a: Grid, b: Grid, r0: nat, r1: nat, c0: nat, c1: nat, k0: nat, k1: nat): (g: Grid)
    requires InBounds(a, b, r0, r1, c0, c1, k0, k1)
    ensures g.Valid() && g.rows == r1 - r0 && g.cols == c1 - c0
    ensures forall i, j :: 0 <= i < g.rows && 0 <= j < g.cols ==> g.At(i, j) == Dot(a, b, r0 + i, c0 + j, k0, k1)
  {
    Grid(r1 - r0, c1 - c0,
      seq(r1 - r0, i requires 0 <= i < r1 - r0 =>
        seq(c1 - c0, j requires 0 <= j < c1 - c0 => Dot(a, b, r0 + i, c0 + j, k0, k1))))
  }

  /** The product `a · b`: every row, every column, the whole shared dimension. */
  function Product(a: Grid, b: Grid): (c: Grid)
    requires Conformable(a, b)
    ensures c.Valid() && c.rows == a.rows && c.cols == b.cols
    ensures forall i, j :: 0 <= i < c.rows && 0 <= j < c.cols ==> c.At(i, j) == Dot(a, b, i, j, 0, a.cols)
  {
    Partial(a, b, 0, a.rows, 0, b.cols, 0, a.cols)
  }

  /** The rows of `top` followed by the rows of `bottom`. */
  function Stack(top: Grid, bottom: Grid): (g: Grid)
    requires top.Valid() && bottom.Valid() && top.cols == bottom.cols
    ensures g.Valid() && g.rows == top.rows + bottom.rows && g.cols == top.cols
    ensures forall i, j :: 0 <= i < g.rows && 0 <= j < g.cols ==>
      g.At(i, j) == if i < top.rows then top.At(i, j) else bottom.At(i - top.rows, j)
  {
    Grid(top.rows + bottom.rows, top.cols, top.cells + bottom.cells)
  }

  /** The columns of `left` followed by the columns of `right`, row by row. */
  function Beside(left: Grid, right: Grid): (g: Grid)
    requires left.Valid() && right.Valid() && left.rows == right.rows
    ensures g.Valid() && g.rows == left.rows && g.cols == left.cols + right.cols
    ensures forall i, j :: 0 <= i < g.rows && 0 <= j < g.cols ==>
      g.At(i, j) == if j < left.cols then left.At(i, j) else right.At(i, j - left.cols)
  {
    Grid(left.rows, left.cols + right.cols,
      seq(left.rows, i requires 0 <= i < left.rows => left.cells[i] + right.cells[i]))
  }

  /** Four quadrants whose shapes line up. */
  predicate Quadrants(tl: Grid, tr: Grid, bl: Grid, br: Grid) {
    tl.Valid() && tr.Valid() && bl.Valid() && br.Valid() &&
    tl.rows == tr.rows && bl.rows == br.rows && tl.cols == bl.cols && tr.cols == br.cols
  }

  /** Four quadrants laid out as [tl tr; bl br]. */
  function Tile(tl: Grid, tr: Grid, bl: Grid, br: Grid): (g: Grid)
    requires Quadrants(tl, tr, bl, br)
    ensures g.Valid() && g.rows == tl.rows + bl.rows && g.cols == tl.cols + tr.cols
    ensures forall i, j :: 0 <= i < tl.rows && 0 <= j < tl.cols ==> g.At(i, j) == tl.At(i, j)
    ensures forall i, j :: 0 <= i < tr.rows && 0 <= j < tr.cols ==> g.At(i, tl.cols + j) == tr.At(i, j)
    ensures forall i, j :: 0 <= i < bl.rows && 0 <= j < bl.cols ==> g.At(tl.rows + i, j) == bl.At(i, j)
    ensures forall i, j :: 0 <= i < br.rows && 0 <= j < br.cols ==> g.At(tl.rows + i, tl.cols + j) == br.At(i, j)
  {
    Stack(Beside(tl, tr), Beside(bl, br))
  }

  /** The cell-by-cell sum of `x` and `y`, with the shape of `x`. */
  function Sum(x: Grid, y: Grid): (g: Grid)
    requires x.Valid() && y.Valid() && x.rows <= y.rows && x.cols <= y.cols
    ensures g.Valid() && g.rows == x.rows && g.cols == x.cols
    ensures forall i, j :: 0 <= i < g.rows && 0 <= j < g.cols ==> g.At(i, j) == x.At(i, j) + y.At(i, j)
  {
    Grid(x.rows, x.cols,
      seq(x.rows, i requires 0 <= i < x.rows =>
        seq(x.cols, j requires 0 <= j < x.cols => x.At(i, j) + y.At(i, j))))
  }

  /** Stacking the fragments for rows [r0, rm) and [rm, r1) gives the fragment
      for rows [r0, r1): row order is preserved. */
  lemma StackRowRanges(a: Grid, b: Grid, r0: nat, rm: nat, r1: nat, c0: nat, c1: nat, k0: nat, k1: nat)
    requires InBounds(a, b, r0, r1, c0, c1, k0, k1) && r0 <= rm <= r1
    ensures Stack(Partial(a, b, r0, rm, c0, c1, k0, k1), Partial(a, b, rm, r1, c0, c1, k0, k1))
         == Partial(a, b, r0, r1, c0, c1, k0, k1)
  {
    var top, bottom := Partial(a, b, r0, rm, c0, c1, k0, k1), Partial(a, b, rm, r1, c0, c1, k0, k1);
    var whole := Partial(a, b, r0, r1, c0, c1, k0, k1);
    var s := Stack(top, bottom);
    forall i, j | 0 <= i < whole.rows && 0 <= j < whole.cols
      ensures s.At(i, j) == whole.At(i, j)
    {
      if i >= top.rows {
        assert s.At(i, j) == bottom.At(i - top.rows, j);
        assert r0 + i == rm + (i - top.rows);
      }
    }
    SameCells(s, whole);
  }

  /** Placing the fragments for columns [c0, cm) and [cm, c1) side by side gives
      the fragment for columns [c0, c1). */
  lemma BesideColRanges(a: Grid, b: Grid, r0: nat, r1: nat, c0: nat, cm: nat, c1: nat, k0: nat, k1: nat)
    requires InBounds(a, b, r0, r1, c0, c1, k0, k1) && c0 <= cm <= c1
    ensures Beside(Partial(a, b, r0, r1, c0, cm, k0, k1), Partial(a, b, r0, r1, cm, c1, k0, k1))
         == Partial(a, b, r0, r1, c0, c1, k0, k1)
  {
    var left, right := Partial(a, b, r0, r1, c0, cm, k0, k1), Partial(a, b, r0, r1, cm, c1, k0, k1);
    var whole := Partial(a, b, r0, r1, c0, c1, k0, k1);
    var s := Beside(left, right);
    forall i, j | 0 <= i < whole.rows && 0 <= j < whole.cols
      ensures s.At(i, j) == whole.At(i, j)
    {
      if j >= left.cols {
        assert s.At(i, j) == right.At(i, j - left.cols);
        assert c0 + j == cm + (j - left.cols);
      }
    }
    SameCells(s, whole);
  }

  /** Tiling the four quadrant fragments of a block (same k-range) gives the
      fragment of the whole block. */
  lemma TileQuadrants(a: Grid, b: Grid, r0: nat, rm: nat, r1: nat, c0: nat, cm: nat, c1: nat, k0: nat, k1: nat)
    requires InBounds(a, b, r0, r1, c0, c1, k0, k1) && r0 <= rm <= r1 && c0 <= cm <= c1
    ensures Tile(Partial(a, b, r0, rm, c0, cm, k0, k1), Partial(a, b, r0, rm, cm, c1, k0, k1),
                 Partial(a, b, rm, r1, c0, cm, k0, k1), Partial(a, b, rm, r1, cm, c1, k0, k1))
         == Partial(a, b, r0, r1, c0, c1, k0, k1)
  {
    BesideColRanges(a, b, r0, rm, c0, cm, c1, k0, k1);
    BesideColRanges(a, b, rm, r1, c0, cm, c1, k0, k1);
    StackRowRanges(a, b, r0, rm, r1, c0, c1, k0, k1);
  }

  /** Adding the fragments of one block over the k-ranges [k0, km) and
      [km, k1) gives the fragment of that block over [k0, k1). */
  lemma SumKRanges(a: Grid, b: Grid, r0: nat, r1: nat, c0: nat, c1: nat, k0: nat, km: nat, k1: nat)
    requires InBounds(a, b, r0, r1, c0, c1, k0, k1) && k0 <= km <= k1
    ensures Sum(Partial(a, b, r0, r1, c0, c1, k0, km), Partial(a, b, r0, r1, c0, c1, km, k1))
         == Partial(a, b, r0, r1, c0, c1, k0, k1)
  {
    var lower, upper := Partial(a, b, r0, r1, c0, c1, k0, km), Partial(a, b, r0, r1, c0, c1, km, k1);
    var whole := Partial(a, b, r0, r1, c0, c1, k0, k1);
    var s := Sum(lower, upper);
    forall i, j | 0 <= i < whole.rows && 0 <= j < whole.cols
      ensures s.At(i, j) == whole.At(i, j)
    {
      DotSplit(a, b, r0 + i, c0 + j, k0, km, k1);
    }
    SameCells(s, whole);
  }

  /** The all-zero `r × c` grid. */
  function ZeroGrid(r: nat, c: nat): (z: Grid)
    ensures z.Valid() && z.rows == r && z.cols == c
    ensures forall i, j :: 0 <= i < r && 0 <= j < c ==> z.At(i, j) == 0
  {
    Grid(r, c, seq(r, _ => seq(c, _ => 0)))
  }

  /** The `n × n` identity: 1 on the diagonal, 0 elsewhere. */
  function Identity(n: nat): (e: Grid)
    ensures e.Valid() && e.rows == n && e.cols == n
    ensures forall i, j :: 0 <= i < n && 0 <= j < n ==> e.At(i, j) == if i == j then 1 else 0
  {
    Grid(n, n, seq(n, i => seq(n, j => if i == j then 1 else 0)))
  }

  /** Every cell of `g` multiplied by `c`. */
  function Scale(c: int, g: Grid): (s: Grid)
    requires g.Valid()
    ensures s.Valid() && s.rows == g.rows && s.cols == g.cols
    ensures forall i, j :: 0 <= i < g.rows && 0 <= j < g.cols ==> s.At(i, j) == c * g.At(i, j)
  {
    Grid(g.rows, g.cols,
      seq(g.rows, i requires 0 <= i < g.rows =>
        seq(g.cols, j requires 0 <= j < g.cols => c * g.At(i, j))))
  }

  /** Against the identity, the dot product over [0, hi) picks out cell (i, j)
      of `a` once k has passed j, and is 0 before. */
  lemma {:induction false} DotIdentity(a: Grid, i: nat, j: nat, hi: nat)
    requires a.Valid() && i < a.rows && j < a.cols && hi <= a.cols
    ensures Dot(a, Identity(a.cols), i, j, 0, hi) == if j < hi then a.At(i, j) else 0
    decreases hi
  {
    if hi > 0 {
      DotIdentity(a, i, j, hi - 1);
    }
  }

  /** Against a zero matrix, every partial dot product is 0. */
  lemma {:induction false} DotZero(a: Grid, n: nat, i: nat, j: nat, hi: nat)
    requires a.Valid() && i < a.rows && j < n && hi <= a.cols
    ensures Dot(a, ZeroGrid(a.cols, n), i, j, 0, hi) == 0
    decreases hi
  {
    if hi > 0 {
      DotZero(a, n, i, j, hi - 1);
    }
  }

  /** Scaling `b` by `c` scales every partial dot product by `c`. */
  lemma {:induction false} DotScale(a: Grid, c: int, b: Grid, i: nat, j: nat, hi: nat)
    requires Conformable(a, b) && i < a.rows && j < b.cols && hi <= a.cols
    ensures Dot(a, Scale(c, b), i, j, 0, hi) == c * Dot(a, b, i, j, 0, hi)
    decreases hi
  {
    if hi > 0 {
      DotScale(a, c, b, i, j, hi - 1);
      var x, y := a.At(i, hi - 1), b.At(hi - 1, j);
      assert x * (c * y) == c * (x * y);
    }
  }

  /** Multiplying by the identity leaves a matrix unchanged. */
  lemma ProductIdentity(a: Grid)
    requires a.Valid()
    ensures Product(a, Identity(a.cols)) == a
  {
    var p := Product(a, Identity(a.cols));
    forall i, j | 0 <= i < a.rows && 0 <= j < a.cols
      ensures p.At(i, j) == a.At(i, j)
    {
      DotIdentity(a, i, j, a.cols);
    }
    SameCells(p, a);
  }

  /** Multiplying by a zero matrix gives the zero matrix of the product's shape. */
  lemma ProductZero(a: Grid, n: nat)
    requires a.Valid()
    ensures Product(a, ZeroGrid(a.cols, n)) == ZeroGrid(a.rows, n)
  {
    var p := Product(a, ZeroGrid(a.cols, n));
    forall i, j | 0 <= i < a.rows && 0 <= j < n
      ensures p.At(i, j) == 0
    {
      DotZero(a, n, i, j, a.cols);
    }
    SameCells(p, ZeroGrid(a.rows, n));
  }

  /** A scalar factor on the right operand comes out of the product. */
  lemma ProductScale(a: Grid, c: int, b: Grid)
    requires Conformable(a, b)
    ensures Product(a, Scale(c, b)) == Scale(c, Product(a, b))
  {
    var p, q := Product(a, Scale(c, b)), Scale(c, Product(a, b));
    forall i, j | 0 <= i < a.rows && 0 <= j < b.cols
      ensures p.At(i, j) == q.At(i, j)
    {
      DotScale(a, c, b, i, j, a.cols);
    }
    SameCells(p, q);
  }

  /** The 2 × 2 case: [[1, 2], [3, 4]] · [[5, 6], [7, 8]] == [[19, 22], [43, 50]]. */
  lemma TwoByTwo()
    ensures Product(Grid(2, 2, [[1, 2], [3, 4]]), Grid(2, 2, [[5, 6], [7, 8]]))
         == Grid(2, 2, [[19, 22], [43, 50]])
  {
    var a, b := Grid(2, 2, [[1, 2], [3, 4]]), Grid(2, 2, [[5, 6], [7, 8]]);
    var c := Product(a, b);
    var expected := Grid(2, 2, [[19, 22], [43, 50]]);
    forall i, j | 0 <= i < 2 && 0 <= j < 2
      ensures c.At(i, j) == expected.At(i, j)
    {
      assert Dot(a, b, i, j, 0, 2) == Dot(a, b, i, j, 0, 1) + a.At(i, 1) * b.At(1, j);
      assert Dot(a, b, i, j, 0, 1) == a.At(i, 0) * b.At(0, j);
    }
    SameCells(c, expected);
  }

  /** Java's `(lo + hi) / 2`; Dafny's `/` agrees with it for the
      non-negative bounds used here. */
  function Midpoint(lo: int, hi: int): (m: int)
    ensures 0 <= lo <= hi ==> lo <= m <= hi
    ensures 0 <= lo && lo + 1 < hi ==> lo < m < hi
  {
    (lo + hi) / 2
  }
}
