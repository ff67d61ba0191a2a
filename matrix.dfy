/** The dense matrix container (matrix/Matrix.java) and the outcome every
    multiplication strategy returns. */
module Matrices {
  import opened Grids

  /** A `rows × cols` matrix. Like the Java fields, `rows`, `cols` and the
      reference `data` are fixed at construction; the cells are not. */
  class Matrix {
    const rows: nat
    const cols: nat
    const data: array2<int>

    /** The storage has exactly the declared shape. */
    ghost predicate Valid() {
      data.Length0 == rows && data.Length1 == cols
    }

    /** What the matrix holds now. */
    ghost function Value(): (g: Grid)
      reads data
      requires Valid()
      ensures g.Valid() && g.rows == rows && g.cols == cols
      ensures forall i, j :: 0 <= i < rows && 0 <= j < cols ==> g.At(i, j) == data[i, j]
    {
      Grid(rows, cols,
        seq(rows, i requires 0 <= i < rows reads data =>
          seq(cols, j requires 0 <= j < cols reads data => data[i, j])))
    }

    /** A new `r × c` matrix, every cell 0. */
    constructor (r: nat, c: nat)
      ensures Valid() && rows == r && cols == c && fresh(data)
      ensures forall i, j :: 0 <= i < r && 0 <= j < c ==> data[i, j] == 0
    {
      rows, cols := r, c;
      data := new int[r, c]((_, _) => 0);
    }

    /** `random(r, c)`: a new `r × c` matrix filled row by row, one draw per
        cell; `draw(n)` stands for the n-th value the random source yields. */
    static method Random(r: nat, c: nat, draw: nat -> int) returns (m: Matrix)
      ensures fresh(m) && fresh(m.data) && m.Valid() && m.rows == r && m.cols == c
      ensures forall i, j :: 0 <= i < r && 0 <= j < c ==> m.data[i, j] == draw(i * c + j)
    {
      m := new Matrix(r, c);
      var n := 0;
      for i := 0 to r
        invariant n == i * c
        invariant forall i', j :: 0 <= i' < i && 0 <= j < c ==> m.data[i', j] == draw(i' * c + j)
      {
        for j := 0 to c
          invariant n == i * c + j
          invariant forall i', j' :: 0 <= i' < i && 0 <= j' < c ==> m.data[i', j'] == draw(i' * c + j')
          invariant forall j' :: 0 <= j' < j ==> m.data[i, j'] == draw(i * c + j')
        {
          m.data[i, j] := draw(n);
          n := n + 1;
        }
      }
    }

    method GetRowCount() returns (n: int)
      requires Valid()
      ensures n == rows && n == data.Length0
    {
      n := rows;
    }

    method GetColCount() returns (n: int)
      requires Valid()
      ensures n == cols && n == data.Length1
    {
      n := cols;
    }
  }

  /** Row `i` of `m` filled from row `row` of `A · B`: cell (i, j) becomes the
      running sum over k ascending in [k0, k1) for column c0 + j. The inner two
      loops of every base case; the other rows of `m` are left as they were. */
  method FillRow(A: Matrix, B: Matrix, m: Matrix, i: nat, row: nat, c0: nat, k0: nat, k1: nat)
    requires A.Valid() && B.Valid() && m.Valid() && A.cols == B.rows
    requires m.data != A.data && m.data != B.data
    requires i < m.rows && row < A.rows && c0 + m.cols <= B.cols && k0 <= k1 <= A.cols
    modifies m.data
    ensures forall j :: 0 <= j < m.cols ==> m.data[i, j] == Dot(A.Value(), B.Value(), row, c0 + j, k0, k1)
    ensures forall i', j :: 0 <= i' < m.rows && i' != i && 0 <= j < m.cols ==> m.data[i', j] == old(m.data[i', j])
  {
    ghost var a, b := A.Value(), B.Value();
    for j := 0 to m.cols
      invariant forall j' :: 0 <= j' < j ==> m.data[i, j'] == Dot(a, b, row, c0 + j', k0, k1)
      invariant forall i', j' :: 0 <= i' < m.rows && i' != i && 0 <= j' < m.cols ==> m.data[i', j'] == old(m.data[i', j'])
    {
      var sum := 0;
      for k := k0 to k1
        invariant sum == Dot(a, b, row, c0 + j, k0, k)
      {
        sum := sum + A.data[row, k] * B.data[k, c0 + j];
      }
      m.data[i, j] := sum;
    }
  }

  /** A matrix holds `g` when its shape and every cell agree with `g`. */
  lemma ValueIs(m: Matrix, g: Grid)
    requires m.Valid() && g.Valid() && g.rows == m.rows && g.cols == m.cols
    requires forall i, j :: 0 <= i < m.rows && 0 <= j < m.cols ==> m.data[i, j] == g.At(i, j)
    ensures m.Value() == g
  {
    SameCells(m.Value(), g);
  }

  /** A matrix whose cell (i, j) is the partial dot product for cell
      (r0 + i, c0 + j) over [k0, k1) holds that fragment of `a · b`. */
  lemma ValueIsPartial(m: Matrix, a: Grid, b: Grid, r0: nat, r1: nat, c0: nat, c1: nat, k0: nat, k1: nat)
    requires InBounds(a, b, r0, r1, c0, c1, k0, k1)
    requires m.Valid() && m.rows == r1 - r0 && m.cols == c1 - c0
    requires forall i, j :: 0 <= i < m.rows && 0 <= j < m.cols ==> m.data[i, j] == Dot(a, b, r0 + i, c0 + j, k0, k1)
    ensures m.Value() == Partial(a, b, r0, r1, c0, c1, k0, k1)
  {
    ValueIs(m, Partial(a, b, r0, r1, c0, c1, k0, k1));
  }

  /** A matrix whose first rows copy `top` and whose remaining rows copy
      `bottom` holds the two stacked. */
  lemma ValueIsStack(m: Matrix, top: Matrix, bottom: Matrix)
    requires m.Valid() && top.Valid() && bottom.Valid()
    requires m.rows == top.rows + bottom.rows && m.cols == top.cols == bottom.cols
    requires forall i, j :: 0 <= i < top.rows && 0 <= j < m.cols ==> m.data[i, j] == top.data[i, j]
    requires forall i, j :: 0 <= i < bottom.rows && 0 <= j < m.cols ==> m.data[top.rows + i, j] == bottom.data[i, j]
    ensures m.Value() == Stack(top.Value(), bottom.Value())
  {
    var s := Stack(top.Value(), bottom.Value());
    forall i, j | 0 <= i < m.rows && 0 <= j < m.cols
      ensures m.data[i, j] == s.At(i, j)
    {
      if i >= top.rows {
        assert m.data[top.rows + (i - top.rows), j] == bottom.data[i - top.rows, j];
      }
    }
    ValueIs(m, s);
  }

  /** The first `n` rows of `q` sit in `m` at offset (r0, c0). */
  ghost predicate Copied(m: Matrix, q: Matrix, r0: nat, c0: nat, n: nat)
    reads m.data, q.data
    requires m.Valid() && q.Valid() && n <= q.rows && r0 + q.rows <= m.rows && c0 + q.cols <= m.cols
  {
    forall i, j :: 0 <= i < n && 0 <= j < q.cols ==> m.data[r0 + i, c0 + j] == q.data[i, j]
  }

  /** A matrix holding each of four quadrants at its offset holds their tiling. */
  lemma ValueIsTile(m: Matrix, tl: Matrix, tr: Matrix, bl: Matrix, br: Matrix)
    requires m.Valid() && tl.Valid() && tr.Valid() && bl.Valid() && br.Valid()
    requires tl.rows == tr.rows && bl.rows == br.rows && tl.cols == bl.cols && tr.cols == br.cols
    requires m.rows == tl.rows + bl.rows && m.cols == tl.cols + tr.cols
    requires forall i, j :: 0 <= i < tl.rows && 0 <= j < tl.cols ==> m.data[i, j] == tl.data[i, j]
    requires forall i, j :: 0 <= i < tr.rows && 0 <= j < tr.cols ==> m.data[i, tl.cols + j] == tr.data[i, j]
    requires forall i, j :: 0 <= i < bl.rows && 0 <= j < bl.cols ==> m.data[tl.rows + i, j] == bl.data[i, j]
    requires forall i, j :: 0 <= i < br.rows && 0 <= j < br.cols ==> m.data[tl.rows + i, tl.cols + j] == br.data[i, j]
    ensures m.Value() == Tile(tl.Value(), tr.Value(), bl.Value(), br.Value())
  {
    var top, bottom := Beside(tl.Value(), tr.Value()), Beside(bl.Value(), br.Value());
    var t := Stack(top, bottom);
    forall i, j | 0 <= i < m.rows && 0 <= j < m.cols
      ensures m.data[i, j] == t.At(i, j)
    {
      if i < tl.rows {
        assert t.At(i, j) == top.At(i, j);
        if j >= tl.cols {
          assert m.data[i, tl.cols + (j - tl.cols)] == tr.data[i, j - tl.cols];
        }
      } else {
        var i' := i - tl.rows;
        assert t.At(i, j) == bottom.At(i', j);
        if j < tl.cols {
          assert m.data[tl.rows + i', j] == bl.data[i', j];
        } else {
          assert m.data[tl.rows + i', tl.cols + (j - tl.cols)] == br.data[i', j - tl.cols];
        }
      }
    }
    ValueIs(m, t);
  }

  /** What `multiply(A, B)` yields: the product, or the
      IllegalArgumentException raised when `A.cols != B.rows`, with the four
      dimensions its message reports. */
  datatype Outcome =
    | Success(c: Matrix)
    | DimensionMismatch(aRows: nat, aCols: nat, bRows: nat, bCols: nat)

  /** The contract shared by the three strategies: a mismatch is reported
      exactly when `A.cols != B.rows`, and otherwise the result is the product. */
  ghost predicate MultiplyOutcome(A: Matrix, B: Matrix, r: Outcome)
    reads A.data, B.data, if r.Success? then {r.c.data} else {}
    requires A.Valid() && B.Valid()
  {
    && (r.DimensionMismatch? <==> A.cols != B.rows)
    && (r.DimensionMismatch? ==> r == DimensionMismatch(A.rows, A.cols, B.rows, B.cols))
    && (r.Success? ==>
          && r.c.Valid() && r.c.rows == A.rows && r.c.cols == B.cols
          && r.c.Value() == Product(A.Value(), B.Value()))
  }
}
