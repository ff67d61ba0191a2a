/** The reference strategy (algorithms/SequentialMultiplier.java): the
    triple loop whose result the parallel strategies must reproduce. */
module Sequential {
  import opened Grids
  import opened Matrices

  class SequentialMultiplier {
    constructor () {}

    /** Rejects `A.cols != B.rows` before allocating anything; otherwise fills
        a fresh `A.rows × B.cols` matrix cell by cell, each cell a running sum
        over k ascending. `A` and `B` are only read. */
    method Multiply(A: Matrix, B: Matrix) returns (r: Outcome)
      requires A.Valid() && B.Valid()
      ensures MultiplyOutcome(A, B, r)
      ensures r.Success? ==> fresh(r.c) && fresh(r.c.data)
    {
      if A.cols != B.rows {
        return DimensionMismatch(A.rows, A.cols, B.rows, B.cols);
      }
      ghost var a, b := A.Value(), B.Value();
      var C := new Matrix(A.rows, B.cols);
      for i := 0 to A.rows
        invariant forall i', j :: 0 <= i' < i && 0 <= j < B.cols ==> C.data[i', j] == Dot(a, b, i', j, 0, A.cols)
        invariant forall i', j :: i <= i' < A.rows && 0 <= j < B.cols ==> C.data[i', j] == 0
      {
        FillRow(A, B, C, i, i, 0, 0, A.cols);
        assert A.Value() == a && B.Value() == b;
      }
      ValueIsPartial(C, a, b, 0, A.rows, 0, B.cols, 0, A.cols);
      return Success(C);
    }
  }
}
