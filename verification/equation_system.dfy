/** `equation_system`: a validated linear system `A x = b`. */
module EquationSystems {
  import opened Exceptions
  import opened Matrices
  import opened Helpers

  /** `A` is `n x n` and `b` is a row or column vector of length `n`; only
      `MakeSystem` builds values that satisfy this. */
  datatype EquationSystem = EquationSystem(A: Matrix<real>, b: Matrix<real>) {

    /** `n()`: the number of unknowns. */
    function N(): nat {
      A.rows
    }
  }

  /** The constructor: the matrices are stored, then `require_squareness(A)`
      (throwing `invalid_argument`), then `invalid_argument` unless `b` is a
      vector whose `vector_length` is `n`. */
  function MakeSystem(A: Matrix<real>, b: Matrix<real>): (r: Result<EquationSystem>)
    ensures r.Ok? <==> A.rows == A.cols && IsVector(b) && VectorLength(b).value == A.rows
    ensures r.Err? ==> r.error == InvalidArgument
    ensures r.Ok? ==> r.value.A == A && r.value.b == b
  {
    var check := RequireSquareness(A);
    if check.Fail? then Err(check.error)
    else if !IsVector(b) || VectorLength(b).value != A.rows then Err(InvalidArgument)
    else Ok(EquationSystem(A, b))
  }

  /** A constructed system has `n` equations and `n` right-hand sides: `A`
      is `n x n` and `b` holds exactly `n` elements. */
  lemma SystemShape(A: Matrix<real>, b: Matrix<real>)
    requires b.Valid() && MakeSystem(A, b).Ok?
    ensures MakeSystem(A, b).value.N() == A.rows == A.cols == b.Size()
    ensures b.rows == b.Size() || b.cols == b.Size()
  {
  }

  /** A column `n x 1` is accepted exactly when `A` is `n x n`. */
  lemma ColumnRightHandSide(A: Matrix<real>, b: Matrix<real>)
    requires b.cols == 1
    ensures MakeSystem(A, b).Ok? <==> A.rows == A.cols == b.rows
  {
  }
}
