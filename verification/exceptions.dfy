/** The C++ exceptions thrown by the containers and the kernel, as values.

    Every operation that can throw returns a `Result` (a value or an error) or
    an `Outcome` (a pass or an error); both work with Dafny's `:-` operator.
 */
module Exceptions {

  /** The exception classes the library raises.
      - `OutOfRange`: `std::out_of_range` (bad index, bad row/column, empty front/back)
      - `InvalidArgument`: `std::invalid_argument` (shape, vector, permutation,
        null buffer, division by zero, degenerate norm)
      - `EmptySystem`: the driver's early exit when no residual functions exist
      - `SolverFailure`: a failure of the linear solver `solve_lup()`, which the
        repository calls but never defines; the solver is a parameter of the
        Newton driver, no member here produces this kind itself, and the
        driver passes on whichever kind the solver returns unchanged */
  datatype Error = OutOfRange | InvalidArgument | EmptySystem | SolverFailure

  /** A possibly null pointer to a buffer. */
  datatype Option<+T> = None | Some(value: T)

  /** A value, or the exception that replaced it. */
  datatype Result<+T> = Ok(value: T) | Err(error: Error) {

    predicate IsFailure() {
      Err?
    }

    function PropagateFailure<U>(): Result<U>
      requires Err?
    {
      Err(error)
    }

    function Extract(): T
      requires Ok?
    {
      value
    }
  }

  /** The result of a check that returns nothing but may throw. */
  datatype Outcome = Pass | Fail(error: Error) {

    predicate IsFailure() {
      Fail?
    }

    function PropagateFailure<U>(): Result<U>
      requires Fail?
    {
      Err(error)
    }
  }
}
