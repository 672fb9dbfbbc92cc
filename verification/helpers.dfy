/** Shape guards and the uniform "vector" view of `1 x N` and `N x 1`
    matrices (`miv::math` helpers). */
module Helpers {
  import opened Exceptions
  import opened Matrices
  import Arrays

  /** `require_same_shape`: throws `invalid_argument` iff rows or cols differ. */
  function RequireSameShape<T>(a: Matrix<T>, b: Matrix<T>): (r: Outcome)
    ensures r.Fail? <==> a.rows != b.rows || a.cols != b.cols
    ensures r.Fail? ==> r.error == InvalidArgument
  {
    if a.rows != b.rows || a.cols != b.cols then Fail(InvalidArgument) else Pass
  }

  /** `require_mmul_compatible`: throws `invalid_argument` iff `a.cols != b.rows`. */
  function RequireMmulCompatible<T>(a: Matrix<T>, b: Matrix<T>): (r: Outcome)
    ensures r.Fail? <==> a.cols != b.rows
    ensures r.Fail? ==> r.error == InvalidArgument
  {
    if a.cols != b.rows then Fail(InvalidArgument) else Pass
  }

  /** `require_squareness`: throws `invalid_argument` iff `rows != cols`. */
  function RequireSquareness<T>(a: Matrix<T>): (r: Outcome)
    ensures r.Fail? <==> a.rows != a.cols
    ensures r.Fail? ==> r.error == InvalidArgument
  {
    if a.cols != a.rows then Fail(InvalidArgument) else Pass
  }

  /** `is_vector`: a row vector `1 x N` or a column vector `N x 1`. The
      buffer of a valid vector holds one element per row or one per column. */
  predicate IsVector<T>(v: Matrix<T>): (r: bool)
    ensures r && v.Valid() ==> v.Size() == v.rows || v.Size() == v.cols
  {
    v.rows == 1 || v.cols == 1
  }

  /** `vector_length`: `cols` for a row vector (this wins for `1 x 1`), `rows`
      for a column vector, and `invalid_argument` otherwise. For a valid
      matrix the length is the buffer size. */
  function VectorLength<T>(v: Matrix<T>): (r: Result<nat>)
    ensures r.Ok? <==> IsVector(v)
    ensures r.Err? ==> r.error == InvalidArgument
    ensures r.Ok? && v.rows == 1 ==> r.value == v.cols
    ensures r.Ok? && v.rows != 1 ==> r.value == v.rows
    ensures r.Ok? && v.Valid() ==> r.value == v.Size()
  {
    if v.rows == 1 then Ok(v.cols)
    else if v.cols == 1 then Ok(v.rows)
    else Err(InvalidArgument)
  }

  /** `vector_at(v, i)`: `v(0, i)` for a row vector, `v(i, 0)` for a column
      vector, `invalid_argument` otherwise. Either way element `i` of the
      vector is buffer element `i`. */
  function VectorAt<T>(v: Matrix<T>, i: nat): (r: Result<T>)
    requires v.Valid()
    ensures !IsVector(v) ==> r == Err(InvalidArgument)
    ensures IsVector(v) ==> (r.Ok? <==> i < v.Size())
    ensures IsVector(v) && r.Err? ==> r.error == OutOfRange
    ensures r.Ok? ==> r.value == v.data[i]
  {
    if v.rows == 1 then At(v, 0, i)
    else if v.cols == 1 then At(v, i, 0)
    else Err(InvalidArgument)
  }

  /** `vector_at` reads cell `(0, i)` of a row vector and cell `(i, 0)` of a
      column vector. */
  lemma VectorAtCell<T>(v: Matrix<T>, i: nat)
    requires v.Valid() && IsVector(v) && i < v.Size()
    ensures v.rows == 1 ==> VectorAt(v, i) == Ok(v.Cell(0, i))
    ensures v.rows != 1 ==> VectorAt(v, i) == Ok(v.Cell(i, 0))
  {
  }

  /** `permute_vector`: a row vector permutes its columns, a column vector
      its rows; anything else throws `invalid_argument`. On success element
      `i` of the result is element `perm[i]` of the input. */
  method PermuteVector<T>(v: Matrix<T>, perm: Arrays.Array<nat>) returns (r: Result<Matrix<T>>)
    requires v.Valid()
    ensures !IsVector(v) ==> r == Err(InvalidArgument)
    ensures IsVector(v) ==> (r.Err? <==> !IsPermutation(perm.items, v.Size()))
    ensures IsVector(v) && r.Err? ==> PermutationCheck(perm.items, v.Size()) == Fail(r.error)
    ensures r.Ok? ==> (r.value.Valid() && r.value.rows == v.rows && r.value.cols == v.cols
      && forall i :: 0 <= i < v.Size() ==> r.value.data[i] == v.data[perm.items[i]])
  {
    if v.rows == 1 {
      r := ColPermute(v, perm);
      if r.Ok? {
        forall i | 0 <= i < v.Size()
          ensures r.value.data[i] == v.data[perm.items[i]]
        {
          assert r.value.Cell(0, i) == v.Cell(0, perm.items[i]);
        }
      }
    } else if v.cols == 1 {
      r := RowPermute(v, perm);
      if r.Ok? {
        forall i | 0 <= i < v.Size()
          ensures r.value.data[i] == v.data[perm.items[i]]
        {
          assert r.value.Cell(i, 0) == v.Cell(perm.items[i], 0);
        }
      }
    } else {
      r := Err(InvalidArgument);
    }
  }
}
