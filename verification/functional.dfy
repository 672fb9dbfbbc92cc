/** `apply` and `apply_inplace`: an element-wise function over a matrix. */
module Functional {
  import opened Matrices
  import Linalg

  /** `apply(a, f)`: a new matrix of `a`'s shape whose buffer element `i` is
      `f(a[i])`; the element type may change. */
  function Apply<T, U>(a: Matrix<T>, f: T -> U): (r: Matrix<U>)
    ensures r.rows == a.rows && r.cols == a.cols && |r.data| == |a.data|
    ensures a.Valid() ==> r.Valid()
    ensures forall i :: 0 <= i < |a.data| ==> r.data[i] == f(a.data[i])
  {
    Matrix(a.rows, a.cols, seq(|a.data|, i requires 0 <= i < |a.data| => f(a.data[i])))
  }

  /** `apply_inplace(a, f)`: element `i` is overwritten with `f(a[i])`, in
      buffer order. A mutator `void f(T&)` is the same as a function from the
      old element to the new one. The loop computes `Apply`. */
  method ApplyInPlace<T>(a: Matrix<T>, f: T -> T) returns (r: Matrix<T>)
    ensures r == Apply(a, f)
  {
    var data := a.data;
    var i := 0;
    while i < |data|
      invariant 0 <= i <= |data| && |data| == |a.data|
      invariant forall j :: 0 <= j < i ==> data[j] == f(a.data[j])
      invariant forall j :: i <= j < |data| ==> data[j] == a.data[j]
    {
      data := data[i := f(data[i])];
      i := i + 1;
    }
    r := Matrix(a.rows, a.cols, data);
    assert r.data == Apply(a, f).data;
  }

  /** Applying the identity function copies the matrix. */
  lemma ApplyIdentity<T>(a: Matrix<T>)
    ensures Apply(a, x => x) == a
  {
    assert Apply(a, x => x).data == a.data;
  }

  /** Applying `f` and then `g` is applying their composition once. */
  lemma ApplyCompose<T, U, V>(a: Matrix<T>, f: T -> U, g: U -> V)
    ensures Apply(Apply(a, f), g) == Apply(a, x => g(f(x)))
  {
    assert Apply(Apply(a, f), g).data == Apply(a, x => g(f(x))).data;
  }

  /** The kernel's `negate` and `mul_scalar` are `apply` with the matching lambda. */
  lemma KernelOpsAreApply(a: Matrix<real>, k: real)
    requires a.Valid()
    ensures Linalg.Negate(a) == Apply(a, x => -x)
    ensures Linalg.MulScalar(a, k) == Apply(a, x => x * k)
  {
    var n, m := Linalg.Negate(a), Apply(a, x => -x);
    forall i | 0 <= i < |a.data|
      ensures n.data[i] == m.data[i]
    {
      assert n.data[i] + a.data[i] == 0.0;
    }
    assert n.data == m.data;
    assert Linalg.MulScalar(a, k).data == Apply(a, x => x * k).data;
  }
}
