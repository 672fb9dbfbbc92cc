/** The dense linear-algebra kernel of `miv::math` over exact reals.

    The C++ code accumulates sums, norms and dot products in `long double`;
    here every accumulator is an exact `real`, so the order of accumulation
    does not matter and `Sum` is a left fold like the `acc += ...` loops.
 */
module Linalg {
  import opened Exceptions
  import opened Matrices
  import opened Helpers
  import Arrays

  // ---------------------------------------------------------------------------
  // Scalars and sequences of reals
  // ---------------------------------------------------------------------------

  /** `std::abs` */
  function Abs(x: real): real {
    if x < 0.0 then -x else x
  }

  /** `std::min(a, b)`: `(b < a) ? b : a` */
  function Min(a: real, b: real): real {
    if b < a then b else a
  }

  /** `std::max(a, b)`: `(a < b) ? b : a` */
  function Max(a: real, b: real): real {
    if a < b then b else a
  }

  /** The `acc += s[i]` loop, from `acc = 0`. */
  function Sum(s: seq<real>): real {
    if |s| == 0 then 0.0 else Sum(s[..|s| - 1]) + s[|s| - 1]
  }

  function Abses(s: seq<real>): (r: seq<real>)
    ensures |r| == |s| && forall i :: 0 <= i < |s| ==> r[i] == Abs(s[i])
  {
    seq(|s|, i requires 0 <= i < |s| => Abs(s[i]))
  }

  function Products(s: seq<real>, t: seq<real>): (r: seq<real>)
    requires |s| == |t|
    ensures |r| == |s| && forall i :: 0 <= i < |s| ==> r[i] == s[i] * t[i]
  {
    seq(|s|, i requires 0 <= i < |s| => s[i] * t[i])
  }

  /** `t` is `s` scaled element by element by `c`. */
  predicate Scaled(s: seq<real>, t: seq<real>, c: real) {
    |s| == |t| && forall i :: 0 <= i < |s| ==> t[i] == s[i] * c
  }

  lemma {:induction false} SumScale(s: seq<real>, t: seq<real>, c: real)
    requires Scaled(s, t, c)
    ensures Sum(t) == Sum(s) * c
    decreases |s|
  {
    if |s| != 0 {
      SumScale(s[..|s| - 1], t[..|t| - 1], c);
    }
  }

  lemma {:induction false} SumNonNegative(s: seq<real>)
    requires forall i :: 0 <= i < |s| ==> s[i] >= 0.0
    ensures Sum(s) >= 0.0
    decreases |s|
  {
    if |s| != 0 {
      SumNonNegative(s[..|s| - 1]);
    }
  }

  /** A sum of non-negative terms is 0 exactly when every term is 0. */
  lemma {:induction false} SumZeroIffAllZero(s: seq<real>)
    requires forall i :: 0 <= i < |s| ==> s[i] >= 0.0
    ensures Sum(s) == 0.0 <==> forall i :: 0 <= i < |s| ==> s[i] == 0.0
    decreases |s|
  {
    if |s| != 0 {
      var init := s[..|s| - 1];
      SumZeroIffAllZero(init);
      SumNonNegative(init);
      if Sum(s) == 0.0 {
        forall i | 0 <= i < |s|
          ensures s[i] == 0.0
        {
          if i < |s| - 1 {
            assert s[i] == init[i];
          }
        }
      }
    }
  }

  /** Every non-negative term is bounded by the sum. */
  lemma {:induction false} TermBelowSum(s: seq<real>, k: nat)
    requires forall i :: 0 <= i < |s| ==> s[i] >= 0.0
    requires k < |s|
    ensures s[k] <= Sum(s)
    decreases |s|
  {
    var init := s[..|s| - 1];
    if k == |s| - 1 {
      SumNonNegative(init);
    } else {
      TermBelowSum(init, k);
    }
  }

  /** Terms between `lo` and `hi` give a sum between `|s| * lo` and `|s| * hi`. */
  lemma {:induction false} SumBounds(s: seq<real>, lo: real, hi: real)
    requires forall i :: 0 <= i < |s| ==> lo <= s[i] <= hi
    ensures |s| as real * lo <= Sum(s) <= |s| as real * hi
    decreases |s|
  {
    if |s| != 0 {
      var init, last := s[..|s| - 1], s[|s| - 1];
      var m := |init| as real;
      SumBounds(init, lo, hi);
      assert Sum(s) == Sum(init) + last;
      assert m * lo <= Sum(init) <= m * hi;
      assert lo <= last <= hi;
      assert |s| as real * lo == m * lo + lo && |s| as real * hi == m * hi + hi;
    }
  }

  // ---------------------------------------------------------------------------
  // Element-wise arithmetic
  // ---------------------------------------------------------------------------

  /** An output of `a`'s shape whose buffer element `i` is `f(a[i])`. */
  function Pointwise(a: Matrix<real>, f: real -> real): (r: Matrix<real>)
    requires a.Valid()
    ensures r.Valid() && r.rows == a.rows && r.cols == a.cols
    ensures forall i :: 0 <= i < a.Size() ==> r.data[i] == f(a.data[i])
  {
    Matrix(a.rows, a.cols, seq(|a.data|, i requires 0 <= i < |a.data| => f(a.data[i])))
  }

  /** An output of the common shape whose buffer element `i` is `f(a[i], b[i])`. */
  function Pointwise2(a: Matrix<real>, b: Matrix<real>, f: (real, real) -> real): (r: Matrix<real>)
    requires a.Valid() && b.Valid() && a.rows == b.rows && a.cols == b.cols
    ensures r.Valid() && r.rows == a.rows && r.cols == a.cols
    ensures forall i :: 0 <= i < a.Size() ==> r.data[i] == f(a.data[i], b.data[i])
  {
    Matrix(a.rows, a.cols, seq(|a.data|, i requires 0 <= i < |a.data| => f(a.data[i], b.data[i])))
  }

  /** `add`: `invalid_argument` on a shape mismatch, else `out[i] = a[i] + b[i]`. */
  function Add(a: Matrix<real>, b: Matrix<real>): (r: Result<Matrix<real>>)
    requires a.Valid() && b.Valid()
    ensures r.Err? <==> a.rows != b.rows || a.cols != b.cols
    ensures r.Err? ==> r.error == InvalidArgument
    ensures r.Ok? ==> (r.value.Valid() && r.value.rows == a.rows && r.value.cols == a.cols
      && forall i :: 0 <= i < a.Size() ==> r.value.data[i] == a.data[i] + b.data[i])
  {
    var check := RequireSameShape(a, b);
    if check.Fail? then Err(check.error) else
      Ok(Pointwise2(a, b, (x, y) => x + y))
  }

  /** `sub`: `invalid_argument` on a shape mismatch, else `out[i] = a[i] - b[i]`. */
  function Sub(a: Matrix<real>, b: Matrix<real>): (r: Result<Matrix<real>>)
    requires a.Valid() && b.Valid()
    ensures r.Err? <==> a.rows != b.rows || a.cols != b.cols
    ensures r.Err? ==> r.error == InvalidArgument
    ensures r.Ok? ==> (r.value.Valid() && r.value.rows == a.rows && r.value.cols == a.cols
      && forall i :: 0 <= i < a.Size() ==> r.value.data[i] == a.data[i] - b.data[i])
  {
    var check := RequireSameShape(a, b);
    if check.Fail? then Err(check.error) else
      Ok(Pointwise2(a, b, (x, y) => x - y))
  }

  /** `hadamard`: `invalid_argument` on a shape mismatch, else `out[i] = a[i] * b[i]`. */
  function Hadamard(a: Matrix<real>, b: Matrix<real>): (r: Result<Matrix<real>>)
    requires a.Valid() && b.Valid()
    ensures r.Err? <==> a.rows != b.rows || a.cols != b.cols
    ensures r.Err? ==> r.error == InvalidArgument
    ensures r.Ok? ==> (r.value.Valid() && r.value.rows == a.rows && r.value.cols == a.cols
      && forall i :: 0 <= i < a.Size() ==> r.value.data[i] == a.data[i] * b.data[i])
  {
    var check := RequireSameShape(a, b);
    if check.Fail? then Err(check.error) else
      Ok(Pointwise2(a, b, (x, y) => x * y))
  }

  /** `elementwise_min`: `invalid_argument` on a shape mismatch, else `out[i] = min(a[i], b[i])`. */
  function ElementwiseMin(a: Matrix<real>, b: Matrix<real>): (r: Result<Matrix<real>>)
    requires a.Valid() && b.Valid()
    ensures r.Err? <==> a.rows != b.rows || a.cols != b.cols
    ensures r.Err? ==> r.error == InvalidArgument
    ensures r.Ok? ==> (r.value.Valid() && r.value.rows == a.rows && r.value.cols == a.cols
      && forall i :: 0 <= i < a.Size() ==>
           r.value.data[i] <= a.data[i] && r.value.data[i] <= b.data[i]
           && (r.value.data[i] == a.data[i] || r.value.data[i] == b.data[i]))
  {
    var check := RequireSameShape(a, b);
    if check.Fail? then Err(check.error) else
      Ok(Pointwise2(a, b, Min))
  }

  /** `elementwise_max`: `invalid_argument` on a shape mismatch, else `out[i] = max(a[i], b[i])`. */
  function ElementwiseMax(a: Matrix<real>, b: Matrix<real>): (r: Result<Matrix<real>>)
    requires a.Valid() && b.Valid()
    ensures r.Err? <==> a.rows != b.rows || a.cols != b.cols
    ensures r.Err? ==> r.error == InvalidArgument
    ensures r.Ok? ==> (r.value.Valid() && r.value.rows == a.rows && r.value.cols == a.cols
      && forall i :: 0 <= i < a.Size() ==>
           r.value.data[i] >= a.data[i] && r.value.data[i] >= b.data[i]
           && (r.value.data[i] == a.data[i] || r.value.data[i] == b.data[i]))
  {
    var check := RequireSameShape(a, b);
    if check.Fail? then Err(check.error) else
      Ok(Pointwise2(a, b, Max))
  }

  /** `negate`: the shape is kept and every element changes sign. */
  function Negate(a: Matrix<real>): (r: Matrix<real>)
    requires a.Valid()
    ensures r.Valid() && r.rows == a.rows && r.cols == a.cols
    ensures forall i :: 0 <= i < a.Size() ==> r.data[i] + a.data[i] == 0.0
  {
    Pointwise(a, x => -x)
  }

  /** `mul_scalar`: the shape is kept and every element is multiplied by `k`. */
  function MulScalar(a: Matrix<real>, k: real): (r: Matrix<real>)
    requires a.Valid()
    ensures r.Valid() && r.rows == a.rows && r.cols == a.cols
    ensures forall i :: 0 <= i < a.Size() ==> r.data[i] == a.data[i] * k
  {
    Pointwise(a, x => x * k)
  }

  /** `div_scalar`: `invalid_argument` when `k == 0`, else every element is divided by `k`. */
  function DivScalar(a: Matrix<real>, k: real): (r: Result<Matrix<real>>)
    requires a.Valid()
    ensures r.Err? <==> k == 0.0
    ensures r.Err? ==> r.error == InvalidArgument
    ensures r.Ok? ==> (r.value.Valid() && r.value.rows == a.rows && r.value.cols == a.cols
      && forall i :: 0 <= i < a.Size() ==> r.value.data[i] * k == a.data[i])
  {
    if k == 0.0 then Err(InvalidArgument)
    else Ok(Pointwise(a, x => x / k))
  }

  /** Subtracting `b` undoes adding `b`. */
  lemma AddSubRoundTrip(a: Matrix<real>, b: Matrix<real>)
    requires a.Valid() && b.Valid() && a.rows == b.rows && a.cols == b.cols
    ensures Add(a, b).Ok? && Sub(Add(a, b).value, b) == Ok(a)
  {
    var s := Sub(Add(a, b).value, b).value;
    assert s.data == a.data;
  }

  /** `add` is commutative. */
  lemma AddCommutes(a: Matrix<real>, b: Matrix<real>)
    requires a.Valid() && b.Valid()
    ensures Add(a, b) == Add(b, a)
  {
    if a.rows == b.rows && a.cols == b.cols {
      assert Add(a, b).value.data == Add(b, a).value.data;
    }
  }

  /** Negating twice gives back the matrix. */
  lemma NegateInvolutive(a: Matrix<real>)
    requires a.Valid()
    ensures Negate(Negate(a)) == a
  {
    assert Negate(Negate(a)).data == a.data;
  }

  /** Dividing by a non-zero `k` undoes multiplying by `k`. */
  lemma ScaleRoundTrip(a: Matrix<real>, k: real)
    requires a.Valid() && k != 0.0
    ensures DivScalar(MulScalar(a, k), k) == Ok(a)
  {
    var d := DivScalar(MulScalar(a, k), k).value;
    forall i | 0 <= i < a.Size()
      ensures d.data[i] == a.data[i]
    {
      assert d.data[i] * k == a.data[i] * k;
    }
    assert d.data == a.data;
  }

  /** The element-wise minimum and maximum together add up to `a + b`. */
  lemma MinPlusMax(a: Matrix<real>, b: Matrix<real>)
    requires a.Valid() && b.Valid() && a.rows == b.rows && a.cols == b.cols
    ensures Add(ElementwiseMin(a, b).value, ElementwiseMax(a, b).value) == Add(a, b)
  {
    var lo, hi := ElementwiseMin(a, b).value, ElementwiseMax(a, b).value;
    assert Add(lo, hi).value.data == Add(a, b).value.data;
  }

  // ---------------------------------------------------------------------------
  // Products
  // ---------------------------------------------------------------------------

  /** `sum_{s < t} a(i, s) * b(s, j)`: the first `t` contributions to cell
      `(i, j)` of `a * b`, accumulated in ascending `s`. */
  function RowDotCol(a: Matrix<real>, b: Matrix<real>, i: nat, j: nat, t: nat): real
    requires a.Valid() && b.Valid() && a.cols == b.rows
    requires i < a.rows && j < b.cols && t <= a.cols
  {
    if t == 0 then 0.0
    else RowDotCol(a, b, i, j, t - 1) + a.Cell(i, t - 1) * b.Cell(t - 1, j)
  }

  /** `matmul`: `invalid_argument` unless `a.cols == b.rows`; otherwise an
      `m x k` result with `out(i, j) = sum_t a(i, t) * b(t, j)`. */
  function Matmul(a: Matrix<real>, b: Matrix<real>): (r: Result<Matrix<real>>)
    requires a.Valid() && b.Valid()
    ensures r.Err? <==> a.cols != b.rows
    ensures r.Err? ==> r.error == InvalidArgument
    ensures r.Ok? ==> (r.value.Valid() && r.value.rows == a.rows && r.value.cols == b.cols
      && forall i: nat, j: nat :: i < a.rows && j < b.cols ==>
           r.value.Cell(i, j) == RowDotCol(a, b, i, j, a.cols))
  {
    var check := RequireMmulCompatible(a, b);
    if check.Fail? then Err(check.error) else
      Ok(Build(a.rows, b.cols, (i: nat, j: nat) requires i < a.rows && j < b.cols =>
        RowDotCol(a, b, i, j, a.cols)))
  }

  /** The triple loop of `matmul` as written: rows `i`, then the inner index
      `t`, then columns `j`, each step doing `out(i, j) += a(i, t) * b(t, j)`
      on a zero-filled buffer. Row `i` of the buffer is built by `MatmulRow`
      and the rows are laid end to end; the whole loop computes `Matmul`. */
  method MatmulLoop(a: Matrix<real>, b: Matrix<real>) returns (r: Result<Matrix<real>>)
    requires a.Valid() && b.Valid()
    ensures r == Matmul(a, b)
  {
    if a.cols != b.rows {
      return Err(InvalidArgument);
    }
    var m, k := a.rows, b.cols;
    var rows: seq<Arrays.Array<real>> := [];
    var i := 0;
    while i < m
      invariant 0 <= i <= m && |rows| == i && AllRowsHave(rows, k)
      invariant forall ii, jj :: 0 <= ii < i && 0 <= jj < k ==>
        rows[ii].items[jj] == RowDotCol(a, b, ii, jj, a.cols)
    {
      var row := MatmulRow(a, b, i);
      rows := rows + [Arrays.Array(row)];
      i := i + 1;
    }
    ConcatLength(rows, k);
    var res := Matrix(m, k, Concat(rows));
    var want := Matmul(a, b).value;
    forall ii: nat, jj: nat | ii < m && jj < k
      ensures res.Cell(ii, jj) == want.Cell(ii, jj)
    {
      ConcatCell(rows, k, ii, jj);
    }
    CellsDetermine(res, want);
    return Ok(res);
  }

  /** Row `i` of `matmul`'s buffer: zero-filled, then for each `t` in
      ascending order `out(i, j) += a(i, t) * b(t, j)` over every `j`. */
  method MatmulRow(a: Matrix<real>, b: Matrix<real>, i: nat) returns (row: seq<real>)
    requires a.Valid() && b.Valid() && a.cols == b.rows && i < a.rows
    ensures |row| == b.cols
    ensures forall j :: 0 <= j < b.cols ==> row[j] == RowDotCol(a, b, i, j, a.cols)
  {
    row := seq(b.cols, _ => 0.0);
    var t := 0;
    while t < a.cols
      invariant 0 <= t <= a.cols && |row| == b.cols
      invariant forall j :: 0 <= j < b.cols ==> row[j] == RowDotCol(a, b, i, j, t)
    {
      row := AddScaledRow(row, a.Cell(i, t), b, t);
      t := t + 1;
    }
  }

  /** The innermost loop: `row[j] += av * b(t, j)` for every column `j`. */
  method AddScaledRow(row: seq<real>, av: real, b: Matrix<real>, t: nat) returns (r: seq<real>)
    requires b.Valid() && t < b.rows && |row| == b.cols
    ensures |r| == |row|
    ensures forall j :: 0 <= j < |row| ==> r[j] == row[j] + av * b.Cell(t, j)
  {
    r := row;
    var j := 0;
    while j < |row|
      invariant 0 <= j <= |row| && |r| == |row|
      invariant forall j' :: 0 <= j' < j ==> r[j'] == row[j'] + av * b.Cell(t, j')
      invariant forall j' :: j <= j' < |row| ==> r[j'] == row[j']
    {
      r := r[j := r[j] + av * b.Cell(t, j)];
      j := j + 1;
    }
  }

  /** `transpose`: the shape is swapped and `out(c, r) = a(r, c)`. */
  function Transpose(a: Matrix<real>): (r: Matrix<real>)
    requires a.Valid()
    ensures r.Valid() && r.rows == a.cols && r.cols == a.rows
    ensures forall c: nat, rr: nat :: c < a.cols && rr < a.rows ==> r.Cell(c, rr) == a.Cell(rr, c)
  {
    Build(a.cols, a.rows, (c: nat, rr: nat) requires c < a.cols && rr < a.rows => a.Cell(rr, c))
  }

  /** Transposing twice gives back the matrix. */
  lemma TransposeInvolutive(a: Matrix<real>)
    requires a.Valid()
    ensures Transpose(Transpose(a)) == a
  {
    CellsDetermine(Transpose(Transpose(a)), a);
  }

  /** `identity(n)`: `n x n`, 1 on the diagonal and 0 elsewhere. */
  function Identity(n: nat): (r: Matrix<real>)
    ensures r.Valid() && r.rows == n && r.cols == n
    ensures forall i: nat, j: nat :: i < n && j < n ==> r.Cell(i, j) == if i == j then 1.0 else 0.0
  {
    Build(n, n, (i: nat, j: nat) requires i < n && j < n => if i == j then 1.0 else 0.0)
  }

  lemma {:induction false} IdentityRowDotCol(a: Matrix<real>, i: nat, j: nat, t: nat)
    requires a.Valid() && i < a.rows && j < a.cols && t <= a.rows
    ensures RowDotCol(Identity(a.rows), a, i, j, t) == if i < t then a.Cell(i, j) else 0.0
  {
    if t != 0 {
      IdentityRowDotCol(a, i, j, t - 1);
    }
  }

  lemma {:induction false} RowDotColIdentity(a: Matrix<real>, i: nat, j: nat, t: nat)
    requires a.Valid() && i < a.rows && j < a.cols && t <= a.cols
    ensures RowDotCol(a, Identity(a.cols), i, j, t) == if j < t then a.Cell(i, j) else 0.0
  {
    if t != 0 {
      RowDotColIdentity(a, i, j, t - 1);
    }
  }

  /** `identity(rows) * a == a` */
  lemma MatmulIdentityLeft(a: Matrix<real>)
    requires a.Valid()
    ensures Matmul(Identity(a.rows), a) == Ok(a)
  {
    var p := Matmul(Identity(a.rows), a).value;
    forall i: nat, j: nat | i < a.rows && j < a.cols
      ensures p.Cell(i, j) == a.Cell(i, j)
    {
      IdentityRowDotCol(a, i, j, a.rows);
    }
    CellsDetermine(p, a);
  }

  /** `a * identity(cols) == a` */
  lemma MatmulIdentityRight(a: Matrix<real>)
    requires a.Valid()
    ensures Matmul(a, Identity(a.cols)) == Ok(a)
  {
    var p := Matmul(a, Identity(a.cols)).value;
    forall i: nat, j: nat | i < a.rows && j < a.cols
      ensures p.Cell(i, j) == a.Cell(i, j)
    {
      RowDotColIdentity(a, i, j, a.cols);
    }
    CellsDetermine(p, a);
  }

  // ---------------------------------------------------------------------------
  // Dot product
  // ---------------------------------------------------------------------------

  /** `dot`: `invalid_argument` when either operand is not a vector or the
      lengths differ; otherwise the sum of the pair-wise products of the
      vectors' elements, read through `vector_at`. */
  function Dot(a: Matrix<real>, b: Matrix<real>): (r: Result<real>)
    requires a.Valid() && b.Valid()
    ensures r.Ok? <==> IsVector(a) && IsVector(b) && a.Size() == b.Size()
    ensures r.Err? ==> r.error == InvalidArgument
    ensures r.Ok? ==> r.value == Sum(Products(a.data, b.data))
  {
    var na :- VectorLength(a);
    var nb :- VectorLength(b);
    if na != nb then Err(InvalidArgument)
    else
      DotAccCorrect(a, b, na);
      assert Products(a.data, b.data)[..na] == Products(a.data, b.data);
      Ok(DotAcc(a, b, na))
  }

  /** The `acc += vector_at(a, i) * vector_at(b, i)` loop over the first `t` elements. */
  function DotAcc(a: Matrix<real>, b: Matrix<real>, t: nat): real
    requires a.Valid() && b.Valid() && IsVector(a) && IsVector(b)
    requires t <= a.Size() && t <= b.Size()
  {
    if t == 0 then 0.0
    else DotAcc(a, b, t - 1) + VectorAt(a, t - 1).value * VectorAt(b, t - 1).value
  }

  lemma {:induction false} DotAccCorrect(a: Matrix<real>, b: Matrix<real>, t: nat)
    requires a.Valid() && b.Valid() && IsVector(a) && IsVector(b)
    requires t <= a.Size() && a.Size() == b.Size()
    ensures DotAcc(a, b, t) == Sum(Products(a.data, b.data)[..t])
  {
    if t != 0 {
      DotAccCorrect(a, b, t - 1);
      DotAccExtend(a, b, t);
    }
  }

  /** The accumulator and the prefix sum agree after one more element when
      they agreed before it. */
  lemma DotAccExtend(a: Matrix<real>, b: Matrix<real>, t: nat)
    requires a.Valid() && b.Valid() && IsVector(a) && IsVector(b)
    requires 0 < t <= a.Size() && a.Size() == b.Size()
    requires DotAcc(a, b, t - 1) == Sum(Products(a.data, b.data)[..t - 1])
    ensures DotAcc(a, b, t) == Sum(Products(a.data, b.data)[..t])
  {
    ProductsPrefix(a.data, b.data, t);
    DotAccStep(a, b, t);
  }

  lemma {:induction false} DotAccStep(a: Matrix<real>, b: Matrix<real>, t: nat)
    requires a.Valid() && b.Valid() && IsVector(a) && IsVector(b)
    requires 0 < t <= a.Size() && a.Size() == b.Size()
    ensures DotAcc(a, b, t) == DotAcc(a, b, t - 1) + a.data[t - 1] * b.data[t - 1]
  {
    MulCongruence(VectorAt(a, t - 1).value, VectorAt(b, t - 1).value, a.data[t - 1], b.data[t - 1]);
  }

  /** One more term of a prefix sum of products. */
  lemma ProductsPrefix(s: seq<real>, u: seq<real>, t: nat)
    requires |s| == |u| && 0 < t <= |s|
    ensures Sum(Products(s, u)[..t]) == Sum(Products(s, u)[..t - 1]) + s[t - 1] * u[t - 1]
  {
    SumPrefix(Products(s, u), t);
  }

  /** Equal factors give equal products. */
  lemma MulCongruence(x: real, y: real, x': real, y': real)
    requires x == x' && y == y'
    ensures x * y == x' * y'
  {
  }

  /** One more term of a prefix sum. */
  lemma SumPrefix(s: seq<real>, t: nat)
    requires 0 < t <= |s|
    ensures Sum(s[..t]) == Sum(s[..t - 1]) + s[t - 1]
  {
    assert s[..t][..t - 1] == s[..t - 1];
  }

  /** `dot` does not depend on the order of its operands. */
  lemma DotSymmetric(a: Matrix<real>, b: Matrix<real>)
    requires a.Valid() && b.Valid()
    ensures Dot(a, b) == Dot(b, a)
  {
    if Dot(a, b).Ok? {
      assert Products(a.data, b.data) == Products(b.data, a.data);
    }
  }

  /** `dot` sees only the vector's elements: a row vector and the column
      vector with the same elements give the same products. */
  lemma DotTransposeInvariant(a: Matrix<real>, b: Matrix<real>)
    requires a.Valid() && b.Valid() && a.rows == 1
    ensures Dot(Transpose(a), b) == Dot(a, b)
  {
    var at := Transpose(a);
    forall i | 0 <= i < a.Size()
      ensures at.data[i] == a.data[i]
    {
      assert at.Cell(i, 0) == a.Cell(0, i);
    }
    assert at.data == a.data;
  }

  // ---------------------------------------------------------------------------
  // Min, max, sum, mean, trace
  // ---------------------------------------------------------------------------

  /** The smallest element of a non-empty sequence. */
  function MinOf(s: seq<real>): (r: real)
    requires |s| > 0
    ensures r in s && forall i :: 0 <= i < |s| ==> r <= s[i]
  {
    if |s| == 1 then s[0]
    else
      var m := MinOf(s[..|s| - 1]);
      assert m in s;
      if s[|s| - 1] < m then s[|s| - 1] else m
  }

  /** The largest element of a non-empty sequence. */
  function MaxOf(s: seq<real>): (r: real)
    requires |s| > 0
    ensures r in s && forall i :: 0 <= i < |s| ==> s[i] <= r
  {
    if |s| == 1 then s[0]
    else
      var m := MaxOf(s[..|s| - 1]);
      assert m in s;
      if m < s[|s| - 1] then s[|s| - 1] else m
  }

  /** `min_element`: `invalid_argument` on an empty matrix, else the smallest element. */
  function MinElement(a: Matrix<real>): (r: Result<real>)
    ensures r.Err? <==> a.Size() == 0
    ensures r.Err? ==> r.error == InvalidArgument
    ensures r.Ok? ==> r.value in a.data && forall i :: 0 <= i < a.Size() ==> r.value <= a.data[i]
  {
    if |a.data| == 0 then Err(InvalidArgument) else Ok(MinOf(a.data))
  }

  /** `max_element`: `invalid_argument` on an empty matrix, else the largest element. */
  function MaxElement(a: Matrix<real>): (r: Result<real>)
    ensures r.Err? <==> a.Size() == 0
    ensures r.Err? ==> r.error == InvalidArgument
    ensures r.Ok? ==> r.value in a.data && forall i :: 0 <= i < a.Size() ==> a.data[i] <= r.value
  {
    if |a.data| == 0 then Err(InvalidArgument) else Ok(MaxOf(a.data))
  }

  /** `sum`: the sum of all elements. Its magnitude never exceeds `norm_l1`. */
  function SumAll(a: Matrix<real>): (r: real)
    ensures Abs(r) <= NormL1(a)
    ensures a.Size() == 0 ==> r == 0.0
  {
    SumBelowSumOfAbs(a.data);
    Sum(a.data)
  }

  /** The triangle inequality for `Sum`: `|sum s_i| <= sum |s_i|`. */
  lemma {:induction false} SumBelowSumOfAbs(s: seq<real>)
    ensures Abs(Sum(s)) <= Sum(Abses(s))
    decreases |s|
  {
    if |s| != 0 {
      var init := s[..|s| - 1];
      SumBelowSumOfAbs(init);
      assert Abses(s)[..|s| - 1] == Abses(init);
    }
  }

  /** `mean`: `invalid_argument` on an empty matrix, else `sum / size`. */
  function Mean(a: Matrix<real>): (r: Result<real>)
    ensures r.Err? <==> a.Size() == 0
    ensures r.Err? ==> r.error == InvalidArgument
    ensures r.Ok? ==> r.value * a.Size() as real == SumAll(a)
  {
    if |a.data| == 0 then Err(InvalidArgument) else Ok(SumAll(a) / |a.data| as real)
  }

  /** The mean lies between the smallest and the largest element. */
  lemma MeanBetweenMinAndMax(a: Matrix<real>)
    requires a.Size() > 0
    ensures MinElement(a).value <= Mean(a).value <= MaxElement(a).value
  {
    MeanBounds(a, MinElement(a).value, MaxElement(a).value);
  }

  /** Elements between `lo` and `hi` give a mean between `lo` and `hi`. */
  lemma MeanBounds(a: Matrix<real>, lo: real, hi: real)
    requires a.Size() > 0 && forall i :: 0 <= i < a.Size() ==> lo <= a.data[i] <= hi
    ensures lo <= Mean(a).value <= hi
  {
    var m := Mean(a).value;
    assert SumAll(a) == Sum(a.data);
    AverageBounds(a.data, m, lo, hi);
  }

  /** A value `m` with `m * |s| == Sum(s)` lies between bounds of the terms. */
  lemma AverageBounds(s: seq<real>, m: real, lo: real, hi: real)
    requires |s| > 0 && forall i :: 0 <= i < |s| ==> lo <= s[i] <= hi
    requires m * |s| as real == Sum(s)
    ensures lo <= m <= hi
  {
    SumBounds(s, lo, hi);
    QuotientBounds(m, Sum(s), |s| as real, lo, hi);
  }

  /** `q * n == x` with `n * lo <= x <= n * hi` and `n > 0` puts `q` in `[lo, hi]`. */
  lemma QuotientBounds(q: real, x: real, n: real, lo: real, hi: real)
    requires n > 0.0 && q * n == x && n * lo <= x <= n * hi
    ensures lo <= q <= hi
  {
    assert (q - lo) * n >= 0.0 && (hi - q) * n >= 0.0;
  }

  /** `sum_{i < t} a(i, i)` */
  function DiagSum(a: Matrix<real>, t: nat): real
    requires a.Valid() && a.rows == a.cols && t <= a.rows
  {
    if t == 0 then 0.0 else DiagSum(a, t - 1) + a.Cell(t - 1, t - 1)
  }

  /** `trace`: `invalid_argument` unless square, else the sum of the diagonal. */
  function Trace(a: Matrix<real>): (r: Result<real>)
    requires a.Valid()
    ensures r.Err? <==> a.rows != a.cols
    ensures r.Err? ==> r.error == InvalidArgument
    ensures r.Ok? ==> r.value == DiagSum(a, a.rows)
  {
    if a.rows != a.cols then Err(InvalidArgument) else Ok(DiagSum(a, a.rows))
  }

  lemma {:induction false} DiagSumIdentity(n: nat, t: nat)
    requires t <= n
    ensures DiagSum(Identity(n), t) == t as real
  {
    if t != 0 {
      DiagSumIdentity(n, t - 1);
    }
  }

  /** The trace of `identity(n)` is `n`. */
  lemma TraceIdentity(n: nat)
    ensures Trace(Identity(n)) == Ok(n as real)
  {
    DiagSumIdentity(n, n);
  }

  lemma {:induction false} DiagSumTranspose(a: Matrix<real>, t: nat)
    requires a.Valid() && a.rows == a.cols && t <= a.rows
    ensures DiagSum(Transpose(a), t) == DiagSum(a, t)
  {
    if t != 0 {
      DiagSumTranspose(a, t - 1);
    }
  }

  /** Transposing keeps the trace. */
  lemma TraceTranspose(a: Matrix<real>)
    requires a.Valid()
    ensures Trace(Transpose(a)) == Trace(a)
  {
    if a.rows == a.cols {
      DiagSumTranspose(a, a.rows);
    }
  }

  // ---------------------------------------------------------------------------
  // Norms and normalisation
  // ---------------------------------------------------------------------------

  /** `norm_l1`: the sum of the absolute values of all elements. */
  function NormL1(a: Matrix<real>): (r: real)
    ensures r >= 0.0
  {
    SumNonNegative(Abses(a.data));
    Sum(Abses(a.data))
  }

  /** Every `|a_i|` is at most `norm_l1`. */
  lemma NormL1Dominates(a: Matrix<real>, i: nat)
    requires i < a.Size()
    ensures Abs(a.data[i]) <= NormL1(a)
  {
    TermBelowSum(Abses(a.data), i);
  }

  /** The squared `norm_l2`: the sum of the squares of all elements. The
      square root itself is not part of this model. */
  function SumSquares(a: Matrix<real>): (r: real)
    ensures r >= 0.0
  {
    SquaresNonNegative(a.data);
    SumNonNegative(Products(a.data, a.data));
    Sum(Products(a.data, a.data))
  }

  /** Every `a_i^2` is at most the squared `norm_l2`. */
  lemma SumSquaresDominates(a: Matrix<real>, i: nat)
    requires i < a.Size()
    ensures a.data[i] * a.data[i] <= SumSquares(a)
  {
    SquaresNonNegative(a.data);
    TermBelowSum(Products(a.data, a.data), i);
  }

  /** Every square is non-negative. */
  lemma SquaresNonNegative(s: seq<real>)
    ensures forall i :: 0 <= i < |s| ==> Products(s, s)[i] >= 0.0
  {
    forall i | 0 <= i < |s|
      ensures Products(s, s)[i] >= 0.0
    {
      if s[i] < 0.0 {
        assert s[i] * s[i] == (-s[i]) * (-s[i]);
      }
    }
  }

  /** The `best = max(best, |s[i]|)` loop over the first `t` elements, from `best = 0`. */
  function MaxAbs(s: seq<real>, t: nat): (r: real)
    requires t <= |s|
    ensures r >= 0.0
    ensures forall i :: 0 <= i < t ==> Abs(s[i]) <= r
    ensures r == 0.0 || exists i :: 0 <= i < t && r == Abs(s[i])
  {
    if t == 0 then 0.0 else Max(MaxAbs(s, t - 1), Abs(s[t - 1]))
  }

  /** `norm_linf`: `max(0, max_i |a_i|)`. */
  function NormLinf(a: Matrix<real>): (r: real)
    ensures r >= 0.0
    ensures forall i :: 0 <= i < a.Size() ==> Abs(a.data[i]) <= r
    ensures r == 0.0 || exists i :: 0 <= i < a.Size() && r == Abs(a.data[i])
  {
    MaxAbs(a.data, |a.data|)
  }

  /** The L-infinity norm never exceeds the L1 norm, and the L1 norm is 0
      exactly for the zero matrix. */
  lemma NormBounds(a: Matrix<real>)
    ensures 0.0 <= NormLinf(a) <= NormL1(a)
    ensures NormL1(a) == 0.0 <==> forall i :: 0 <= i < a.Size() ==> a.data[i] == 0.0
  {
    var s := Abses(a.data);
    SumZeroIffAllZero(s);
    if NormLinf(a) != 0.0 {
      var k :| 0 <= k < a.Size() && NormLinf(a) == Abs(a.data[k]);
      TermBelowSum(s, k);
    } else {
      SumNonNegative(s);
    }
  }

  /** The default guard of `normalize_l1`/`normalize_l2`: `1e-18`. */
  const DefaultEps: real := 0.000000000000000001

  /** `normalize_l1(v, eps)`: `invalid_argument` when `v` is not a vector
      (checked first) or when `norm_l1(v) <= eps`; otherwise `v / norm_l1(v)`. */
  function NormalizeL1(v: Matrix<real>, eps: real): (r: Result<Matrix<real>>)
    requires v.Valid() && eps >= 0.0
    ensures r.Err? <==> !IsVector(v) || NormL1(v) <= eps
    ensures r.Err? ==> r.error == InvalidArgument
    ensures r.Ok? ==> (r.value.Valid() && r.value.rows == v.rows && r.value.cols == v.cols
      && forall i :: 0 <= i < v.Size() ==> r.value.data[i] * NormL1(v) == v.data[i])
  {
    var _ :- VectorLength(v);
    var n := NormL1(v);
    if n <= eps then Err(InvalidArgument)
    else Ok(Pointwise(v, x => x / n))
  }

  /** `normalize_l2(v, eps)`, with `l2` the non-negative square root of
      `SumSquares(v)` supplied by the caller: `invalid_argument` when `v` is
      not a vector or when `l2 <= eps`; otherwise `v / l2`. */
  function NormalizeL2(v: Matrix<real>, eps: real, l2: real): (r: Result<Matrix<real>>)
    requires v.Valid() && eps >= 0.0
    requires l2 >= 0.0 && l2 * l2 == SumSquares(v)
    ensures r.Err? <==> !IsVector(v) || l2 <= eps
    ensures r.Err? ==> r.error == InvalidArgument
    ensures r.Ok? ==> (r.value.Valid() && r.value.rows == v.rows && r.value.cols == v.cols
      && forall i :: 0 <= i < v.Size() ==> r.value.data[i] * l2 == v.data[i])
  {
    var _ :- VectorLength(v);
    if l2 <= eps then Err(InvalidArgument)
    else Ok(Pointwise(v, x => x / l2))
  }

  /** `|u| == |v| / n` when `u * n == v` and `n > 0`. */
  lemma AbsOfQuotient(u: real, v: real, n: real)
    requires n > 0.0 && u * n == v
    ensures Abs(u) == Abs(v) * (1.0 / n)
  {
    assert u == v * (1.0 / n);
  }

  /** `u * u == v * v / l^2` when `u * l == v` and `l > 0`. */
  lemma SquareOfQuotient(u: real, v: real, l: real)
    requires l > 0.0 && u * l == v
    ensures u * u == v * v * (1.0 / (l * l))
  {
    assert u == v * (1.0 / l);
    assert (1.0 / l) * (1.0 / l) == 1.0 / (l * l);
  }

  /** Dividing every element by `n > 0` divides the sum of magnitudes by `n`. */
  lemma AbsesScaled(u: seq<real>, v: seq<real>, n: real)
    requires |u| == |v| && n > 0.0 && forall i :: 0 <= i < |u| ==> u[i] * n == v[i]
    ensures Sum(Abses(u)) == Sum(Abses(v)) * (1.0 / n)
  {
    AbsesQuotients(u, v, n);
    SumScale(Abses(v), Abses(u), 1.0 / n);
  }

  /** Dividing every element by `n > 0` divides every magnitude by `n`. */
  lemma AbsesQuotients(u: seq<real>, v: seq<real>, n: real)
    requires |u| == |v| && n > 0.0 && forall i :: 0 <= i < |u| ==> u[i] * n == v[i]
    ensures Scaled(Abses(v), Abses(u), 1.0 / n)
  {
    forall i | 0 <= i < |u|
      ensures Abses(u)[i] == Abses(v)[i] * (1.0 / n)
    {
      AbsOfQuotient(u[i], v[i], n);
    }
  }

  /** Dividing every element by `l > 0` divides the sum of squares by `l^2`. */
  lemma SquaresScaled(u: seq<real>, v: seq<real>, l: real)
    requires |u| == |v| && l > 0.0 && forall i :: 0 <= i < |u| ==> u[i] * l == v[i]
    ensures Sum(Products(u, u)) == Sum(Products(v, v)) * (1.0 / (l * l))
  {
    SquaresQuotients(u, v, l);
    SumScale(Products(v, v), Products(u, u), 1.0 / (l * l));
  }

  /** Dividing every element by `l > 0` divides every square by `l^2`. */
  lemma SquaresQuotients(u: seq<real>, v: seq<real>, l: real)
    requires |u| == |v| && l > 0.0 && forall i :: 0 <= i < |u| ==> u[i] * l == v[i]
    ensures Scaled(Products(v, v), Products(u, u), 1.0 / (l * l))
  {
    forall i | 0 <= i < |u|
      ensures Products(u, u)[i] == Products(v, v)[i] * (1.0 / (l * l))
    {
      SquareOfQuotient(u[i], v[i], l);
    }
  }

  /** `x * (1 / x) == 1` for `x != 0`. */
  lemma TimesInverse(x: real)
    requires x != 0.0
    ensures x * (1.0 / x) == 1.0
  {
  }

  /** A successful `normalize_l1` returns a vector of L1 norm 1. */
  lemma NormalizeL1Unit(v: Matrix<real>, eps: real)
    requires v.Valid() && eps >= 0.0 && NormalizeL1(v, eps).Ok?
    ensures NormL1(NormalizeL1(v, eps).value) == 1.0
  {
    var u := NormalizeL1(v, eps).value;
    TimesInverse(NormL1(v));
    AbsesScaled(u.data, v.data, NormL1(v));
  }

  /** A successful `normalize_l2` returns a vector whose squared L2 norm is 1. */
  lemma NormalizeL2Unit(v: Matrix<real>, eps: real, l2: real)
    requires v.Valid() && eps >= 0.0 && l2 >= 0.0 && l2 * l2 == SumSquares(v)
    requires NormalizeL2(v, eps, l2).Ok?
    ensures SumSquares(NormalizeL2(v, eps, l2).value) == 1.0
  {
    var u := NormalizeL2(v, eps, l2).value;
    TimesInverse(l2 * l2);
    SquaresScaled(u.data, v.data, l2);
  }

  /** `dot(v, v)` is the squared L2 norm, hence never negative. */
  lemma DotSelf(v: Matrix<real>)
    requires v.Valid() && IsVector(v)
    ensures Dot(v, v) == Ok(SumSquares(v))
    ensures SumSquares(v) >= 0.0
  {
    SumNonNegative(Products(v.data, v.data));
  }
}
