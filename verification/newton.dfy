/** The console solver for `F(x) = 0`: Newton's method and the modified
    (frozen-Jacobian) Newton method, with a numeric or a user-supplied Jacobian.

    Everything the program reads from the console (method, damping, Jacobian
    source, stopping parameters, `x0`, the manual Jacobian) is a parameter.
    The parts the model cannot compute exactly are parameters too: the
    residual functions `fs`, `rootEps` for `sqrt(epsilon)`, `norm` for
    `norm_l2` (a square root), and `solve` for the LUP solver.
 */
module Newton {
  import opened Exceptions
  import opened Matrices
  import opened EquationSystems
  import Arrays
  import Linalg

  type Vec = Arrays.Array<real>

  /** One residual function `f_i(x)`. */
  type Residual = Vec -> real

  // ---------------------------------------------------------------------------
  // Conversions between arrays and column matrices
  // ---------------------------------------------------------------------------

  /** `to_column_matrix`: an `n x 1` matrix holding `x`. */
  function ToColumnMatrix(x: Vec): (r: Matrix<real>)
    ensures r.Valid() && r.rows == x.Size() && r.cols == 1
    ensures r.data == x.items
  {
    Matrix(x.Size(), 1, x.items)
  }

  /** `column_matrix_to_array`: `invalid_argument` unless `v` has exactly one
      column; otherwise the array of its `rows` elements. */
  function ColumnMatrixToArray(v: Matrix<real>): (r: Result<Vec>)
    requires v.Valid()
    ensures r.Err? <==> v.cols != 1
    ensures r.Err? ==> r.error == InvalidArgument
    ensures r.Ok? ==> (r.value.Size() == v.rows
      && forall i :: 0 <= i < v.rows ==> r.value.items[i] == v.Cell(i, 0))
  {
    if v.cols != 1 then Err(InvalidArgument) else Ok(Arrays.Array(v.data))
  }

  /** An array survives the trip through a column matrix. */
  lemma ArrayColumnRoundTrip(x: Vec)
    ensures ColumnMatrixToArray(ToColumnMatrix(x)) == Ok(x)
  {
  }

  /** A column matrix survives the trip through an array. */
  lemma ColumnArrayRoundTrip(v: Matrix<real>)
    requires v.Valid() && v.cols == 1
    ensures ToColumnMatrix(ColumnMatrixToArray(v).value) == v
  {
  }

  // ---------------------------------------------------------------------------
  // Residuals and Jacobians
  // ---------------------------------------------------------------------------

  /** `compute_F`: the `n x 1` column `F(x)`, one row per residual function. */
  function ComputeF(x: Vec, fs: seq<Residual>): (r: Matrix<real>)
    ensures r.Valid() && r.rows == |fs| && r.cols == 1
    ensures forall i :: 0 <= i < |fs| ==> r.Cell(i, 0) == fs[i](x)
  {
    Matrix(|fs|, 1, seq(|fs|, i requires 0 <= i < |fs| => fs[i](x)))
  }

  /** The difference step `h = sqrt(eps) * (1 + |x_j|)`, with `rootEps`
      standing for `sqrt(eps)`. It is never smaller than `rootEps`. */
  function StepSize(rootEps: real, xj: real): (h: real)
    requires rootEps > 0.0
    ensures h >= rootEps
  {
    rootEps * (1.0 + Linalg.Abs(xj))
  }

  /** A copy of `x` with `d` added to element `j` (`x_plus = x; x_plus[j] += d`). */
  function Perturb(x: Vec, j: nat, d: real): (r: Vec)
    requires j < x.Size()
    ensures r.Size() == x.Size() && r.items[j] == x.items[j] + d
    ensures forall i :: 0 <= i < x.Size() && i != j ==> r.items[i] == x.items[i]
  {
    Arrays.Set(Arrays.Copy(x), j, x.items[j] + d).value
  }

  /** One forward difference `(f_i(x + h e_j) - f_i(x)) / h`. */
  function ForwardDifference(x: Vec, fs: seq<Residual>, rootEps: real, i: nat, j: nat): (r: real)
    requires rootEps > 0.0 && i < |fs| && j < x.Size()
    ensures r * StepSize(rootEps, x.items[j])
      == fs[i](Perturb(x, j, StepSize(rootEps, x.items[j]))) - fs[i](x)
  {
    var h := StepSize(rootEps, x.items[j]);
    (fs[i](Perturb(x, j, h)) - fs[i](x)) / h
  }

  /** One central difference `(f_i(x + h e_j) - f_i(x - h e_j)) / (2 h)`. */
  function CentralDifference(x: Vec, fs: seq<Residual>, rootEps: real, i: nat, j: nat): (r: real)
    requires rootEps > 0.0 && i < |fs| && j < x.Size()
    ensures r * (2.0 * StepSize(rootEps, x.items[j]))
      == fs[i](Perturb(x, j, StepSize(rootEps, x.items[j]))) - fs[i](Perturb(x, j, -StepSize(rootEps, x.items[j])))
  {
    var h := StepSize(rootEps, x.items[j]);
    (fs[i](Perturb(x, j, h)) - fs[i](Perturb(x, j, -h))) / (2.0 * h)
  }

  /** `build_jacobian_two_point`: entry `(i, j)` is the forward difference of
      `f_i` along `e_j` (`F(x)` and `F(x + h e_j)` are whole columns from
      `compute_F`). Reading `x[j]` for `j < n` throws `out_of_range` when `x`
      has fewer than `n` elements. */
  function JacobianTwoPoint(x: Vec, fs: seq<Residual>, rootEps: real): (r: Result<Matrix<real>>)
    requires rootEps > 0.0
    ensures r.Err? <==> x.Size() < |fs|
    ensures r.Err? ==> r.error == OutOfRange
    ensures r.Ok? ==> (r.value.Valid() && r.value.rows == |fs| && r.value.cols == |fs|
      && forall i: nat, j: nat :: i < |fs| && j < |fs| ==>
           r.value.Cell(i, j) == ForwardDifference(x, fs, rootEps, i, j))
  {
    var n := |fs|;
    if x.Size() < n then Err(OutOfRange)
    else
      Ok(Build(n, n, (i: nat, j: nat) requires i < n && j < n => ForwardDifference(x, fs, rootEps, i, j)))
  }

  /** `build_jacobian_three_point`: entry `(i, j)` is the central difference of
      `f_i` along `e_j`, with the same `out_of_range`. */
  function JacobianThreePoint(x: Vec, fs: seq<Residual>, rootEps: real): (r: Result<Matrix<real>>)
    requires rootEps > 0.0
    ensures r.Err? <==> x.Size() < |fs|
    ensures r.Err? ==> r.error == OutOfRange
    ensures r.Ok? ==> (r.value.Valid() && r.value.rows == |fs| && r.value.cols == |fs|
      && forall i: nat, j: nat :: i < |fs| && j < |fs| ==>
           r.value.Cell(i, j) == CentralDifference(x, fs, rootEps, i, j))
  {
    var n := |fs|;
    if x.Size() < n then Err(OutOfRange)
    else
      Ok(Build(n, n, (i: nat, j: nat) requires i < n && j < n => CentralDifference(x, fs, rootEps, i, j)))
  }

  /** `sum_{k < t} A(i, k) * y_k`: the first `t` terms of row `i` of `A y`. */
  function Linear(A: Matrix<real>, i: nat, y: Vec, t: nat): real
    requires A.Valid() && i < A.rows && t <= A.cols && t <= y.Size()
  {
    if t == 0 then 0.0 else Linear(A, i, y, t - 1) + A.Cell(i, t - 1) * y.items[t - 1]
  }

  /** The residuals are affine: `f_i(y) = sum_k A(i, k) * y_k + c_i` for every
      `y` of length `n`. */
  ghost predicate IsAffine(fs: seq<Residual>, A: Matrix<real>, c: seq<real>) {
    A.Valid() && A.rows == |fs| && A.cols == |fs| && |c| == |fs|
    && forall y: Vec, i :: 0 <= i < |fs| && y.Size() == |fs| ==> fs[i](y) == Linear(A, i, y, |fs|) + c[i]
  }

  /** Moving element `j` by `d` moves the first `t` terms of row `i` of `A y`
      by `A(i, j) * d` once `j < t`. */
  lemma {:induction false} LinearPerturb(A: Matrix<real>, y: Vec, j: nat, d: real, i: nat, t: nat)
    requires A.Valid() && i < A.rows && j < y.Size() && t <= A.cols && t <= y.Size()
    ensures Linear(A, i, Perturb(y, j, d), t) == Linear(A, i, y, t) + (if j < t then A.Cell(i, j) * d else 0.0)
  {
    if t != 0 {
      LinearPerturb(A, y, j, d, i, t - 1);
      LinearPerturbExtend(A, y, j, d, i, t);
    }
  }

  /** The step of `LinearPerturb` from `t - 1` terms to `t`. */
  lemma LinearPerturbExtend(A: Matrix<real>, y: Vec, j: nat, d: real, i: nat, t: nat)
    requires A.Valid() && i < A.rows && j < y.Size() && 0 < t <= A.cols && t <= y.Size()
    requires Linear(A, i, Perturb(y, j, d), t - 1)
      == Linear(A, i, y, t - 1) + (if j < t - 1 then A.Cell(i, j) * d else 0.0)
    ensures Linear(A, i, Perturb(y, j, d), t) == Linear(A, i, y, t) + (if j < t then A.Cell(i, j) * d else 0.0)
  {
    var a, yp := A.Cell(i, t - 1), Perturb(y, j, d);
    if t - 1 == j {
      assert a * yp.items[t - 1] == a * y.items[t - 1] + a * d;
    } else {
      assert yp.items[t - 1] == y.items[t - 1];
    }
  }

  /** One instance of `IsAffine`. */
  lemma AffineAt(fs: seq<Residual>, A: Matrix<real>, c: seq<real>, y: Vec, i: nat)
    requires IsAffine(fs, A, c) && y.Size() == |fs| && i < |fs|
    ensures fs[i](y) == Linear(A, i, y, |fs|) + c[i]
  {
  }

  /** Moving `x_j` by `d` moves `f_i` by exactly `a * d`. */
  predicate ShiftsBy(fs: seq<Residual>, x: Vec, i: nat, j: nat, d: real, a: real)
    requires i < |fs| && j < x.Size()
  {
    fs[i](Perturb(x, j, d)) == fs[i](x) + a * d
  }

  /** On affine residuals, moving `x_j` by `d` moves `f_i` by `A(i, j) * d`. */
  lemma PerturbAffine(fs: seq<Residual>, A: Matrix<real>, c: seq<real>, x: Vec, i: nat, j: nat, d: real)
    requires IsAffine(fs, A, c) && x.Size() == |fs| && i < |fs| && j < |fs|
    ensures ShiftsBy(fs, x, i, j, d, A.Cell(i, j))
  {
    LinearPerturb(A, x, j, d, i, |fs|);
    AffineAt(fs, A, c, Perturb(x, j, d), i);
    AffineAt(fs, A, c, x, i);
  }

  /** A forward difference along `e_j` is `a` once `f_i` moves by exactly
      `a * h` over the step `h`. */
  lemma ForwardDifferenceOfShift(x: Vec, fs: seq<Residual>, rootEps: real, i: nat, j: nat, a: real)
    requires rootEps > 0.0 && i < |fs| && j < x.Size()
    requires ShiftsBy(fs, x, i, j, StepSize(rootEps, x.items[j]), a)
    ensures ForwardDifference(x, fs, rootEps, i, j) == a
  {
    var q, h := ForwardDifference(x, fs, rootEps, i, j), StepSize(rootEps, x.items[j]);
    assert (q - a) * h == 0.0;
  }

  /** A central difference along `e_j` is `a` once `f_i` moves by exactly
      `a * h` and `a * -h` over the steps `h` and `-h`. */
  lemma CentralDifferenceOfShift(x: Vec, fs: seq<Residual>, rootEps: real, i: nat, j: nat, a: real)
    requires rootEps > 0.0 && i < |fs| && j < x.Size()
    requires ShiftsBy(fs, x, i, j, StepSize(rootEps, x.items[j]), a)
    requires ShiftsBy(fs, x, i, j, -StepSize(rootEps, x.items[j]), a)
    ensures CentralDifference(x, fs, rootEps, i, j) == a
  {
    var q, h := CentralDifference(x, fs, rootEps, i, j), StepSize(rootEps, x.items[j]);
    assert (q - a) * (2.0 * h) == 0.0;
  }

  /** On affine residuals a forward difference is exact. */
  lemma ForwardDifferenceExact(x: Vec, fs: seq<Residual>, rootEps: real, A: Matrix<real>, c: seq<real>, i: nat, j: nat)
    requires rootEps > 0.0 && IsAffine(fs, A, c) && x.Size() == |fs| && i < |fs| && j < |fs|
    ensures ForwardDifference(x, fs, rootEps, i, j) == A.Cell(i, j)
  {
    PerturbAffine(fs, A, c, x, i, j, StepSize(rootEps, x.items[j]));
    ForwardDifferenceOfShift(x, fs, rootEps, i, j, A.Cell(i, j));
  }

  /** On affine residuals a central difference is exact. */
  lemma CentralDifferenceExact(x: Vec, fs: seq<Residual>, rootEps: real, A: Matrix<real>, c: seq<real>, i: nat, j: nat)
    requires rootEps > 0.0 && IsAffine(fs, A, c) && x.Size() == |fs| && i < |fs| && j < |fs|
    ensures CentralDifference(x, fs, rootEps, i, j) == A.Cell(i, j)
  {
    PerturbAffine(fs, A, c, x, i, j, StepSize(rootEps, x.items[j]));
    PerturbAffine(fs, A, c, x, i, j, -StepSize(rootEps, x.items[j]));
    CentralDifferenceOfShift(x, fs, rootEps, i, j, A.Cell(i, j));
  }

  /** On affine residuals the two-point Jacobian is `A`, whatever `x` and the step. */
  lemma TwoPointExactOnAffine(x: Vec, fs: seq<Residual>, rootEps: real, A: Matrix<real>, c: seq<real>)
    requires rootEps > 0.0 && IsAffine(fs, A, c) && x.Size() == |fs|
    ensures JacobianTwoPoint(x, fs, rootEps) == Ok(A)
  {
    var J := JacobianTwoPoint(x, fs, rootEps).value;
    forall i: nat, j: nat | i < |fs| && j < |fs|
      ensures J.Cell(i, j) == A.Cell(i, j)
    {
      ForwardDifferenceExact(x, fs, rootEps, A, c, i, j);
    }
    CellsDetermine(J, A);
  }

  /** On affine residuals the three-point Jacobian is `A` as well. */
  lemma ThreePointExactOnAffine(x: Vec, fs: seq<Residual>, rootEps: real, A: Matrix<real>, c: seq<real>)
    requires rootEps > 0.0 && IsAffine(fs, A, c) && x.Size() == |fs|
    ensures JacobianThreePoint(x, fs, rootEps) == Ok(A)
  {
    var J := JacobianThreePoint(x, fs, rootEps).value;
    forall i: nat, j: nat | i < |fs| && j < |fs|
      ensures J.Cell(i, j) == A.Cell(i, j)
    {
      CentralDifferenceExact(x, fs, rootEps, A, c, i, j);
    }
    CellsDetermine(J, A);
  }

  // ---------------------------------------------------------------------------
  // One linear solve
  // ---------------------------------------------------------------------------

  /** What the LUP solver promises about its output: a matrix. */
  ghost predicate YieldsMatrices(solve: EquationSystem -> Result<Matrix<real>>) {
    forall sys :: solve(sys).Ok? ==> solve(sys).value.Valid()
  }

  /** A solver whose every answer `s` to a system with a column right-hand
      side satisfies `A s = b` exactly. */
  ghost predicate SolvesExactly(solve: EquationSystem -> Result<Matrix<real>>) {
    YieldsMatrices(solve)
    && forall sys :: solve(sys).Ok? && sys.A.Valid() && sys.b.cols == 1 ==>
         Linalg.Matmul(sys.A, solve(sys).value) == Ok(sys.b)
  }

  /** The right-hand side `b(i, 0) = -fx(i, 0)` of `solve_step`, an
      `fx.rows x 1` column. */
  function NegatedColumn(fx: Matrix<real>): (b: Matrix<real>)
    requires fx.Valid() && (fx.rows == 0 || fx.cols != 0)
    ensures b.Valid() && b.rows == fx.rows && b.cols == 1
    ensures forall i: nat :: i < fx.rows ==> b.Cell(i, 0) == -fx.Cell(i, 0)
  {
    Build(fx.rows, 1, (i: nat, z: nat) requires i < fx.rows && z < 1 => -fx.Cell(i, 0))
  }

  /** For a column `fx` the right-hand side is the kernel's `negate(fx)`. */
  lemma NegatedColumnIsNegate(fx: Matrix<real>)
    requires fx.Valid() && fx.cols == 1
    ensures NegatedColumn(fx) == Linalg.Negate(fx)
  {
    var b, m := NegatedColumn(fx), Linalg.Negate(fx);
    forall i | 0 <= i < |b.data|
      ensures b.data[i] == m.data[i]
    {
      NegatedColumnAt(fx, i);
    }
    assert b.data == m.data;
  }

  /** Buffer element `i` of the right-hand side of a column `fx` is `-fx[i]`. */
  lemma NegatedColumnAt(fx: Matrix<real>, i: nat)
    requires fx.Valid() && fx.cols == 1 && i < fx.rows
    ensures NegatedColumn(fx).data[i] == -fx.data[i]
  {
    ColumnCell(NegatedColumn(fx), i);
    ColumnCell(fx, i);
  }

  /** `solve_step(J, fx)`: builds `b = -F(x)` (reading `fx(i, 0)` throws
      `out_of_range` when `fx` has rows but no columns), then the system
      `(J, b)` (`invalid_argument` unless `J` is `n x n` with `n = fx.rows`),
      solves it, and converts the answer with `column_matrix_to_array`. */
  function SolveStep(J: Matrix<real>, fx: Matrix<real>, solve: EquationSystem -> Result<Matrix<real>>): (r: Result<Vec>)
    requires J.Valid() && fx.Valid() && YieldsMatrices(solve)
    ensures fx.rows != 0 && fx.cols == 0 ==> r == Err(OutOfRange)
    ensures (fx.rows == 0 || fx.cols != 0) && (J.rows != J.cols || J.rows != fx.rows)
      ==> r == Err(InvalidArgument)
    ensures r.Ok? ==> J.rows == J.cols == fx.rows
    ensures r.Ok? ==> (var s := solve(EquationSystem(J, NegatedColumn(fx)));
         s.Ok? && s.value.cols == 1 && r.value.Size() == s.value.rows
         && forall i :: 0 <= i < s.value.rows ==> r.value.items[i] == s.value.Cell(i, 0))
    ensures r.Err? && r.error != OutOfRange && r.error != InvalidArgument ==>
      (var s := solve(EquationSystem(J, NegatedColumn(fx))); s.Err? && s.error == r.error)
    ensures (fx.rows == 0 || fx.cols != 0) && J.rows == J.cols == fx.rows ==>
      (var s := solve(EquationSystem(J, NegatedColumn(fx)));
         (s.Err? ==> r == Err(s.error))
         && (s.Ok? && s.value.cols == 1 ==> r.Ok?)
         && (s.Ok? && s.value.cols != 1 ==> r == Err(InvalidArgument)))
  {
    if fx.rows != 0 && fx.cols == 0 then Err(OutOfRange)
    else
      var sys :- MakeSystem(J, NegatedColumn(fx));
      var s :- solve(sys);
      ColumnMatrixToArray(s)
  }

  /** With an exact solver, a step returned by `solve_step` solves the Newton
      equation `J s = -F(x)`. */
  lemma StepSolvesNewtonEquation(J: Matrix<real>, fx: Matrix<real>, solve: EquationSystem -> Result<Matrix<real>>)
    requires J.Valid() && fx.Valid() && fx.cols == 1 && SolvesExactly(solve)
    requires SolveStep(J, fx, solve).Ok?
    ensures Linalg.Matmul(J, ToColumnMatrix(SolveStep(J, fx, solve).value)) == Ok(Linalg.Negate(fx))
  {
    var sys := EquationSystem(J, NegatedColumn(fx));
    var s := solve(sys).value;
    ColumnArrayRoundTrip(s);
    NegatedColumnIsNegate(fx);
  }

  // ---------------------------------------------------------------------------
  // The iteration
  // ---------------------------------------------------------------------------

  datatype Method = Newton | ModifiedNewton

  datatype Formula = TwoPoint | ThreePoint

  /** Where the Jacobian comes from: a numeric formula, or an `n x n` matrix
      typed in by the user. */
  datatype JacobianSource = Numeric(formula: Formula) | Manual(matrix: Matrix<real>)

  /** The damping factor `lambda` (1 when damping is off) and the stopping
      parameters. */
  datatype Controls = Controls(lambda: real, epsF: real, epsX: real, maxIter: nat)

  /** The user's choices. */
  datatype Settings = Settings(algorithm: Method, source: JacobianSource, controls: Controls) {

    ghost predicate Valid() {
      source.Manual? ==> source.matrix.Valid()
    }
  }

  /** The parts of the computation outside the model. */
  datatype Env = Env(
    fs: seq<Residual>,
    rootEps: real,
    norm: Matrix<real> -> real,
    solve: EquationSystem -> Result<Matrix<real>>)
  {
    ghost predicate Valid() {
      rootEps > 0.0 && YieldsMatrices(solve)
    }

    function N(): nat {
      |fs|
    }
  }

  /** The final state of a run: the last iterate, the `converged` flag and
      `iter_done`. */
  datatype Report = Report(x: Vec, converged: bool, iterDone: nat)

  /** The numeric Jacobian with the chosen formula. */
  function NumericJacobian(env: Env, formula: Formula, x: Vec): (r: Result<Matrix<real>>)
    requires env.Valid()
    ensures r.Err? <==> x.Size() < env.N()
    ensures r.Ok? ==> r.value.Valid() && r.value.rows == env.N() && r.value.cols == env.N()
    ensures r.Ok? ==> forall i: nat, j: nat :: i < env.N() && j < env.N() ==>
      r.value.Cell(i, j) == Difference(env, formula, x, i, j)
  {
    match formula
    case TwoPoint => JacobianTwoPoint(x, env.fs, env.rootEps)
    case ThreePoint => JacobianThreePoint(x, env.fs, env.rootEps)
  }

  /** Entry `(i, j)` of the numeric Jacobian with the chosen formula: the
      forward or the central difference of `f_i` along `x_j`. */
  function Difference(env: Env, formula: Formula, x: Vec, i: nat, j: nat): real
    requires env.Valid() && i < env.N() && j < x.Size()
  {
    match formula
    case TwoPoint => ForwardDifference(x, env.fs, env.rootEps, i, j)
    case ThreePoint => CentralDifference(x, env.fs, env.rootEps, i, j)
  }

  /** `J_frozen`: for the modified method, the numeric Jacobian at `x0` or the
      manual one; otherwise an unused empty matrix. */
  function FrozenJacobian(s: Settings, env: Env, x0: Vec): (r: Matrix<real>)
    requires s.Valid() && env.Valid() && x0.Size() == env.N()
    ensures r.Valid()
    ensures s.algorithm == ModifiedNewton && s.source.Manual? ==> r == s.source.matrix
    ensures s.algorithm == ModifiedNewton && s.source.Numeric? ==>
      IsNumericJacobianAt(r, env, s.source.formula, x0)
  {
    if s.algorithm == Newton then Default()
    else
      match s.source
      case Numeric(f) => NumericJacobian(env, f, x0).value
      case Manual(jm) => jm
  }

  /** The Jacobian used at iterate `x`: Newton's method rebuilds it (or takes
      the manual one), the modified method uses `frozen`. */
  function CurrentJacobian(s: Settings, env: Env, x: Vec, frozen: Matrix<real>): (r: Matrix<real>)
    requires s.Valid() && env.Valid() && x.Size() == env.N() && frozen.Valid()
    ensures r.Valid()
    ensures s.algorithm == ModifiedNewton ==> r == frozen
    ensures s.algorithm == Newton && s.source.Manual? ==> r == s.source.matrix
    ensures s.algorithm == Newton && s.source.Numeric? ==>
      IsNumericJacobianAt(r, env, s.source.formula, x)
  {
    if s.algorithm == ModifiedNewton then frozen
    else
      match s.source
      case Numeric(f) => NumericJacobian(env, f, x).value
      case Manual(jm) => jm
  }

  /** `J` is the `n x n` matrix of the chosen differences at `x`. */
  ghost predicate IsNumericJacobianAt(J: Matrix<real>, env: Env, formula: Formula, x: Vec)
    requires env.Valid() && x.Size() == env.N()
  {
    J.Valid() && J.rows == env.N() && J.cols == env.N()
    && forall i: nat, j: nat :: i < env.N() && j < env.N() ==> J.Cell(i, j) == Difference(env, formula, x, i, j)
  }

  /** `x[i] += lambda * step[i]` for every `i < n`. */
  function Update(x: Vec, step: Vec, lambda: real): (r: Vec)
    requires step.Size() >= x.Size()
    ensures MovedBy(x, r, lambda, step)
  {
    Arrays.Array(seq(x.Size(), i requires 0 <= i < x.Size() => x.items[i] + lambda * step.items[i]))
  }

  /** `next` is `x` moved by `lambda` times `step`, element by element. */
  predicate MovedBy(x: Vec, next: Vec, lambda: real, step: Vec) {
    next.Size() == x.Size() && step.Size() >= x.Size()
    && forall i :: 0 <= i < x.Size() ==> next.items[i] - x.items[i] == lambda * step.items[i]
  }

  /** How one pass of the loop body ends. */
  datatype StepResult = Converged | Continue(next: Vec) | Failed(error: Error)

  /** The loop body at iterate `x` with Jacobian `J`: stop if
      `||F(x)|| < eps_F`; otherwise solve for the step; the iteration log
      reads `step[i]` for every `i < n` (`out_of_range` for a short step);
      stop without moving if `||s|| < eps_x * (1 + ||x||)`; otherwise move to
      `x + lambda * s`. */
  function Step(c: Controls, env: Env, x: Vec, J: Matrix<real>): (r: StepResult)
    requires env.Valid() && x.Size() == env.N() && J.Valid()
    ensures env.norm(ComputeF(x, env.fs)) < c.epsF ==> r == Converged
    ensures r.Continue? ==> r.next.Size() == x.Size()
    ensures r.Continue? ==>
      (var st := SolveStep(J, ComputeF(x, env.fs), env.solve);
         st.Ok? && st.value.Size() >= x.Size()
         && env.norm(ToColumnMatrix(st.value)) >= c.epsX * (1.0 + env.norm(ToColumnMatrix(x)))
         && MovedBy(x, r.next, c.lambda, st.value))
    ensures env.norm(ComputeF(x, env.fs)) >= c.epsF ==>
      (var st := SolveStep(J, ComputeF(x, env.fs), env.solve);
         (st.Err? ==> r == Failed(st.error))
         && (st.Ok? && st.value.Size() < x.Size() ==> r == Failed(OutOfRange))
         && (st.Ok? && st.value.Size() >= x.Size() ==>
               (r == Converged <==> env.norm(ToColumnMatrix(st.value)) < c.epsX * (1.0 + env.norm(ToColumnMatrix(x))))
               && (r.Converged? || r.Continue?)))
  {
    var fx := ComputeF(x, env.fs);
    if env.norm(fx) < c.epsF then Converged
    else
      match SolveStep(J, fx, env.solve)
      case Err(e) => Failed(e)
      case Ok(step) =>
        if step.Size() < x.Size() then Failed(OutOfRange)
        else if env.norm(ToColumnMatrix(step)) < c.epsX * (1.0 + env.norm(ToColumnMatrix(x))) then Converged
        else Continue(Update(x, step, c.lambda))
  }

  /** The loop body at iterate `x`, with the Jacobian the settings choose there. */
  function StepAt(s: Settings, env: Env, x: Vec, frozen: Matrix<real>): (r: StepResult)
    requires s.Valid() && env.Valid() && x.Size() == env.N() && frozen.Valid()
    ensures r.Continue? ==> r.next.Size() == x.Size()
  {
    Step(s.controls, env, x, CurrentJacobian(s, env, x, frozen))
  }

  /** The first `m` loop bodies from `x` all move on. */
  ghost predicate Continues(s: Settings, env: Env, x: Vec, frozen: Matrix<real>, m: nat)
    requires s.Valid() && env.Valid() && x.Size() == env.N() && frozen.Valid()
    decreases m
  {
    m == 0
    || (StepAt(s, env, x, frozen).Continue?
        && Continues(s, env, StepAt(s, env, x, frozen).next, frozen, m - 1))
  }

  /** The iterate reached from `x` after `m` loop bodies that move on (a body
      that does not move on leaves the iterate where it is). */
  ghost function Walk(s: Settings, env: Env, x: Vec, frozen: Matrix<real>, m: nat): (y: Vec)
    requires s.Valid() && env.Valid() && x.Size() == env.N() && frozen.Valid()
    ensures y.Size() == env.N()
    decreases m
  {
    if m == 0 then x
    else
      match StepAt(s, env, x, frozen)
      case Continue(next) => Walk(s, env, next, frozen, m - 1)
      case _ => x
  }

  /** `report`, produced by the loop entered at iteration `k` from `x`, is
      the loop's own trajectory: the iterations that moved on did so one
      after another from `x`, and the reported point is where they ended.
      A converged report adds the one iteration whose stopping test fired. */
  ghost predicate FollowsLoop(s: Settings, env: Env, x: Vec, frozen: Matrix<real>, k: nat, report: Report)
    requires s.Valid() && env.Valid() && x.Size() == env.N() && frozen.Valid()
  {
    var stop := if report.converged then 1 else 0;
    k + stop <= report.iterDone
    && Continues(s, env, x, frozen, report.iterDone - k - stop)
    && report.x == Walk(s, env, x, frozen, report.iterDone - k - stop)
  }

  /** The loop entered at iteration `k` from `x` reaches, before `max_iter`,
      an iterate whose loop body fails with `e`, every earlier body having
      moved on. */
  ghost predicate FailsWith(s: Settings, env: Env, x: Vec, frozen: Matrix<real>, k: nat, e: Error)
    requires s.Valid() && env.Valid() && x.Size() == env.N() && frozen.Valid()
  {
    exists m: nat :: k + m < s.controls.maxIter && Continues(s, env, x, frozen, m)
      && StepAt(s, env, Walk(s, env, x, frozen, m), frozen) == Failed(e)
  }

  /** The `for k < max_iter` loop from iteration `k` on. `iter_done` is the
      number of loop bodies entered; a run that exhausts `max_iter` reports
      `converged = false`, and a converged run stops at a point where the
      loop body's stopping test holds. */
  function Iterate(s: Settings, env: Env, x: Vec, frozen: Matrix<real>, k: nat): (r: Result<Report>)
    requires s.Valid() && env.Valid() && x.Size() == env.N() && frozen.Valid() && k <= s.controls.maxIter
    ensures r.Ok? ==> (r.value.x.Size() == env.N()
      && r.value.iterDone <= s.controls.maxIter
      && (!r.value.converged ==> r.value.iterDone == s.controls.maxIter)
      && (r.value.converged ==> (k < r.value.iterDone
          && StepAt(s, env, r.value.x, frozen) == Converged)))
    ensures k < s.controls.maxIter && StepAt(s, env, x, frozen).Failed? ==> r == Err(StepAt(s, env, x, frozen).error)
    decreases s.controls.maxIter - k
  {
    if k == s.controls.maxIter then Ok(Report(x, false, k))
    else
      match StepAt(s, env, x, frozen)
      case Converged => Ok(Report(x, true, k + 1))
      case Failed(e) => Err(e)
      case Continue(next) => Iterate(s, env, next, frozen, k + 1)
  }

  /** The report of the loop is its own trajectory. */
  lemma {:induction false} IterateFollowsLoop(s: Settings, env: Env, x: Vec, frozen: Matrix<real>, k: nat)
    requires s.Valid() && env.Valid() && x.Size() == env.N() && frozen.Valid() && k <= s.controls.maxIter
    ensures Iterate(s, env, x, frozen, k).Ok? ==> FollowsLoop(s, env, x, frozen, k, Iterate(s, env, x, frozen, k).value)
    decreases s.controls.maxIter - k
  {
    if k < s.controls.maxIter && StepAt(s, env, x, frozen).Continue? {
      var next := StepAt(s, env, x, frozen).next;
      IterateFollowsLoop(s, env, next, frozen, k + 1);
      var r := Iterate(s, env, next, frozen, k + 1);
      assert Iterate(s, env, x, frozen, k) == r;
      if r.Ok? {
        IterateMovesOn(s, env, x, frozen, k, r.value);
      }
    }
  }

  /** A failure of the loop comes from the loop body of an iterate on its
      trajectory. */
  lemma {:induction false} IterateFailsAlongLoop(s: Settings, env: Env, x: Vec, frozen: Matrix<real>, k: nat)
    requires s.Valid() && env.Valid() && x.Size() == env.N() && frozen.Valid() && k <= s.controls.maxIter
    ensures Iterate(s, env, x, frozen, k).Err? ==> FailsWith(s, env, x, frozen, k, Iterate(s, env, x, frozen, k).error)
    decreases s.controls.maxIter - k
  {
    if k < s.controls.maxIter {
      match StepAt(s, env, x, frozen)
      case Converged =>
      case Failed(e) =>
        assert Walk(s, env, x, frozen, 0) == x;
      case Continue(next) =>
        IterateFailsAlongLoop(s, env, next, frozen, k + 1);
        var r := Iterate(s, env, next, frozen, k + 1);
        assert Iterate(s, env, x, frozen, k) == r;
        if r.Err? {
          FailureMovesOn(s, env, x, frozen, k, r.error);
        }
    }
  }

  /** A stopping test that fires at `x` ends the loop there, converged,
      after `k + 1` iterations. */
  lemma IterateStops(s: Settings, env: Env, x: Vec, frozen: Matrix<real>, k: nat)
    requires s.Valid() && env.Valid() && x.Size() == env.N() && frozen.Valid() && k < s.controls.maxIter
    requires StepAt(s, env, x, frozen) == Converged
    ensures Iterate(s, env, x, frozen, k) == Ok(Report(x, true, k + 1))
  {
  }

  /** One loop body that moves on from `x` to `next` puts `next`'s walk one
      step behind `x`'s. */
  lemma WalkMovesOn(s: Settings, env: Env, x: Vec, frozen: Matrix<real>, m: nat)
    requires s.Valid() && env.Valid() && x.Size() == env.N() && frozen.Valid()
    requires StepAt(s, env, x, frozen).Continue?
    ensures Walk(s, env, x, frozen, m + 1) == Walk(s, env, StepAt(s, env, x, frozen).next, frozen, m)
    ensures Continues(s, env, x, frozen, m + 1) <==> Continues(s, env, StepAt(s, env, x, frozen).next, frozen, m)
  {
  }

  /** One loop body that moves on extends the trajectory of the rest of the
      loop by one step. */
  lemma IterateMovesOn(s: Settings, env: Env, x: Vec, frozen: Matrix<real>, k: nat, report: Report)
    requires s.Valid() && env.Valid() && x.Size() == env.N() && frozen.Valid() && k < s.controls.maxIter
    requires StepAt(s, env, x, frozen).Continue?
    requires FollowsLoop(s, env, StepAt(s, env, x, frozen).next, frozen, k + 1, report)
    ensures FollowsLoop(s, env, x, frozen, k, report)
  {
    var stop := if report.converged then 1 else 0;
    WalkMovesOn(s, env, x, frozen, report.iterDone - (k + 1) - stop);
  }

  /** One loop body that moves on carries a later failure back to `x`. */
  lemma FailureMovesOn(s: Settings, env: Env, x: Vec, frozen: Matrix<real>, k: nat, e: Error)
    requires s.Valid() && env.Valid() && x.Size() == env.N() && frozen.Valid() && k < s.controls.maxIter
    requires StepAt(s, env, x, frozen).Continue?
    requires FailsWith(s, env, StepAt(s, env, x, frozen).next, frozen, k + 1, e)
    ensures FailsWith(s, env, x, frozen, k, e)
  {
    var next := StepAt(s, env, x, frozen).next;
    var m: nat :| k + 1 + m < s.controls.maxIter && Continues(s, env, next, frozen, m)
      && StepAt(s, env, Walk(s, env, next, frozen, m), frozen) == Failed(e);
    WalkMovesOn(s, env, x, frozen, m);
  }

  /** The solver run: an empty system ends the program early; otherwise
      `J_frozen` is fixed at `x0` and the loop runs from `k = 0`. */
  function Run(s: Settings, env: Env, x0: Vec): (r: Result<Report>)
    requires s.Valid() && env.Valid()
    requires env.N() != 0 ==> x0.Size() == env.N()
    ensures env.N() == 0 ==> r == Err(EmptySystem)
    ensures r.Ok? ==> (r.value.x.Size() == env.N()
      && r.value.iterDone <= s.controls.maxIter
      && (!r.value.converged ==> r.value.iterDone == s.controls.maxIter)
      && (r.value.converged ==>
            (r.value.iterDone >= 1
             && StepAt(s, env, r.value.x, FrozenJacobian(s, env, x0)) == Converged)))
  {
    if env.N() == 0 then Err(EmptySystem)
    else Iterate(s, env, x0, FrozenJacobian(s, env, x0), 0)
  }

  /** A run's report is the trajectory of its loop from `x0`, and a failed
      run on a non-empty system failed in the loop body of an iterate on that
      trajectory. A stopping test that fires at `x0` ends the run there after
      one iteration. */
  lemma RunFollowsLoop(s: Settings, env: Env, x0: Vec)
    requires s.Valid() && env.Valid() && env.N() != 0 && x0.Size() == env.N()
    ensures Run(s, env, x0).Ok? ==> FollowsLoop(s, env, x0, FrozenJacobian(s, env, x0), 0, Run(s, env, x0).value)
    ensures Run(s, env, x0).Err? ==> FailsWith(s, env, x0, FrozenJacobian(s, env, x0), 0, Run(s, env, x0).error)
    ensures 0 < s.controls.maxIter && StepAt(s, env, x0, FrozenJacobian(s, env, x0)) == Converged ==>
      Run(s, env, x0) == Ok(Report(x0, true, 1))
  {
    var frozen := FrozenJacobian(s, env, x0);
    IterateFollowsLoop(s, env, x0, frozen, 0);
    IterateFailsAlongLoop(s, env, x0, frozen, 0);
    if 0 < s.controls.maxIter && StepAt(s, env, x0, frozen) == Converged {
      IterateStops(s, env, x0, frozen, 0);
    }
  }

  /** A starting point that already meets `||F|| < eps_F` is reported as
      converged after one iteration, whatever the Jacobian and the solver. */
  lemma ResidualStopAtStart(s: Settings, env: Env, x0: Vec)
    requires s.Valid() && env.Valid() && env.N() != 0 && x0.Size() == env.N()
    requires s.controls.maxIter > 0 && env.norm(ComputeF(x0, env.fs)) < s.controls.epsF
    ensures Run(s, env, x0) == Ok(Report(x0, true, 1))
  {
  }

  /** Two settings with the same controls whose Jacobians agree at every
      iterate run the same way. */
  lemma {:induction false} IterateSameJacobians(
    s1: Settings, s2: Settings, env: Env, x: Vec, f1: Matrix<real>, f2: Matrix<real>, k: nat)
    requires s1.Valid() && s2.Valid() && env.Valid() && x.Size() == env.N()
    requires f1.Valid() && f2.Valid() && s1.controls == s2.controls && k <= s1.controls.maxIter
    requires forall y: Vec :: y.Size() == env.N() ==> CurrentJacobian(s1, env, y, f1) == CurrentJacobian(s2, env, y, f2)
    ensures Iterate(s1, env, x, f1, k) == Iterate(s2, env, x, f2, k)
    decreases s1.controls.maxIter - k
  {
    if k < s1.controls.maxIter {
      assert CurrentJacobian(s1, env, x, f1) == CurrentJacobian(s2, env, x, f2);
      var st := StepAt(s1, env, x, f1);
      if st.Continue? {
        IterateSameJacobians(s1, s2, env, st.next, f1, f2, k + 1);
      }
    }
  }

  /** With a manual Jacobian the two methods coincide: Newton's method keeps
      reusing the same matrix that the modified method freezes. */
  lemma ManualMethodsAgree(s: Settings, env: Env, x0: Vec)
    requires s.Valid() && env.Valid() && s.source.Manual?
    requires env.N() != 0 ==> x0.Size() == env.N()
    ensures Run(s.(algorithm := Newton), env, x0) == Run(s.(algorithm := ModifiedNewton), env, x0)
  {
    if env.N() != 0 {
      var sn, sm := s.(algorithm := Newton), s.(algorithm := ModifiedNewton);
      IterateSameJacobians(sn, sm, env, x0, FrozenJacobian(sn, env, x0), FrozenJacobian(sm, env, x0), 0);
    }
  }

  /** The modified method with a numeric Jacobian is Newton's method with the
      numeric Jacobian at `x0` typed in by hand. */
  lemma ModifiedIsNewtonWithFrozenJacobian(s: Settings, env: Env, x0: Vec)
    requires s.Valid() && env.Valid() && s.source.Numeric? && s.algorithm == ModifiedNewton
    requires env.N() != 0 && x0.Size() == env.N()
    ensures Run(s, env, x0)
      == Run(s.(algorithm := Newton, source := Manual(NumericJacobian(env, s.source.formula, x0).value)), env, x0)
  {
    var s2 := s.(algorithm := Newton, source := Manual(NumericJacobian(env, s.source.formula, x0).value));
    IterateSameJacobians(s, s2, env, x0, FrozenJacobian(s, env, x0), FrozenJacobian(s2, env, x0), 0);
  }

  /** Row `i` of the product `A v` (as `matmul` computes it on a column) is
      the linear form `Linear`. */
  lemma {:induction false} RowDotColIsLinear(A: Matrix<real>, v: Vec, i: nat, t: nat)
    requires A.Valid() && A.cols == v.Size() && i < A.rows && t <= A.cols
    ensures Linalg.RowDotCol(A, ToColumnMatrix(v), i, 0, t) == Linear(A, i, v, t)
  {
    if t != 0 {
      RowDotColIsLinear(A, v, i, t - 1);
      ColumnCell(ToColumnMatrix(v), t - 1);
    }
  }

  /** The linear form of a full step is the sum of the linear forms. */
  lemma {:induction false} LinearAdditive(A: Matrix<real>, x: Vec, step: Vec, x': Vec, i: nat, t: nat)
    requires A.Valid() && i < A.rows && t <= A.cols && t <= x.Size() && MovedBy(x, x', 1.0, step)
    ensures Linear(A, i, x', t) == Linear(A, i, x, t) + Linear(A, i, step, t)
  {
    if t != 0 {
      LinearAdditive(A, x, step, x', i, t - 1);
      var a := A.Cell(i, t - 1);
      assert x'.items[t - 1] == x.items[t - 1] + step.items[t - 1];
      assert a * x'.items[t - 1] == a * x.items[t - 1] + a * step.items[t - 1];
    }
  }

  /** Buffer element `i` of `F(x)` is `f_i(x)`. */
  lemma ComputeFAt(x: Vec, fs: seq<Residual>, i: nat)
    requires i < |fs|
    ensures ComputeF(x, fs).data[i] == fs[i](x)
  {
    ColumnCell(ComputeF(x, fs), i);
  }

  /** A solution `s` of `A s = -F` satisfies row `i` of it: `(A s)_i + F_i = 0`. */
  lemma LinearOfSolution(A: Matrix<real>, step: Vec, fx: Matrix<real>, i: nat)
    requires A.Valid() && fx.Valid() && fx.cols == 1 && A.cols == step.Size() && i < A.rows
    requires Linalg.Matmul(A, ToColumnMatrix(step)) == Ok(Linalg.Negate(fx))
    ensures i < fx.rows && Linear(A, i, step, A.cols) + fx.data[i] == 0.0
  {
    var prod := Linalg.Matmul(A, ToColumnMatrix(step)).value;
    RowDotColIsLinear(A, step, i, A.cols);
    ColumnCell(prod, i);
  }

  /** On affine residuals, a full step `s` from `x` whose row `i` satisfies
      `(A s)_i + f_i(x) = 0` zeroes `f_i`. */
  lemma AffineRootRow(fs: seq<Residual>, A: Matrix<real>, b: seq<real>, x: Vec, step: Vec, x': Vec, i: nat)
    requires IsAffine(fs, A, b) && x.Size() == |fs| && i < |fs| && MovedBy(x, x', 1.0, step)
    requires Linear(A, i, step, |fs|) + fs[i](x) == 0.0
    ensures fs[i](x') == 0.0
  {
    LinearAdditive(A, x, step, x', i, |fs|);
    AffineAt(fs, A, b, x', i);
    AffineAt(fs, A, b, x, i);
  }

  /** Newton's method is exact on affine residuals: with an exact solver, no
      damping and the Jacobian `A`, a step that moves lands on a root. */
  lemma AffineRootInOneStep(c: Controls, env: Env, x: Vec, A: Matrix<real>, b: seq<real>)
    requires env.Valid() && x.Size() == env.N()
    requires IsAffine(env.fs, A, b) && SolvesExactly(env.solve) && c.lambda == 1.0
    requires Step(c, env, x, A).Continue?
    ensures forall i :: 0 <= i < env.N() ==> env.fs[i](Step(c, env, x, A).next) == 0.0
  {
    var fx := ComputeF(x, env.fs);
    var step := SolveStep(A, fx, env.solve).value;
    var x' := Step(c, env, x, A).next;
    StepSolvesNewtonEquation(A, fx, env.solve);
    forall i | 0 <= i < env.N()
      ensures env.fs[i](x') == 0.0
    {
      LinearOfSolution(A, step, fx, i);
      ComputeFAt(x, env.fs, i);
      AffineRootRow(env.fs, A, b, x, step, x', i);
    }
  }
}
