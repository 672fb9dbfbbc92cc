/** `miv::matrix<T>`: a `rows x cols` matrix over a row-major buffer of
    exactly `rows * cols` elements, with checked access.

    Cell `(r, c)` lives at buffer index `r * cols + c`. Buffers the C++ code
    allocates but never writes take their contents from a `junk` parameter.
 */
module Matrices {
  import opened Exceptions
  import Arrays

  datatype Matrix<T> = Matrix(rows: nat, cols: nat, data: seq<T>) {

    /** The class invariant: the buffer holds exactly `rows * cols` elements. */
    predicate Valid() {
      |data| == rows * cols
    }

    /** `empty()` */
    predicate IsEmpty() {
      rows == 0 || cols == 0
    }

    /** `size()`: the buffer length. */
    function Size(): nat {
      |data|
    }

    /** The element at `(r, c)`, for in-range indices. */
    function Cell(r: nat, c: nat): T
      requires Valid() && r < rows && c < cols
    {
      IndexInBounds(r, c, rows, cols);
      data[r * cols + c]
    }
  }

  // ---------------------------------------------------------------------------
  // Row-major index arithmetic
  // ---------------------------------------------------------------------------

  lemma IndexInBounds(r: nat, c: nat, rows: nat, cols: nat)
    requires r < rows && c < cols
    ensures r * cols + c < rows * cols
    ensures (r + 1) * cols <= rows * cols
  {
    assert (r + 1) * cols == r * cols + cols;
    MulMonotone(r + 1, rows, cols);
  }

  lemma MulMonotone(a: nat, b: nat, k: nat)
    requires a <= b
    ensures a * k <= b * k
  {
    assert b * k == a * k + (b - a) * k;
  }

  /** Buffer index `r * cols + c` decodes back to `(r, c)`. */
  lemma IndexDivMod(r: nat, c: nat, cols: nat)
    requires c < cols
    ensures (r * cols + c) / cols == r
    ensures (r * cols + c) % cols == c
  {
    var k := r * cols + c;
    var q := k / cols;
    var m := k % cols;
    assert k == q * cols + m;
    if q > r {
      assert q * cols == r * cols + (q - r) * cols;
      MulMonotone(1, q - r, cols);
      assert false;
    } else if q < r {
      assert r * cols == q * cols + (r - q) * cols;
      MulMonotone(1, r - q, cols);
      assert false;
    }
  }

  /** Every buffer index decodes to an in-range `(row, col)`. */
  lemma DivModBounds(k: nat, rows: nat, cols: nat)
    requires k < rows * cols
    ensures cols > 0
    ensures k / cols < rows && k % cols < cols
    ensures (k / cols) * cols + k % cols == k
  {
    var q := k / cols;
    if q >= rows {
      MulMonotone(rows, q, cols);
      assert false;
    }
  }

  // ---------------------------------------------------------------------------
  // Building a matrix cell by cell
  // ---------------------------------------------------------------------------

  function BuildData<T>(rows: nat, cols: nat, f: (nat, nat) --> T): (d: seq<T>)
    requires forall r: nat, c: nat :: r < rows && c < cols ==> f.requires(r, c)
    ensures |d| == rows * cols
    ensures forall k: nat :: k < |d| ==> cols > 0 && d[k] == f(k / cols, k % cols)
  {
    seq(rows * cols, k requires 0 <= k < rows * cols =>
      DivModBounds(k, rows, cols);
      f(k / cols, k % cols))
  }

  /** The `rows x cols` matrix whose cell `(r, c)` is `f(r, c)`: the shape of
      every loop in the library that allocates an output and writes each cell. */
  function Build<T>(rows: nat, cols: nat, f: (nat, nat) --> T): (m: Matrix<T>)
    requires forall r: nat, c: nat :: r < rows && c < cols ==> f.requires(r, c)
    ensures m.Valid() && m.rows == rows && m.cols == cols
    ensures forall r: nat, c: nat :: r < rows && c < cols ==> m.Cell(r, c) == f(r, c)
  {
    var d := BuildData(rows, cols, f);
    BuildCells(rows, cols, f, d);
    Matrix(rows, cols, d)
  }

  lemma BuildCells<T>(rows: nat, cols: nat, f: (nat, nat) --> T, d: seq<T>)
    requires forall r: nat, c: nat :: r < rows && c < cols ==> f.requires(r, c)
    requires |d| == rows * cols
    requires forall k: nat :: k < |d| ==> cols > 0 && d[k] == f(k / cols, k % cols)
    ensures forall r: nat, c: nat :: r < rows && c < cols ==> Matrix(rows, cols, d).Cell(r, c) == f(r, c)
  {
    forall r: nat, c: nat | r < rows && c < cols
      ensures Matrix(rows, cols, d).Cell(r, c) == f(r, c)
    {
      IndexInBounds(r, c, rows, cols);
      IndexDivMod(r, c, cols);
    }
  }

  /** In a one-column matrix, cell `(k, 0)` is buffer element `k`. */
  lemma ColumnCell<T>(m: Matrix<T>, k: nat)
    requires m.Valid() && m.cols == 1 && k < m.rows
    ensures m.Cell(k, 0) == m.data[k]
  {
    assert k * m.cols == k;
  }

  /** Two valid matrices of the same shape that agree on every cell are equal. */
  lemma CellsDetermine<T>(a: Matrix<T>, b: Matrix<T>)
    requires a.Valid() && b.Valid() && a.rows == b.rows && a.cols == b.cols
    requires forall r: nat, c: nat :: r < a.rows && c < a.cols ==> a.Cell(r, c) == b.Cell(r, c)
    ensures a == b
  {
    forall k: nat | k < |a.data|
      ensures a.data[k] == b.data[k]
    {
      DivModBounds(k, a.rows, a.cols);
      var r, c := k / a.cols, k % a.cols;
      assert a.Cell(r, c) == b.Cell(r, c);
    }
    assert a.data == b.data;
  }

  // ---------------------------------------------------------------------------
  // Constructors
  // ---------------------------------------------------------------------------

  /** `matrix()`: the 0 x 0 matrix. */
  function Default<T>(): (m: Matrix<T>)
    ensures m.Valid() && m.rows == 0 && m.cols == 0 && m.Size() == 0
  {
    Matrix(0, 0, [])
  }

  /** `matrix(rows, cols)`: a buffer of `rows * cols` elements from
      `array(rows * cols)`, which does not initialise them. */
  function Allocate<T>(rows: nat, cols: nat, junk: Arrays.Junk<T>): (m: Matrix<T>)
    ensures m.Valid() && m.rows == rows && m.cols == cols
    ensures forall k :: 0 <= k < m.Size() ==> m.data[k] == junk(k)
  {
    Matrix(rows, cols, Arrays.Allocate(rows * cols, junk).items)
  }

  /** The rows of a nested literal are rectangular when every row after a
      non-empty row has that row's length (empty rows may only lead). */
  ghost predicate Rectangular<T>(init: seq<seq<T>>) {
    forall i, j :: 0 <= i < j < |init| && |init[i]| != 0 ==> |init[j]| == |init[i]|
  }

  /** The length of the first non-empty row, or 0 when there is none. */
  function Width<T>(init: seq<seq<T>>): nat {
    if |init| == 0 then 0
    else if |init[0]| != 0 then |init[0]|
    else Width(init[1..])
  }

  /** The validation loop of the nested-list constructor from row `i` on,
      with `c` the column count fixed so far (0 while only empty rows were seen):
      the first non-empty row fixes `c`, every later row must match it. */
  function ScanWidth<T>(init: seq<seq<T>>, i: nat, c: nat): (r: Result<nat>)
    requires i <= |init|
    decreases |init| - i
  {
    if i == |init| then Ok(c)
    else if c == 0 then ScanWidth(init, i + 1, |init[i]|)
    else if |init[i]| != c then Err(InvalidArgument)
    else ScanWidth(init, i + 1, c)
  }

  /** What the scan knows after the first `i` rows with width `c` so far:
      `c == 0` iff those rows are all empty, and otherwise they are `c` wide
      wherever they are not empty, after the first non-empty one. */
  predicate ScanState<T>(init: seq<seq<T>>, i: nat, c: nat) {
    i <= |init|
    && (c == 0 ==> forall k :: 0 <= k < i ==> |init[k]| == 0)
    && (c != 0 ==> ((exists k :: 0 <= k < i && |init[k]| != 0)
      && (forall k :: 0 <= k < i && |init[k]| != 0 ==> |init[k]| == c)
      && Width(init) == c))
    && forall k, l :: 0 <= k < l < i && |init[k]| != 0 ==> |init[l]| == |init[k]|
  }

  /** The scan accepts exactly the rectangular literals, and returns their width. */
  lemma {:induction false} ScanWidthCorrect<T>(init: seq<seq<T>>, i: nat, c: nat)
    requires ScanState(init, i, c)
    ensures ScanWidth(init, i, c).Ok? <==> Rectangular(init)
    ensures ScanWidth(init, i, c).Ok? ==> ScanWidth(init, i, c).value == Width(init)
    ensures ScanWidth(init, i, c).Err? ==> ScanWidth(init, i, c).error == InvalidArgument
    decreases |init| - i
  {
    if i == |init| {
      ScanEnd(init, c);
    } else if c == 0 || |init[i]| == c {
      ScanAdvance(init, i, c);
      ScanWidthCorrect(init, i + 1, if c == 0 then |init[i]| else c);
    } else {
      ScanMismatch(init, i, c);
    }
  }

  /** A scan that reached the end has seen a rectangular literal of width `c`. */
  lemma ScanEnd<T>(init: seq<seq<T>>, c: nat)
    requires ScanState(init, |init|, c)
    ensures Rectangular(init) && Width(init) == c
  {
    if c == 0 {
      WidthOfEmptyRows(init);
    }
  }

  /** A row that matches the width so far (or fixes it) keeps the scan state. */
  lemma ScanAdvance<T>(init: seq<seq<T>>, i: nat, c: nat)
    requires ScanState(init, i, c) && i < |init| && (c == 0 || |init[i]| == c)
    ensures ScanState(init, i + 1, if c == 0 then |init[i]| else c)
  {
    if c == 0 && |init[i]| != 0 {
      WidthAfterEmptyRows(init, i);
    }
  }

  /** A non-empty width followed by a row of another length is not rectangular. */
  lemma ScanMismatch<T>(init: seq<seq<T>>, i: nat, c: nat)
    requires ScanState(init, i, c) && i < |init| && c != 0 && |init[i]| != c
    ensures !Rectangular(init)
  {
    var k :| 0 <= k < i && |init[k]| != 0;
    assert |init[i]| != |init[k]|;
  }

  lemma {:induction false} WidthOfEmptyRows<T>(init: seq<seq<T>>)
    requires forall k :: 0 <= k < |init| ==> |init[k]| == 0
    ensures Width(init) == 0
    decreases |init|
  {
    if |init| != 0 {
      WidthOfEmptyRows(init[1..]);
    }
  }

  lemma {:induction false} WidthAfterEmptyRows<T>(init: seq<seq<T>>, i: nat)
    requires i < |init| && |init[i]| != 0
    requires forall k :: 0 <= k < i ==> |init[k]| == 0
    ensures Width(init) == |init[i]|
    decreases i
  {
    if i != 0 {
      WidthAfterEmptyRows(init[1..], i - 1);
    }
  }

  /** In a rectangular literal every non-empty row has the width. */
  lemma {:induction false} NonEmptyRowHasWidth<T>(init: seq<seq<T>>, i: nat)
    requires Rectangular(init) && i < |init| && |init[i]| != 0
    ensures |init[i]| == Width(init)
  {
    if |init[0]| == 0 {
      assert Rectangular(init[1..]) by {
        forall a, b | 0 <= a < b < |init[1..]| && |init[1..][a]| != 0
          ensures |init[1..][b]| == |init[1..][a]|
        {
          assert init[1..][a] == init[a + 1] && init[1..][b] == init[b + 1];
        }
      }
      NonEmptyRowHasWidth(init[1..], i - 1);
    } else if i != 0 {
      assert |init[i]| == |init[0]|;
    }
  }

  /** `matrix(std::initializer_list<std::initializer_list<T>>)`: throws
      `invalid_argument` on a ragged literal; no rows or no columns give 0 x 0;
      otherwise cell `(rr, cc)` holds the literal. Leading empty rows are
      allowed and their cells are never written. */
  function FromNested<T>(init: seq<seq<T>>, junk: Arrays.Junk<T>): (r: Result<Matrix<T>>)
    ensures r.Err? <==> !Rectangular(init)
    ensures r.Err? ==> r.error == InvalidArgument
    ensures r.Ok? ==> r.value.Valid()
    ensures r.Ok? && Width(init) == 0 ==> r.value == Default()
    ensures r.Ok? && Width(init) != 0 ==>
      r.value.rows == |init| && r.value.cols == Width(init)
      && forall rr: nat, cc: nat :: rr < |init| && cc < |init[rr]| ==>
           |init[rr]| == Width(init) && r.value.Cell(rr, cc) == init[rr][cc]
  {
    ScanWidthCorrect(init, 0, 0);
    var c :- ScanWidth(init, 0, 0);
    if |init| == 0 || c == 0 then Ok(Default())
    else
      var rows := |init|;
      assert forall rr :: 0 <= rr < rows && |init[rr]| != 0 ==> |init[rr]| == c by {
        forall rr | 0 <= rr < rows && |init[rr]| != 0
          ensures |init[rr]| == c
        {
          NonEmptyRowHasWidth(init, rr);
        }
      }
      Ok(Build(rows, c, (rr: nat, cc: nat) requires rr < rows && cc < c =>
        if |init[rr]| == c then init[rr][cc] else junk(rr * c + cc)))
  }

  /** `matrix(const type *data, rows, cols)`: a zero dimension gives 0 x 0,
      a null pointer otherwise throws, else `rows * cols` elements are copied. */
  function FromBuffer<T>(data: Option<seq<T>>, rows: nat, cols: nat): (r: Result<Matrix<T>>)
    requires data.Some? ==> |data.value| >= rows * cols
    ensures (rows == 0 || cols == 0) ==> r == Ok(Default())
    ensures r.Err? <==> rows != 0 && cols != 0 && data.None?
    ensures r.Err? ==> r.error == InvalidArgument
    ensures r.Ok? ==> r.value.Valid()
    ensures r.Ok? && rows != 0 && cols != 0 ==>
      r.value.rows == rows && r.value.cols == cols
      && forall k :: 0 <= k < rows * cols ==> r.value.data[k] == data.value[k]
  {
    if rows == 0 || cols == 0 then Ok(Default())
    else if data.None? then Err(InvalidArgument)
    else Ok(Matrix(rows, cols, data.value[..rows * cols]))
  }

  /** `matrix(const miv::array<T> &row)`: a 1 x N matrix, or 0 x 0 for an
      empty array. */
  function FromArray<T>(row: Arrays.Array<T>): (m: Matrix<T>)
    ensures m.Valid()
    ensures m.cols == row.Size()
    ensures m.rows == if row.Size() == 0 then 0 else 1
    ensures forall c: nat :: c < row.Size() ==> m.Cell(0, c) == row.items[c]
  {
    Matrix(if |row.items| == 0 then 0 else 1, |row.items|, row.items)
  }

  /** Every row has length `n`. */
  ghost predicate AllRowsHave<T>(rows: seq<Arrays.Array<T>>, n: nat) {
    forall i :: 0 <= i < |rows| ==> rows[i].Size() == n
  }

  /** The rows laid end to end. */
  function Concat<T>(rows: seq<Arrays.Array<T>>): seq<T> {
    if |rows| == 0 then [] else rows[0].items + Concat(rows[1..])
  }

  lemma {:induction false} ConcatCell<T>(rows: seq<Arrays.Array<T>>, n: nat, r: nat, c: nat)
    requires AllRowsHave(rows, n) && r < |rows| && c < n
    ensures r * n + c < |Concat(rows)|
    ensures Concat(rows)[r * n + c] == rows[r].items[c]
    decreases r
  {
    if r == 0 {
      assert rows[0].Size() == n;
    } else {
      assert AllRowsHave(rows[1..], n);
      ConcatCell(rows[1..], n, r - 1, c);
      ConcatCellShift(rows, n, r, c);
    }
  }

  /** Cell `(r, c)` of the rows is cell `(r - 1, c)` of the rows after the first. */
  lemma ConcatCellShift<T>(rows: seq<Arrays.Array<T>>, n: nat, r: nat, c: nat)
    requires AllRowsHave(rows, n) && 0 < r < |rows| && c < n
    requires (r - 1) * n + c < |Concat(rows[1..])|
    requires Concat(rows[1..])[(r - 1) * n + c] == rows[r].items[c]
    ensures r * n + c < |Concat(rows)|
    ensures Concat(rows)[r * n + c] == rows[r].items[c]
  {
    assert r * n + c == n + ((r - 1) * n + c);
    assert rows[0].Size() == n;
  }

  lemma {:induction false} ConcatLength<T>(rows: seq<Arrays.Array<T>>, n: nat)
    requires AllRowsHave(rows, n)
    ensures |Concat(rows)| == |rows| * n
  {
    if |rows| != 0 {
      assert AllRowsHave(rows[1..], n);
      ConcatLength(rows[1..], n);
      assert |rows| * n == n + (|rows| - 1) * n;
    }
  }

  /** `matrix(std::initializer_list<miv::array<T>>)`: the first row fixes the
      column count; any row of another length throws `invalid_argument`. With
      0 columns the result is `|rows| x 0`. */
  function FromRows<T>(rows: seq<Arrays.Array<T>>): (r: Result<Matrix<T>>)
    ensures |rows| == 0 ==> r == Ok(Default())
    ensures |rows| != 0 ==> (r.Err? <==> !AllRowsHave(rows, rows[0].Size()))
    ensures r.Err? ==> r.error == InvalidArgument
    ensures r.Ok? ==> r.value.Valid() && r.value.rows == |rows|
    ensures r.Ok? && |rows| != 0 ==> (r.value.cols == rows[0].Size()
      && forall rr: nat, cc: nat :: rr < |rows| && cc < rows[0].Size() ==>
           r.value.Cell(rr, cc) == rows[rr].items[cc])
  {
    if |rows| == 0 then Ok(Default())
    else
      var cols := rows[0].Size();
      if exists i :: 0 <= i < |rows| && rows[i].Size() != cols then Err(InvalidArgument)
      else if cols == 0 then Ok(Matrix(|rows|, 0, []))
      else
        ConcatLength(rows, cols);
        var m := Matrix(|rows|, cols, Concat(rows));
        assert forall rr: nat, cc: nat :: rr < |rows| && cc < cols ==> m.Cell(rr, cc) == rows[rr].items[cc] by {
          forall rr: nat, cc: nat | rr < |rows| && cc < cols
            ensures m.Cell(rr, cc) == rows[rr].items[cc]
          {
            ConcatCell(rows, cols, rr, cc);
          }
        }
        Ok(m)
  }

  // ---------------------------------------------------------------------------
  // Element access
  // ---------------------------------------------------------------------------

  /** `linear_index(r, c)`: throws `out_of_range` unless `r < rows` and
      `c < cols`; otherwise the row-major buffer index. */
  function LinearIndex<T>(m: Matrix<T>, r: nat, c: nat): (res: Result<nat>)
    requires m.Valid()
    ensures res.Err? <==> r >= m.rows || c >= m.cols
    ensures res.Err? ==> res.error == OutOfRange
    ensures res.Ok? ==> res.value < m.Size() && res.value / m.cols == r && res.value % m.cols == c
  {
    if r >= m.rows || c >= m.cols then Err(OutOfRange)
    else
      IndexInBounds(r, c, m.rows, m.cols);
      IndexDivMod(r, c, m.cols);
      Ok(r * m.cols + c)
  }

  /** `operator()(r, c)` (read): the buffer's checked `operator[]` at the
      linear index. */
  function At<T>(m: Matrix<T>, r: nat, c: nat): (res: Result<T>)
    requires m.Valid()
    ensures res.Err? <==> r >= m.rows || c >= m.cols
    ensures res.Err? ==> res.error == OutOfRange
    ensures res.Ok? ==> res.value == m.Cell(r, c)
  {
    var idx :- LinearIndex(m, r, c);
    Arrays.Get(Arrays.Array(m.data), idx)
  }

  /** `operator()(r, c) = v`: the same check, then one cell replaced. */
  function Update<T>(m: Matrix<T>, r: nat, c: nat, v: T): (res: Result<Matrix<T>>)
    requires m.Valid()
    ensures res.Err? <==> r >= m.rows || c >= m.cols
    ensures res.Err? ==> res.error == OutOfRange
    ensures res.Ok? ==> (res.value.Valid() && res.value.rows == m.rows && res.value.cols == m.cols
      && res.value.Cell(r, c) == v
      && forall r': nat, c': nat :: r' < m.rows && c' < m.cols && (r' != r || c' != c) ==>
           res.value.Cell(r', c') == m.Cell(r', c'))
  {
    var idx :- LinearIndex(m, r, c);
    var buf := Arrays.Set(Arrays.Array(m.data), idx, v).value;
    UpdateCells(m, r, c, v, idx, buf.items);
    Ok(Matrix(m.rows, m.cols, buf.items))
  }

  lemma UpdateCells<T>(m: Matrix<T>, r: nat, c: nat, v: T, idx: nat, d: seq<T>)
    requires m.Valid() && r < m.rows && c < m.cols
    requires idx == r * m.cols + c && idx < |m.data| && d == m.data[idx := v]
    ensures Matrix(m.rows, m.cols, d).Valid()
    ensures Matrix(m.rows, m.cols, d).Cell(r, c) == v
    ensures forall r': nat, c': nat :: r' < m.rows && c' < m.cols && (r' != r || c' != c) ==>
      Matrix(m.rows, m.cols, d).Cell(r', c') == m.Cell(r', c')
  {
    forall r': nat, c': nat | r' < m.rows && c' < m.cols && (r' != r || c' != c)
      ensures Matrix(m.rows, m.cols, d).Cell(r', c') == m.Cell(r', c')
    {
      IndexDivMod(r', c', m.cols);
      IndexDivMod(r, c, m.cols);
      IndexInBounds(r', c', m.rows, m.cols);
    }
  }

  /** Reading a cell just written gives the written value back. */
  lemma UpdateThenAt<T>(m: Matrix<T>, r: nat, c: nat, v: T)
    requires m.Valid() && r < m.rows && c < m.cols
    ensures Update(m, r, c, v).Ok? && At(Update(m, r, c, v).value, r, c) == Ok(v)
  {
  }

  // ---------------------------------------------------------------------------
  // Row and column extraction
  // ---------------------------------------------------------------------------

  /** `row(r)`: throws `out_of_range` when `r >= rows`; otherwise a copy of
      row `r` of length `cols`. */
  function Row<T>(m: Matrix<T>, r: nat): (res: Result<Arrays.Array<T>>)
    requires m.Valid()
    ensures res.Err? <==> r >= m.rows
    ensures res.Err? ==> res.error == OutOfRange
    ensures res.Ok? ==> (res.value.Size() == m.cols
      && forall c: nat :: c < m.cols ==> res.value.items[c] == m.Cell(r, c))
  {
    if r >= m.rows then Err(OutOfRange)
    else if m.cols == 0 then Ok(Arrays.Empty())
    else
      IndexInBounds(r, 0, m.rows, m.cols);
      var copy := Arrays.FromBuffer(Some(m.data[r * m.cols..]), m.cols);
      Ok(copy.value)
  }

  /** `col(c)`: throws `out_of_range` when `c >= cols`; otherwise a copy of
      column `c` of length `rows`. */
  function Col<T>(m: Matrix<T>, c: nat): (res: Result<Arrays.Array<T>>)
    requires m.Valid()
    ensures res.Err? <==> c >= m.cols
    ensures res.Err? ==> res.error == OutOfRange
    ensures res.Ok? ==> (res.value.Size() == m.rows
      && forall r: nat :: r < m.rows ==> res.value.items[r] == m.Cell(r, c))
  {
    if c >= m.cols then Err(OutOfRange)
    else if m.rows == 0 then Ok(Arrays.Empty())
    else Ok(Arrays.Array(seq(m.rows, r requires 0 <= r < m.rows => m.Cell(r, c))))
  }

  /** `row_matrix(r)`: row `r` as a `1 x cols` matrix. */
  function RowMatrix<T>(m: Matrix<T>, r: nat): (res: Result<Matrix<T>>)
    requires m.Valid()
    ensures res.Err? <==> r >= m.rows
    ensures res.Err? ==> res.error == OutOfRange
    ensures res.Ok? ==> (res.value.Valid() && res.value.rows == 1 && res.value.cols == m.cols
      && forall c: nat :: c < m.cols ==> res.value.Cell(0, c) == m.Cell(r, c))
  {
    if r >= m.rows then Err(OutOfRange)
    else Ok(Build(1, m.cols, (_: nat, c: nat) requires c < m.cols => m.Cell(r, c)))
  }

  /** `col_matrix(c)`: column `c` as a `rows x 1` matrix. */
  function ColMatrix<T>(m: Matrix<T>, c: nat): (res: Result<Matrix<T>>)
    requires m.Valid()
    ensures res.Err? <==> c >= m.cols
    ensures res.Err? ==> res.error == OutOfRange
    ensures res.Ok? ==> (res.value.Valid() && res.value.rows == m.rows && res.value.cols == 1
      && forall r: nat :: r < m.rows ==> res.value.Cell(r, 0) == m.Cell(r, c))
  {
    if c >= m.cols then Err(OutOfRange)
    else Ok(Build(m.rows, 1, (r: nat, _: nat) requires r < m.rows => m.Cell(r, c)))
  }

  // ---------------------------------------------------------------------------
  // Whole-matrix actions
  // ---------------------------------------------------------------------------

  /** `clear()`: 0 x 0 with no buffer. */
  function Clear<T>(m: Matrix<T>): (r: Matrix<T>)
    ensures r.Valid() && r.rows == 0 && r.cols == 0 && r.IsEmpty()
  {
    Default()
  }

  /** `fill(value)`: every element becomes `value`; the shape is unchanged. */
  function Fill<T>(m: Matrix<T>, value: T): (r: Matrix<T>)
    requires m.Valid()
    ensures r.Valid() && r.rows == m.rows && r.cols == m.cols
    ensures forall k :: 0 <= k < r.Size() ==> r.data[k] == value
  {
    Matrix(m.rows, m.cols, Arrays.Fill(Arrays.Array(m.data), value).items)
  }

  /** `resize(new_rows, new_cols)`: the same shape is a no-op, a zero
      dimension clears to 0 x 0, otherwise a fresh buffer in which the
      overlap region keeps its cells at the same `(r, c)`; the other cells
      are the uninitialised contents of the new buffer. */
  function Resize<T>(m: Matrix<T>, newRows: nat, newCols: nat, junk: Arrays.Junk<T>): (r: Matrix<T>)
    requires m.Valid()
    ensures r.Valid()
    ensures newRows == m.rows && newCols == m.cols ==> r == m
    ensures (newRows != m.rows || newCols != m.cols) && (newRows == 0 || newCols == 0) ==> r == Default()
    ensures newRows != 0 && newCols != 0 ==> r.rows == newRows && r.cols == newCols
    ensures newRows != 0 && newCols != 0 ==>
      forall i: nat, j: nat :: i < newRows && i < m.rows && j < newCols && j < m.cols ==>
        r.Cell(i, j) == m.Cell(i, j)
    ensures newRows != 0 && newCols != 0 && (newRows != m.rows || newCols != m.cols) ==>
      forall i: nat, j: nat :: i < newRows && j < newCols && (i >= m.rows || j >= m.cols) ==>
        r.Cell(i, j) == junk(i * newCols + j)
  {
    if newRows == m.rows && newCols == m.cols then m
    else if newRows == 0 || newCols == 0 then Clear(m)
    else CopyOverlap(m, newRows, newCols, junk)
  }

  /** Growing a non-empty matrix and shrinking it back to its old shape
      restores it, whatever the fresh storage held. */
  lemma ResizeGrowShrink<T>(m: Matrix<T>, newRows: nat, newCols: nat, junk: Arrays.Junk<T>, junk': Arrays.Junk<T>)
    requires m.Valid() && !m.IsEmpty() && newRows >= m.rows && newCols >= m.cols
    ensures Resize(Resize(m, newRows, newCols, junk), m.rows, m.cols, junk') == m
  {
    var g := Resize(m, newRows, newCols, junk);
    CellsDetermine(Resize(g, m.rows, m.cols, junk'), m);
  }

  /** Cell `(i, j)` after the copy loop of `resize`: rows below `min_r`
      receive the first `min_c` cells of the old row, so the old cell where
      both indices are in range and the fresh buffer's content elsewhere. */
  function OverlapCell<T>(m: Matrix<T>, newCols: nat, junk: Arrays.Junk<T>, i: nat, j: nat): T
    requires m.Valid()
  {
    if i < m.rows && j < m.cols then m.Cell(i, j) else junk(i * newCols + j)
  }

  /** The buffer `resize` builds for a new non-empty shape. */
  function CopyOverlap<T>(m: Matrix<T>, newRows: nat, newCols: nat, junk: Arrays.Junk<T>): (r: Matrix<T>)
    requires m.Valid()
    ensures r.Valid() && r.rows == newRows && r.cols == newCols
    ensures forall i: nat, j: nat :: i < newRows && j < newCols ==>
      r.Cell(i, j) == OverlapCell(m, newCols, junk, i, j)
  {
    Build(newRows, newCols, (i: nat, j: nat) => OverlapCell(m, newCols, junk, i, j))
  }

  // ---------------------------------------------------------------------------
  // Permutations
  // ---------------------------------------------------------------------------

  /** Every index of `perm` is below `n`. */
  ghost predicate InRange(perm: seq<nat>, n: nat) {
    forall i :: 0 <= i < |perm| ==> perm[i] < n
  }

  /** No index occurs twice in `perm`. */
  ghost predicate Distinct(perm: seq<nat>) {
    forall i, j :: 0 <= i < j < |perm| ==> perm[i] != perm[j]
  }

  /** `perm` is a true permutation of `0 .. n-1`. */
  ghost predicate IsPermutation(perm: seq<nat>, n: nat) {
    |perm| == n && InRange(perm, n) && Distinct(perm)
  }

  /** What the permutation checks report, in the order they run: length
      (`invalid_argument`), then range (`out_of_range`), then duplicates
      (`invalid_argument`). */
  ghost function PermutationCheck(perm: seq<nat>, n: nat): Outcome {
    if |perm| != n then Fail(InvalidArgument)
    else if !InRange(perm, n) then Fail(OutOfRange)
    else if !Distinct(perm) then Fail(InvalidArgument)
    else Pass
  }

  /** The validation shared by `row_permute` and `col_permute`, run against
      the dimension `n` before any data moves: a length test, a range loop
      and a pairwise uniqueness loop. */
  method CheckPermutation(perm: Arrays.Array<nat>, n: nat) returns (r: Outcome)
    ensures r == PermutationCheck(perm.items, n)
    ensures r.Pass? <==> IsPermutation(perm.items, n)
  {
    var p := perm.items;
    if |p| != n {
      return Fail(InvalidArgument);
    }
    var i := 0;
    while i < |p|
      invariant 0 <= i <= |p|
      invariant forall k :: 0 <= k < i ==> p[k] < n
    {
      if p[i] >= n {
        return Fail(OutOfRange);
      }
      i := i + 1;
    }
    i := 0;
    while i < |p|
      invariant 0 <= i <= |p|
      invariant forall a, b :: 0 <= a < i && a < b < |p| ==> p[a] != p[b]
    {
      var j := i + 1;
      while j < |p|
        invariant i + 1 <= j <= |p|
        invariant forall b :: i < b < j ==> p[i] != p[b]
      {
        if p[i] == p[j] {
          return Fail(InvalidArgument);
        }
        j := j + 1;
      }
      i := i + 1;
    }
    return Pass;
  }

  /** New row `r` is old row `perm[r]`. */
  function RowPermuted<T>(m: Matrix<T>, perm: seq<nat>): (res: Matrix<T>)
    requires m.Valid() && |perm| == m.rows && InRange(perm, m.rows)
    ensures res.Valid() && res.rows == m.rows && res.cols == m.cols
    ensures forall r: nat, c: nat :: r < m.rows && c < m.cols ==> res.Cell(r, c) == m.Cell(perm[r], c)
  {
    Build(m.rows, m.cols, (r: nat, c: nat) requires r < m.rows && c < m.cols => m.Cell(perm[r], c))
  }

  /** New column `c` is old column `perm[c]`. */
  function ColPermuted<T>(m: Matrix<T>, perm: seq<nat>): (res: Matrix<T>)
    requires m.Valid() && |perm| == m.cols && InRange(perm, m.cols)
    ensures res.Valid() && res.rows == m.rows && res.cols == m.cols
    ensures forall r: nat, c: nat :: r < m.rows && c < m.cols ==> res.Cell(r, c) == m.Cell(r, perm[c])
  {
    Build(m.rows, m.cols, (r: nat, c: nat) requires r < m.rows && c < m.cols => m.Cell(r, perm[c]))
  }

  /** `row_permute(perm)`: all checks run before any data moves, so a failure
      leaves the caller's matrix as it was; on success new row `r` is old
      row `perm[r]` and the shape is unchanged. */
  method RowPermute<T>(m: Matrix<T>, perm: Arrays.Array<nat>) returns (res: Result<Matrix<T>>)
    requires m.Valid()
    ensures res.Err? <==> !IsPermutation(perm.items, m.rows)
    ensures res.Err? ==> PermutationCheck(perm.items, m.rows) == Fail(res.error)
    ensures res.Ok? ==> (res.value.Valid() && res.value.rows == m.rows && res.value.cols == m.cols
      && forall r: nat, c: nat :: r < m.rows && c < m.cols ==> res.value.Cell(r, c) == m.Cell(perm.items[r], c))
  {
    var check := CheckPermutation(perm, m.rows);
    if check.Fail? {
      return Err(check.error);
    }
    if m.rows == 0 || m.cols == 0 {
      return Ok(m);
    }
    return Ok(RowPermuted(m, perm.items));
  }

  /** `col_permute(perm)`: the same checks against `cols`; on success
      `new(r, c) = old(r, perm[c])`. */
  method ColPermute<T>(m: Matrix<T>, perm: Arrays.Array<nat>) returns (res: Result<Matrix<T>>)
    requires m.Valid()
    ensures res.Err? <==> !IsPermutation(perm.items, m.cols)
    ensures res.Err? ==> PermutationCheck(perm.items, m.cols) == Fail(res.error)
    ensures res.Ok? ==> (res.value.Valid() && res.value.rows == m.rows && res.value.cols == m.cols
      && forall r: nat, c: nat :: r < m.rows && c < m.cols ==> res.value.Cell(r, c) == m.Cell(r, perm.items[c]))
  {
    var check := CheckPermutation(perm, m.cols);
    if check.Fail? {
      return Err(check.error);
    }
    if m.rows == 0 || m.cols == 0 {
      return Ok(m);
    }
    return Ok(ColPermuted(m, perm.items));
  }

  /** `0, 1, ..., n-1` */
  function IdentityPermutation(n: nat): (p: seq<nat>)
    ensures |p| == n && forall i :: 0 <= i < n ==> p[i] == i
  {
    seq(n, i requires 0 <= i < n => i)
  }

  /** The identity permutation is a permutation, and moving rows by it
      changes nothing. */
  lemma RowPermuteIdentity<T>(m: Matrix<T>)
    requires m.Valid()
    ensures IsPermutation(IdentityPermutation(m.rows), m.rows)
    ensures RowPermuted(m, IdentityPermutation(m.rows)) == m
  {
    CellsDetermine(RowPermuted(m, IdentityPermutation(m.rows)), m);
  }

  /** Moving columns by the identity permutation changes nothing. */
  lemma ColPermuteIdentity<T>(m: Matrix<T>)
    requires m.Valid()
    ensures IsPermutation(IdentityPermutation(m.cols), m.cols)
    ensures ColPermuted(m, IdentityPermutation(m.cols)) == m
  {
    CellsDetermine(ColPermuted(m, IdentityPermutation(m.cols)), m);
  }

  /** Permuting rows by `p` and then by `q` is permuting once by `p[q[i]]`. */
  lemma RowPermuteCompose<T>(m: Matrix<T>, p: seq<nat>, q: seq<nat>)
    requires m.Valid() && |p| == m.rows && InRange(p, m.rows) && |q| == m.rows && InRange(q, m.rows)
    ensures InRange(seq(m.rows, i requires 0 <= i < m.rows => p[q[i]]), m.rows)
    ensures RowPermuted(RowPermuted(m, p), q) == RowPermuted(m, seq(m.rows, i requires 0 <= i < m.rows => p[q[i]]))
  {
    var pq := seq(m.rows, i requires 0 <= i < m.rows => p[q[i]]);
    CellsDetermine(RowPermuted(RowPermuted(m, p), q), RowPermuted(m, pq));
  }

  // ---------------------------------------------------------------------------
  // Equality, copy and move
  // ---------------------------------------------------------------------------

  /** `operator==`: shapes first, then the buffers' `operator==`. */
  function Equal<T(==)>(a: Matrix<T>, b: Matrix<T>): (r: bool)
    ensures r <==> a.rows == b.rows && a.cols == b.cols && a.data == b.data
  {
    if a.rows != b.rows || a.cols != b.cols then false
    else
      Arrays.EqualIsValueEquality(Arrays.Array(a.data), Arrays.Array(b.data));
      Arrays.Equal(Arrays.Array(a.data), Arrays.Array(b.data))
  }

  /** `operator==` holds exactly when the two matrices agree cell by cell. */
  lemma EqualIffSameCells<T>(a: Matrix<T>, b: Matrix<T>)
    requires a.Valid() && b.Valid()
    ensures Equal(a, b) <==> (a.rows == b.rows && a.cols == b.cols
      && forall r: nat, c: nat :: r < a.rows && c < a.cols ==> a.Cell(r, c) == b.Cell(r, c))
  {
    if a.rows == b.rows && a.cols == b.cols
       && forall r: nat, c: nat :: r < a.rows && c < a.cols ==> a.Cell(r, c) == b.Cell(r, c) {
      CellsDetermine(a, b);
    }
  }

  /** Copy construction and copy assignment: an equal, independent matrix. */
  function Copy<T>(m: Matrix<T>): (r: Matrix<T>)
    ensures r.rows == m.rows && r.cols == m.cols && r.data == m.data
  {
    Matrix(m.rows, m.cols, Arrays.Copy(Arrays.Array(m.data)).items)
  }

  /** After a move: the target and the emptied source. */
  datatype Moved<T> = Moved(target: Matrix<T>, source: Matrix<T>)

  /** The move constructor: the target takes shape and buffer, the source is
      left 0 x 0 with no buffer. */
  function Move<T>(m: Matrix<T>): (r: Moved<T>)
    ensures r.target == m
    ensures r.source.rows == 0 && r.source.cols == 0 && r.source.Size() == 0
  {
    var buf := Arrays.Move(Arrays.Array(m.data));
    Moved(Matrix(m.rows, m.cols, buf.target.items), Matrix(0, 0, buf.source.items))
  }

  /** Move assignment; `aliased` is `this == &obj`, which changes nothing. */
  function MoveAssign<T>(dst: Matrix<T>, src: Matrix<T>, aliased: bool): (r: Moved<T>)
    requires aliased ==> dst == src
    ensures aliased ==> r.target == dst && r.source == src
    ensures !aliased ==> r.target == src && r.source == Default()
  {
    if aliased then Moved(dst, src) else Move(src)
  }
}
