/** Row-major matrices as values: the layout shared by dynamic_matrix.h, fixed_matrix.h,
    container/fixed_matrix.h and mathematical_dynamic_matrix.h (element (i, j) of a matrix
    with cols columns lives at flat index i * cols + j), and the arithmetic their free
    functions and operators compute. */
module MatrixMath {

  /** All rows have the given length. */
  predicate Rectangular(g: seq<seq<int>>, cols: nat) {
    forall i :: 0 <= i < |g| ==> |g[i]| == cols
  }

  /** The rows laid end to end. */
  function Flatten(g: seq<seq<int>>): seq<int> {
    if g == [] then [] else g[0] + Flatten(g[1..])
  }

  /** Flattening distributes over concatenation of row lists. */
  lemma {:induction false} FlattenAppend(a: seq<seq<int>>, b: seq<seq<int>>)
    ensures Flatten(a + b) == Flatten(a) + Flatten(b)
  {
    if a == [] {
      assert a + b == b;
    } else {
      assert (a + b)[1..] == a[1..] + b;
      FlattenAppend(a[1..], b);
    }
  }

  /** A flattened rectangular grid holds rows * cols elements. */
  lemma {:induction false} FlattenLength(g: seq<seq<int>>, cols: nat)
    requires Rectangular(g, cols)
    ensures |Flatten(g)| == |g| * cols
  {
    if g != [] {
      FlattenLength(g[1..], cols);
    }
  }

  /** Element (i, j) of a rectangular grid sits at flat index i * cols + j. */
  lemma FlattenIndex(g: seq<seq<int>>, cols: nat, i: nat, j: nat)
    requires Rectangular(g, cols) && i < |g| && j < cols
    ensures i * cols + j < |Flatten(g)| && Flatten(g)[i * cols + j] == g[i][j]
  {
    assert g == g[..i] + [g[i]] + g[i + 1..];
    FlattenAppend(g[..i] + [g[i]], g[i + 1..]);
    FlattenAppend(g[..i], [g[i]]);
    FlattenLength(g[..i], cols);
    FlattenLength(g, cols);
    assert Flatten([g[i]]) == g[i];
  }

  /** The rows of a flat row-major sequence. */
  function ToGrid(m: seq<int>, rows: nat, cols: nat): (g: seq<seq<int>>)
    requires |m| == rows * cols
    ensures |g| == rows && Rectangular(g, cols)
    ensures Flatten(g) == m
    decreases rows
  {
    if rows == 0 then []
    else
      NextRowStart(rows - 1, cols);
      [m[..cols]] + ToGrid(m[cols..], rows - 1, cols)
  }

  /** Cutting a flattened rectangular grid back into rows gives the grid. */
  lemma {:induction false} ToGridOfFlatten(g: seq<seq<int>>, cols: nat)
    requires Rectangular(g, cols)
    ensures |Flatten(g)| == |g| * cols
    ensures ToGrid(Flatten(g), |g|, cols) == g
  {
    FlattenLength(g, cols);
    if g != [] {
      ToGridOfFlatten(g[1..], cols);
    }
  }

  /** Grid entry (i, j) is flat element i * cols + j. */
  lemma GridEntry(m: seq<int>, rows: nat, cols: nat, i: nat, j: nat)
    requires |m| == rows * cols && i < rows && j < cols
    ensures i * cols + j < |m| && ToGrid(m, rows, cols)[i][j] == m[i * cols + j]
  {
    FlattenIndex(ToGrid(m, rows, cols), cols, i, j);
  }

  /** A matrix value: its dimensions and its row-major elements. */
  datatype Matrix = Matrix(rows: nat, cols: nat, elems: seq<int>)

  /** The "no holes" invariant: size() == rows() * columns(). */
  predicate WellFormed(a: Matrix) {
    |a.elems| == a.rows * a.cols
  }

  /** The rows of a matrix. */
  function RowsOf(a: Matrix): (g: seq<seq<int>>)
    requires WellFormed(a)
    ensures |g| == a.rows && Rectangular(g, a.cols)
  {
    ToGrid(a.elems, a.rows, a.cols)
  }

  /** Element (i, j). */
  function Entry(a: Matrix, i: nat, j: nat): int
    requires WellFormed(a) && i < a.rows && j < a.cols
  {
    RowsOf(a)[i][j]
  }

  /** Entry (i, j) sits at flat index i * cols + j of the row-major elements. */
  lemma EntryAt(a: Matrix, i: nat, j: nat)
    requires WellFormed(a) && i < a.rows && j < a.cols
    ensures i * a.cols + j < |a.elems| && Entry(a, i, j) == a.elems[i * a.cols + j]
  {
    GridEntry(a.elems, a.rows, a.cols, i, j);
  }

  /** The matrix whose rows are g. */
  function FromRows(g: seq<seq<int>>, cols: nat): (a: Matrix)
    requires Rectangular(g, cols)
    ensures WellFormed(a) && a.rows == |g| && a.cols == cols
    ensures RowsOf(a) == g
  {
    ToGridOfFlatten(g, cols);
    Matrix(|g|, cols, Flatten(g))
  }

  /** Two well-formed matrices with the same dimensions and entries are equal. */
  lemma EqualByEntries(a: Matrix, b: Matrix)
    requires WellFormed(a) && WellFormed(b) && a.rows == b.rows && a.cols == b.cols
    requires forall i, j :: 0 <= i < a.rows && 0 <= j < a.cols ==> Entry(a, i, j) == Entry(b, i, j)
    ensures a == b
  {
    var ga, gb := RowsOf(a), RowsOf(b);
    forall i | 0 <= i < a.rows ensures ga[i] == gb[i] {
      assert forall j :: 0 <= j < a.cols ==> ga[i][j] == Entry(a, i, j);
    }
    assert ga == gb;
  }

  /** The element-wise combination of two equally long flat vectors. */
  function ZipFlat(x: seq<int>, y: seq<int>, f: (int, int) -> int): (z: seq<int>)
    requires |x| == |y|
    ensures |z| == |x| && forall k :: 0 <= k < |z| ==> z[k] == f(x[k], y[k])
  {
    seq(|x|, k requires 0 <= k < |x| => f(x[k], y[k]))
  }

  /** The element-wise combination of two equally sized matrices. */
  function Zip(a: Matrix, b: Matrix, f: (int, int) -> int): (r: Matrix)
    requires WellFormed(a) && WellFormed(b) && a.rows == b.rows && a.cols == b.cols
    ensures WellFormed(r) && r.rows == a.rows && r.cols == a.cols
    ensures forall k :: 0 <= k < |r.elems| ==> r.elems[k] == f(a.elems[k], b.elems[k])
    ensures forall i, j :: 0 <= i < a.rows && 0 <= j < a.cols ==>
      Entry(r, i, j) == f(Entry(a, i, j), Entry(b, i, j))
  {
    var r := Matrix(a.rows, a.cols, ZipFlat(a.elems, b.elems, f));
    forall i, j | 0 <= i < a.rows && 0 <= j < a.cols
      ensures Entry(r, i, j) == f(Entry(a, i, j), Entry(b, i, j))
    {
      GridEntry(r.elems, a.rows, a.cols, i, j);
      GridEntry(a.elems, a.rows, a.cols, i, j);
      GridEntry(b.elems, a.rows, a.cols, i, j);
    }
    r
  }

  /** matrix_sum: element-wise addition. */
  function Sum(a: Matrix, b: Matrix): (r: Matrix)
    requires WellFormed(a) && WellFormed(b) && a.rows == b.rows && a.cols == b.cols
    ensures WellFormed(r) && r.rows == a.rows && r.cols == a.cols
    ensures forall i, j :: 0 <= i < a.rows && 0 <= j < a.cols ==>
      Entry(r, i, j) == Entry(a, i, j) + Entry(b, i, j)
    ensures forall k :: 0 <= k < |r.elems| ==> r.elems[k] == a.elems[k] + b.elems[k]
  {
    Zip(a, b, (x, y) => x + y)
  }

  /** matrix_difference: element-wise subtraction. */
  function Difference(a: Matrix, b: Matrix): (r: Matrix)
    requires WellFormed(a) && WellFormed(b) && a.rows == b.rows && a.cols == b.cols
    ensures WellFormed(r) && r.rows == a.rows && r.cols == a.cols
    ensures forall i, j :: 0 <= i < a.rows && 0 <= j < a.cols ==>
      Entry(r, i, j) == Entry(a, i, j) - Entry(b, i, j)
    ensures forall k :: 0 <= k < |r.elems| ==> r.elems[k] == a.elems[k] - b.elems[k]
  {
    Zip(a, b, (x, y) => x - y)
  }

  /** Subtracting what was added gives the matrix back. */
  lemma DifferenceUndoesSum(a: Matrix, b: Matrix)
    requires WellFormed(a) && WellFormed(b) && a.rows == b.rows && a.cols == b.cols
    ensures Difference(Sum(a, b), b) == a
  {
    EqualByEntries(Difference(Sum(a, b), b), a);
  }

  /** Addition does not depend on the order of the operands. */
  lemma SumCommutes(a: Matrix, b: Matrix)
    requires WellFormed(a) && WellFormed(b) && a.rows == b.rows && a.cols == b.cols
    ensures Sum(a, b) == Sum(b, a)
  {
    EqualByEntries(Sum(a, b), Sum(b, a));
  }

  /** Every element multiplied by s (operator*= and operator* with a scalar). */
  function Scale(a: Matrix, s: int): (r: Matrix)
    requires WellFormed(a)
    ensures WellFormed(r) && r.rows == a.rows && r.cols == a.cols
    ensures forall k :: 0 <= k < |r.elems| ==> r.elems[k] == a.elems[k] * s
  {
    Matrix(a.rows, a.cols, seq(|a.elems|, k requires 0 <= k < |a.elems| => a.elems[k] * s))
  }

  /** Scaling by s distributes over addition. */
  lemma ScaleDistributesOverSum(a: Matrix, b: Matrix, s: int)
    requires WellFormed(a) && WellFormed(b) && a.rows == b.rows && a.cols == b.cols
    ensures Scale(Sum(a, b), s) == Sum(Scale(a, s), Scale(b, s))
  {
    var l, r := Scale(Sum(a, b), s), Sum(Scale(a, s), Scale(b, s));
    forall k | 0 <= k < |l.elems| ensures l.elems[k] == r.elems[k] {
      calc {
        l.elems[k];
        (a.elems[k] + b.elems[k]) * s;
        a.elems[k] * s + b.elems[k] * s;
      }
    }
    assert l.elems == r.elems;
  }

  /** The sum over k < n of a(i, k) * b(k, j). */
  function Dot(a: Matrix, b: Matrix, i: nat, j: nat, n: nat): int
    requires WellFormed(a) && WellFormed(b) && i < a.rows && j < b.cols
    requires n <= a.cols && n <= b.rows
  {
    if n == 0 then 0 else Dot(a, b, i, j, n - 1) + Entry(a, i, n - 1) * Entry(b, n - 1, j)
  }

  /** The product of an n x m and an m' x p matrix with m <= m': entry (i, j) sums the
      first m terms of row i times column j.  With m == m' (the case the product
      operators guarantee or check) it is the standard matrix product. */
  function Product(a: Matrix, b: Matrix): (r: Matrix)
    requires WellFormed(a) && WellFormed(b) && a.cols <= b.rows
    ensures WellFormed(r) && r.rows == a.rows && r.cols == b.cols
    ensures forall i, j :: 0 <= i < a.rows && 0 <= j < b.cols ==>
      Entry(r, i, j) == Dot(a, b, i, j, a.cols)
  {
    FromRows(seq(a.rows, i requires 0 <= i < a.rows =>
                   seq(b.cols, j requires 0 <= j < b.cols => Dot(a, b, i, j, a.cols))), b.cols)
  }

  /** The n x n identity. */
  function Identity(n: nat): (r: Matrix)
    ensures WellFormed(r) && r.rows == n && r.cols == n
    ensures forall i, j :: 0 <= i < n && 0 <= j < n ==> Entry(r, i, j) == if i == j then 1 else 0
  {
    FromRows(seq(n, i requires 0 <= i < n => seq(n, j requires 0 <= j < n => if i == j then 1 else 0)), n)
  }

  /** Row i of the identity picks row i of b, up to the first k terms. */
  lemma {:induction false} DotIdentityLeft(b: Matrix, i: nat, j: nat, k: nat)
    requires WellFormed(b) && i < b.rows && j < b.cols && k <= b.rows
    ensures Dot(Identity(b.rows), b, i, j, k) == if i < k then Entry(b, i, j) else 0
  {
    if k > 0 {
      DotIdentityLeft(b, i, j, k - 1);
    }
  }

  /** Column j of the identity picks column j of a, up to the first k terms. */
  lemma {:induction false} DotIdentityRight(a: Matrix, i: nat, j: nat, k: nat)
    requires WellFormed(a) && i < a.rows && j < a.cols && k <= a.cols
    ensures Dot(a, Identity(a.cols), i, j, k) == if j < k then Entry(a, i, j) else 0
  {
    if k > 0 {
      DotIdentityRight(a, i, j, k - 1);
    }
  }

  /** The identity is neutral for the product, on either side. */
  lemma ProductIdentity(a: Matrix)
    requires WellFormed(a)
    ensures Product(Identity(a.rows), a) == a
    ensures Product(a, Identity(a.cols)) == a
  {
    forall i, j | 0 <= i < a.rows && 0 <= j < a.cols
      ensures Entry(Product(Identity(a.rows), a), i, j) == Entry(a, i, j)
      ensures Entry(Product(a, Identity(a.cols)), i, j) == Entry(a, i, j)
    {
      DotIdentityLeft(a, i, j, a.rows);
      DotIdentityRight(a, i, j, a.cols);
    }
    EqualByEntries(Product(Identity(a.rows), a), a);
    EqualByEntries(Product(a, Identity(a.cols)), a);
  }

  /** The sum of the first k diagonal entries. */
  function DiagonalSum(a: Matrix, k: nat): int
    requires WellFormed(a) && k <= a.rows && k <= a.cols
  {
    if k == 0 then 0 else DiagonalSum(a, k - 1) + Entry(a, k - 1, k - 1)
  }

  /** matrix_trace of a square matrix. */
  function Trace(a: Matrix): int
    requires WellFormed(a) && a.rows == a.cols
  {
    DiagonalSum(a, a.rows)
  }

  /** The diagonal entry (i, i) of a square n x n matrix is flat element i * (n + 1), the
      stride the trace loops walk with. */
  lemma DiagonalStride(a: Matrix, i: nat)
    requires WellFormed(a) && a.rows == a.cols && i < a.rows
    ensures i * (a.cols + 1) < |a.elems| && a.elems[i * (a.cols + 1)] == Entry(a, i, i)
  {
    GridEntry(a.elems, a.rows, a.cols, i, i);
    MulSucc(i, a.cols);
  }

  /** The trace is additive. */
  lemma {:induction false} DiagonalSumOfSum(a: Matrix, b: Matrix, k: nat)
    requires WellFormed(a) && WellFormed(b) && a.rows == b.rows && a.cols == b.cols
    requires k <= a.rows && k <= a.cols
    ensures DiagonalSum(Sum(a, b), k) == DiagonalSum(a, k) + DiagonalSum(b, k)
  {
    if k > 0 {
      DiagonalSumOfSum(a, b, k - 1);
    }
  }

  /** trace(a + b) == trace(a) + trace(b). */
  lemma TraceOfSum(a: Matrix, b: Matrix)
    requires WellFormed(a) && WellFormed(b) && a.rows == b.rows && a.cols == b.cols
    requires a.rows == a.cols
    ensures Trace(Sum(a, b)) == Trace(a) + Trace(b)
  {
    DiagonalSumOfSum(a, b, a.rows);
  }

  /** The first k diagonal entries of the identity sum to k. */
  lemma {:induction false} DiagonalSumOfIdentity(n: nat, k: nat)
    requires k <= n
    ensures DiagonalSum(Identity(n), k) == k
  {
    if k > 0 {
      DiagonalSumOfIdentity(n, k - 1);
    }
  }

  /** trace(I_n) == n. */
  lemma TraceOfIdentity(n: nat)
    ensures Trace(Identity(n)) == n
  {
    DiagonalSumOfIdentity(n, n);
  }

  /** Distinct in-range (row, column) pairs have distinct flat indices. */
  lemma FlatIndexInjective(i: nat, j: nat, i2: nat, j2: nat, cols: nat)
    requires j < cols && j2 < cols && i * cols + j == i2 * cols + j2
    ensures i == i2 && j == j2
  {
    if i < i2 {
      RowStartAfterRow(i, i2, cols);
    } else if i2 < i {
      RowStartAfterRow(i2, i, cols);
    }
  }

  /** Row i ends before row i2 starts when i < i2. */
  lemma RowStartAfterRow(i: nat, i2: nat, cols: nat)
    requires i < i2
    ensures i * cols + cols <= i2 * cols
  {
    var d := i2 - i - 1;
    assert i2 * cols == (i + 1 + d) * cols;
    assert (i + 1 + d) * cols == i * cols + cols + d * cols;
  }

  /** Writing flat element i * cols + j changes grid entry (i, j) and no other. */
  lemma GridUpdate(m: seq<int>, rows: nat, cols: nat, i: nat, j: nat, v: int)
    requires |m| == rows * cols && i < rows && j < cols
    ensures i * cols + j < |m|
    ensures forall ii, jj :: 0 <= ii < rows && 0 <= jj < cols ==>
      ToGrid(m[i * cols + j := v], rows, cols)[ii][jj] ==
      (if ii == i && jj == j then v else ToGrid(m, rows, cols)[ii][jj])
  {
    GridEntry(m, rows, cols, i, j);
    var m' := m[i * cols + j := v];
    forall ii, jj | 0 <= ii < rows && 0 <= jj < cols
      ensures ToGrid(m', rows, cols)[ii][jj] == (if ii == i && jj == j then v else ToGrid(m, rows, cols)[ii][jj])
    {
      GridEntry(m, rows, cols, ii, jj);
      GridEntry(m', rows, cols, ii, jj);
      if ii * cols + jj == i * cols + j {
        FlatIndexInjective(ii, jj, i, j, cols);
      }
    }
  }

  /** The first k rows of a rectangular grid are the first k * cols flat elements. */
  lemma FlattenSplit(g: seq<seq<int>>, cols: nat, k: nat)
    requires Rectangular(g, cols) && k <= |g|
    ensures k * cols <= |Flatten(g)|
    ensures Flatten(g)[..k * cols] == Flatten(g[..k])
    ensures Flatten(g)[k * cols..] == Flatten(g[k..])
  {
    assert g == g[..k] + g[k..];
    FlattenAppend(g[..k], g[k..]);
    FlattenLength(g[..k], cols);
  }

  /** Rows [..pos] + [row] + [pos..] flatten to the row spliced in at flat index pos * cols. */
  lemma FlattenInsertRow(g: seq<seq<int>>, cols: nat, pos: nat, row: seq<int>)
    requires Rectangular(g, cols) && pos <= |g|
    ensures pos * cols <= |Flatten(g)|
    ensures Flatten(g[..pos] + [row] + g[pos..]) == Flatten(g)[..pos * cols] + row + Flatten(g)[pos * cols..]
  {
    FlattenSplit(g, cols, pos);
    FlattenAppend(g[..pos] + [row], g[pos..]);
    FlattenAppend(g[..pos], [row]);
    assert Flatten([row]) == row;
  }

  /** Dropping row pos drops flat elements [pos * cols, (pos + 1) * cols). */
  lemma FlattenEraseRow(g: seq<seq<int>>, cols: nat, pos: nat)
    requires Rectangular(g, cols) && pos < |g|
    ensures (pos + 1) * cols <= |Flatten(g)|
    ensures Flatten(g[..pos] + g[pos + 1..]) == Flatten(g)[..pos * cols] + Flatten(g)[(pos + 1) * cols..]
  {
    FlattenSplit(g, cols, pos);
    FlattenSplit(g, cols, pos + 1);
    FlattenAppend(g[..pos], g[pos + 1..]);
  }

  /** The grid with column col inserted before column pos. */
  function InsertColumnAt(g: seq<seq<int>>, pos: nat, col: seq<int>): (r: seq<seq<int>>)
    requires |col| == |g| && forall i :: 0 <= i < |g| ==> pos <= |g[i]|
    ensures |r| == |g|
    ensures forall i :: 0 <= i < |g| ==> |r[i]| == |g[i]| + 1
  {
    seq(|g|, i requires 0 <= i < |g| => g[i][..pos] + [col[i]] + g[i][pos..])
  }

  /** The grid with column pos removed. */
  function EraseColumnAt(g: seq<seq<int>>, pos: nat): (r: seq<seq<int>>)
    requires forall i :: 0 <= i < |g| ==> pos < |g[i]|
    ensures |r| == |g|
    ensures forall i :: 0 <= i < |g| ==> |r[i]| == |g[i]| - 1
  {
    seq(|g|, i requires 0 <= i < |g| => g[i][..pos] + g[i][pos + 1..])
  }

  /** An inserted column lands at index pos of row i; the rest of the row keeps its order
      around it. */
  lemma InsertColumnEntry(g: seq<seq<int>>, pos: nat, col: seq<int>, i: nat, j: nat)
    requires |col| == |g| && forall i :: 0 <= i < |g| ==> pos <= |g[i]|
    requires i < |g| && j <= |g[i]|
    ensures InsertColumnAt(g, pos, col)[i][j] ==
      if j < pos then g[i][j] else if j == pos then col[i] else g[i][j - 1]
  {
    var row := InsertColumnAt(g, pos, col)[i];
    assert row == g[i][..pos] + [col[i]] + g[i][pos..];
    if j > pos {
      assert row[j] == g[i][pos..][j - pos - 1];
    }
  }

  /** Erasing the column that was just inserted gives the grid back. */
  lemma EraseUndoesInsertColumn(g: seq<seq<int>>, pos: nat, col: seq<int>)
    requires |col| == |g| && forall i :: 0 <= i < |g| ==> pos <= |g[i]|
    ensures EraseColumnAt(InsertColumnAt(g, pos, col), pos) == g
  {
    var r := EraseColumnAt(InsertColumnAt(g, pos, col), pos);
    forall i | 0 <= i < |g| ensures r[i] == g[i] {
      var row := g[i][..pos] + [col[i]] + g[i][pos..];
      assert row[..pos] == g[i][..pos];
      assert row[pos + 1..] == g[i][pos..];
      assert g[i] == g[i][..pos] + g[i][pos..];
    }
  }

  /** One step of the column loops: splicing v into the row at flat offset |done| + pos. */
  lemma SpliceIntoRow(s: seq<int>, done: seq<int>, row: seq<int>, rest: seq<int>, pos: nat, at: nat, v: int)
    requires s == done + row + rest && pos <= |row| && at == |done| + pos
    ensures at <= |s|
    ensures s[..at] + [v] + s[at..] == done + (row[..pos] + [v] + row[pos..]) + rest
  {
    assert s[..at] == done + row[..pos];
    assert s[at..] == row[pos..] + rest;
  }

  /** One step of the column-erase loop: dropping flat offset |done| + pos. */
  lemma CutFromRow(s: seq<int>, done: seq<int>, row: seq<int>, rest: seq<int>, pos: nat, at: nat)
    requires s == done + row + rest && pos < |row| && at == |done| + pos
    ensures at < |s|
    ensures s[..at] + s[at + 1..] == done + (row[..pos] + row[pos + 1..]) + rest
  {
    assert s[..at] == done + row[..pos];
    assert s[at + 1..] == row[pos + 1..] + rest;
  }

  /** rows_resize(n, val): the first min(n, |g|) rows, then rows of val. */
  function ResizeRows(g: seq<seq<int>>, n: nat, cols: nat, val: int): (r: seq<seq<int>>)
    requires Rectangular(g, cols)
    ensures |r| == n && Rectangular(r, cols)
    ensures forall i :: 0 <= i < n && i < |g| ==> r[i] == g[i]
    ensures forall i :: |g| <= i < n ==> r[i] == seq(cols, _ => val)
  {
    if n <= |g| then g[..n] else g + seq(n - |g|, _ => seq(cols, _ => val))
  }

  /** columns_resize(n, val): the first min(n, cols) entries of every row, then val. */
  function ResizeColumns(g: seq<seq<int>>, n: nat, val: int): (r: seq<seq<int>>)
    ensures |r| == |g| && Rectangular(r, n)
    ensures forall i, j :: 0 <= i < |g| && 0 <= j < n ==>
      r[i][j] == if j < |g[i]| then g[i][j] else val
  {
    seq(|g|, i requires 0 <= i < |g| =>
      if n <= |g[i]| then g[i][..n] else g[i] + seq(n - |g[i]|, _ => val))
  }

  /** Resizing rows to the current count is the identity, and shrinking after growing
      gives the original rows back. */
  lemma ResizeRowsRoundTrip(g: seq<seq<int>>, n: nat, cols: nat, val: int)
    requires Rectangular(g, cols) && |g| <= n
    ensures ResizeRows(g, |g|, cols, val) == g
    ensures ResizeRows(ResizeRows(g, n, cols, val), |g|, cols, val) == g
  {
    assert g[..|g|] == g;
  }

  /** Resizing columns to the current count is the identity, and shrinking after growing
      gives the original rows back. */
  lemma ResizeColumnsRoundTrip(g: seq<seq<int>>, cols: nat, n: nat, val: int)
    requires Rectangular(g, cols) && cols <= n
    ensures ResizeColumns(g, cols, val) == g
    ensures ResizeColumns(ResizeColumns(g, n, val), cols, val) == g
  {
    var r := ResizeColumns(g, cols, val);
    forall i | 0 <= i < |g| ensures r[i] == g[i] {
      assert g[i][..cols] == g[i];
    }
    var r2 := ResizeColumns(ResizeColumns(g, n, val), cols, val);
    forall i | 0 <= i < |g| ensures r2[i] == g[i] {
      assert forall j :: 0 <= j < cols ==> r2[i][j] == g[i][j];
    }
  }

  /** Growing the columns by one more val is the loop step of columns_resize. */
  lemma ResizeColumnsGrowStep(g: seq<seq<int>>, cols: nat, m: nat, val: int)
    requires Rectangular(g, cols) && cols <= m
    ensures InsertColumnAt(ResizeColumns(g, m, val), m, seq(|g|, _ => val)) == ResizeColumns(g, m + 1, val)
  {
    var l := InsertColumnAt(ResizeColumns(g, m, val), m, seq(|g|, _ => val));
    var r := ResizeColumns(g, m + 1, val);
    forall i | 0 <= i < |g| ensures l[i] == r[i] {
      forall j | 0 <= j < m + 1 ensures l[i][j] == r[i][j] {
        InsertColumnEntry(ResizeColumns(g, m, val), m, seq(|g|, _ => val), i, j);
      }
    }
  }

  /** Dropping the last column is the loop step of a shrinking columns_resize. */
  lemma ResizeColumnsShrinkStep(g: seq<seq<int>>, cols: nat, m: nat, val: int)
    requires Rectangular(g, cols) && 0 < m <= cols
    ensures EraseColumnAt(ResizeColumns(g, m, val), m - 1) == ResizeColumns(g, m - 1, val)
  {
    var l := EraseColumnAt(ResizeColumns(g, m, val), m - 1);
    var r := ResizeColumns(g, m - 1, val);
    forall i | 0 <= i < |g| ensures l[i] == r[i] {
      assert forall j :: 0 <= j < m - 1 ==> l[i][j] == r[i][j];
    }
  }

  /** The minor: row r and column c removed (submatrix). */
  function Minor(g: seq<seq<int>>, r: nat, c: nat): (m: seq<seq<int>>)
    requires r < |g| && forall i :: 0 <= i < |g| ==> c < |g[i]|
    ensures |m| == |g| - 1
  {
    EraseColumnAt(g[..r] + g[r + 1..], c)
  }

  /** Entry (i, j) of the minor is entry (i + [i >= r], j + [j >= c]) of the grid. */
  lemma MinorEntries(g: seq<seq<int>>, cols: nat, r: nat, c: nat)
    requires Rectangular(g, cols) && r < |g| && c < cols
    ensures Rectangular(Minor(g, r, c), cols - 1)
    ensures forall i, j :: 0 <= i < |g| - 1 && 0 <= j < cols - 1 ==>
      Minor(g, r, c)[i][j] == g[if i >= r then i + 1 else i][if j >= c then j + 1 else j]
  {
  }

  /** The diagonal walk with stride n + 1 stays inside an n x n matrix exactly for the
      first n steps. */
  lemma StrideInBounds(n: nat, i: nat)
    ensures i * (n + 1) < n * n <==> i < n
  {
    if i < n {
      assert i * (n + 1) <= (n - 1) * (n + 1);
    } else {
      assert i * (n + 1) >= n * (n + 1);
    }
  }

  /** Two rectangular grids of the same shape with the same entries are equal. */
  lemma GridsEqual(g: seq<seq<int>>, h: seq<seq<int>>, cols: nat)
    requires |g| == |h| && Rectangular(g, cols) && Rectangular(h, cols)
    requires forall i, j :: 0 <= i < |g| && 0 <= j < cols ==> g[i][j] == h[i][j]
    ensures g == h
  {
    forall i | 0 <= i < |g| ensures g[i] == h[i] {
      assert forall j :: 0 <= j < cols ==> g[i][j] == h[i][j];
    }
  }

  /** Two flat sequences of the same shape whose grids agree entry by entry are equal. */
  lemma SameEntriesSameElements(m: seq<int>, n: seq<int>, rows: nat, cols: nat)
    requires |m| == rows * cols && |n| == rows * cols
    requires forall i, j :: 0 <= i < rows && 0 <= j < cols ==>
      ToGrid(m, rows, cols)[i][j] == ToGrid(n, rows, cols)[i][j]
    ensures m == n
  {
    var g, h := ToGrid(m, rows, cols), ToGrid(n, rows, cols);
    GridsEqual(g, h, cols);
  }

  /** Two flat sequences of the same shape are equal exactly when their grids agree entry
      by entry. */
  lemma GridEntriesDetermine(m: seq<int>, n: seq<int>, rows: nat, cols: nat)
    requires |m| == rows * cols && |n| == rows * cols
    ensures m == n ==> forall i, j :: 0 <= i < rows && 0 <= j < cols ==>
      ToGrid(m, rows, cols)[i][j] == ToGrid(n, rows, cols)[i][j]
    ensures (forall i, j :: 0 <= i < rows && 0 <= j < cols ==>
      ToGrid(m, rows, cols)[i][j] == ToGrid(n, rows, cols)[i][j]) ==> m == n
  {
    if forall i, j :: 0 <= i < rows && 0 <= j < cols ==>
      ToGrid(m, rows, cols)[i][j] == ToGrid(n, rows, cols)[i][j]
    {
      SameEntriesSameElements(m, n, rows, cols);
    }
  }

  /** Every entry of a constant flat sequence is that constant. */
  lemma GridOfConstant(m: seq<int>, rows: nat, cols: nat, v: int)
    requires |m| == rows * cols && forall k :: 0 <= k < |m| ==> m[k] == v
    ensures forall i, j :: 0 <= i < rows && 0 <= j < cols ==> ToGrid(m, rows, cols)[i][j] == v
  {
    forall i, j | 0 <= i < rows && 0 <= j < cols ensures ToGrid(m, rows, cols)[i][j] == v {
      GridEntry(m, rows, cols, i, j);
    }
  }

  /** One row of insert_column's loop: the rows before i have length cols + 1, row i of the
      new grid is row i of g with col[i] spliced in, and the untouched part starts with g[i]. */
  lemma InsertColumnStep(g: seq<seq<int>>, cols: nat, pos: nat, col: seq<int>, i: nat)
    requires Rectangular(g, cols) && pos <= cols && |col| == |g| && i < |g|
    ensures |Flatten(InsertColumnAt(g, pos, col)[..i])| == i * (cols + 1)
    ensures Flatten(InsertColumnAt(g, pos, col)[..i + 1]) ==
      Flatten(InsertColumnAt(g, pos, col)[..i]) + (g[i][..pos] + [col[i]] + g[i][pos..])
    ensures Flatten(g[i..]) == g[i] + Flatten(g[i + 1..])
  {
    var ng := InsertColumnAt(g, pos, col);
    assert Rectangular(ng[..i], cols + 1);
    FlattenLength(ng[..i], cols + 1);
    assert g[i..][1..] == g[i + 1..];
    assert ng[..i + 1] == ng[..i] + [ng[i]];
    FlattenAppend(ng[..i], [ng[i]]);
    assert Flatten([ng[i]]) == ng[i];
  }

  /** One row of erase_column's loop: the rows before i have length cols - 1, row i of the
      new grid is row i of g without index pos, and the untouched part starts with g[i]. */
  lemma EraseColumnStep(g: seq<seq<int>>, cols: nat, pos: nat, i: nat)
    requires Rectangular(g, cols) && pos < cols && i < |g|
    ensures |Flatten(EraseColumnAt(g, pos)[..i])| == i * (cols - 1)
    ensures Flatten(EraseColumnAt(g, pos)[..i + 1]) ==
      Flatten(EraseColumnAt(g, pos)[..i]) + (g[i][..pos] + g[i][pos + 1..])
    ensures Flatten(g[i..]) == g[i] + Flatten(g[i + 1..])
  {
    var ng := EraseColumnAt(g, pos);
    assert Rectangular(ng[..i], cols - 1);
    FlattenLength(ng[..i], cols - 1);
    assert g[i..][1..] == g[i + 1..];
    assert ng[..i + 1] == ng[..i] + [ng[i]];
    FlattenAppend(ng[..i], [ng[i]]);
    assert Flatten([ng[i]]) == ng[i];
  }

  /** Inserting a column into a rectangular grid leaves a grid that cuts back into itself
      with one more column. */
  lemma InsertColumnLayout(g: seq<seq<int>>, cols: nat, pos: nat, col: seq<int>)
    requires Rectangular(g, cols) && pos <= cols && |col| == |g|
    ensures |Flatten(InsertColumnAt(g, pos, col))| == |g| * (cols + 1)
    ensures ToGrid(Flatten(InsertColumnAt(g, pos, col)), |g|, cols + 1) == InsertColumnAt(g, pos, col)
  {
    var ng := InsertColumnAt(g, pos, col);
    assert Rectangular(ng, cols + 1);
    ToGridOfFlatten(ng, cols + 1);
  }

  /** Erasing a column from a rectangular grid leaves a grid that cuts back into itself
      with one column fewer. */
  lemma EraseColumnLayout(g: seq<seq<int>>, cols: nat, pos: nat)
    requires Rectangular(g, cols) && pos < cols
    ensures |Flatten(EraseColumnAt(g, pos))| == |g| * (cols - 1)
    ensures ToGrid(Flatten(EraseColumnAt(g, pos)), |g|, cols - 1) == EraseColumnAt(g, pos)
  {
    var ng := EraseColumnAt(g, pos);
    assert Rectangular(ng, cols - 1);
    ToGridOfFlatten(ng, cols - 1);
  }

  /** The top-left r x c block of a jagged two-dimensional array whose first r rows hold at
      least c elements each. */
  function TopLeft(arr: seq<seq<int>>, r: nat, c: nat): (g: seq<seq<int>>)
    requires |arr| >= r && forall i :: 0 <= i < r ==> |arr[i]| >= c
    ensures |g| == r && Rectangular(g, c)
    ensures forall i, j :: 0 <= i < r && 0 <= j < c ==> g[i][j] == arr[i][j]
  {
    seq(r, i requires 0 <= i < r => arr[i][..c])
  }

  /** A row-major fill that has produced target's first at elements and left the rest 0. */
  predicate FilledUpTo(m: seq<int>, target: seq<int>, at: nat) {
    |m| == |target| && at <= |m| && m[..at] == target[..at] &&
    forall t :: at <= t < |m| ==> m[t] == 0
  }

  /** An in-place row-major pass that has rewritten orig's first at elements to target's
      and not yet touched the rest. */
  predicate UpdatedUpTo(m: seq<int>, target: seq<int>, orig: seq<int>, at: nat) {
    |m| == |target| == |orig| && at <= |m| && m[..at] == target[..at] && m[at..] == orig[at..]
  }

  /** The next element still holds its original value, and rewriting it to target's extends
      the pass by one. */
  lemma UpdateNext(m: seq<int>, target: seq<int>, orig: seq<int>, at: nat)
    requires UpdatedUpTo(m, target, orig, at) && at < |m|
    ensures m[at] == orig[at]
    ensures UpdatedUpTo(m[at := target[at]], target, orig, at + 1)
  {
    assert m[at] == m[at..][0] == orig[at..][0];
    var n := m[at := target[at]];
    assert n[..at + 1] == m[..at] + [target[at]];
    assert target[..at + 1] == target[..at] + [target[at]];
    assert n[at + 1..] == m[at..][1..] == orig[at..][1..] == orig[at + 1..];
  }

  /** Writing target's next element extends the fill by one. */
  lemma FillNext(m: seq<int>, target: seq<int>, at: nat)
    requires FilledUpTo(m, target, at) && at < |m|
    ensures FilledUpTo(m[at := target[at]], target, at + 1)
  {
    assert m[at := target[at]][..at + 1] == target[..at + 1];
  }

  /** When target's next element is 0 the fill already holds it. */
  lemma FillNextZero(m: seq<int>, target: seq<int>, at: nat)
    requires FilledUpTo(m, target, at) && at < |m| && target[at] == 0
    ensures FilledUpTo(m, target, at + 1)
  {
    assert m[at := target[at]] == m;
    FillNext(m, target, at);
  }

  /** Element (i, j) of the n x n identity, at its flat index. */
  lemma IdentityElement(n: nat, i: nat, j: nat)
    requires i < n && j < n
    ensures i * n + j < |Identity(n).elems|
    ensures Identity(n).elems[i * n + j] == if i == j then 1 else 0
  {
    GridEntry(Identity(n).elems, n, n, i, j);
  }

  /** An entry built up in place: once it holds target's value, the fill extends by one. */
  lemma FillAccumulated(m: seq<int>, target: seq<int>, at: nat)
    requires at < |m| && FilledUpTo(m[at := 0], target, at) && m[at] == target[at]
    ensures FilledUpTo(m, target, at + 1)
  {
    assert m[at := 0][at := target[at]] == m;
    FillNext(m[at := 0], target, at);
  }

  /** Term k of entry (i, j) of a product, read from the flat vectors. */
  lemma DotStep(a: Matrix, b: Matrix, i: nat, j: nat, k: nat)
    requires WellFormed(a) && WellFormed(b) && a.cols <= b.rows
    requires i < a.rows && j < b.cols && k < a.cols
    ensures i * a.cols + k < |a.elems| && k * b.cols + j < |b.elems|
    ensures Dot(a, b, i, j, k + 1) == Dot(a, b, i, j, k) + a.elems[i * a.cols + k] * b.elems[k * b.cols + j]
  {
    GridEntry(a.elems, a.rows, a.cols, i, k);
    GridEntry(b.elems, b.rows, b.cols, k, j);
  }

  /** Entry (i, j) of a product, at its flat index. */
  lemma ProductElement(a: Matrix, b: Matrix, i: nat, j: nat)
    requires WellFormed(a) && WellFormed(b) && a.cols <= b.rows && i < a.rows && j < b.cols
    ensures i * b.cols + j < |Product(a, b).elems|
    ensures Product(a, b).elems[i * b.cols + j] == Dot(a, b, i, j, a.cols)
  {
    GridEntry(Product(a, b).elems, a.rows, b.cols, i, j);
  }

  /** Row i of a product, at flat indices base.. base + b.cols - 1. */
  lemma ProductRowElements(a: Matrix, b: Matrix, i: nat, base: nat)
    requires WellFormed(a) && WellFormed(b) && a.cols <= b.rows && i < a.rows && base == i * b.cols
    ensures base + b.cols <= |Product(a, b).elems|
    ensures forall j :: 0 <= j < b.cols ==> Product(a, b).elems[base + j] == Dot(a, b, i, j, a.cols)
  {
    if b.cols > 0 {
      ProductElement(a, b, i, b.cols - 1);
    }
    forall j | 0 <= j < b.cols ensures Product(a, b).elems[base + j] == Dot(a, b, i, j, a.cols) {
      ProductElement(a, b, i, j);
    }
  }

  /** Element (i, j) of the top-left block, at its flat index. */
  lemma TopLeftElement(arr: seq<seq<int>>, r: nat, c: nat, i: nat, j: nat)
    requires |arr| >= r && forall k :: 0 <= k < r ==> |arr[k]| >= c
    requires i < r && j < c
    ensures i * c + j < |Flatten(TopLeft(arr, r, c))|
    ensures Flatten(TopLeft(arr, r, c))[i * c + j] == arr[i][j]
  {
    FlattenIndex(TopLeft(arr, r, c), c, i, j);
  }

  /** i * (n + 1) == i * n + i. */
  lemma MulSucc(i: nat, n: nat)
    ensures i * (n + 1) == i * n + i
  {
  }

  /** (i + 1) * n == i * n + n: the next row starts n elements later. */
  lemma NextRowStart(i: nat, n: nat)
    ensures (i + 1) * n == i * n + n
  {
  }

  /** One pass of insert_column's loop on the flat vector: with rows [..i] done and [i..]
      untouched, inserting col[i] at flat index i * (cols + 1) + pos finishes row i. */
  lemma InsertColumnPass(g: seq<seq<int>>, cols: nat, pos: nat, col: seq<int>, i: nat, at: int, r: seq<int>)
    requires Rectangular(g, cols) && pos <= cols && |col| == |g| && i < |g|
    requires at == i * (cols + 1) + pos
    requires r == Flatten(InsertColumnAt(g, pos, col)[..i]) + Flatten(g[i..])
    ensures 0 <= at <= |r|
    ensures r[..at] + [col[i]] + r[at..] == Flatten(InsertColumnAt(g, pos, col)[..i + 1]) + Flatten(g[i + 1..])
  {
    InsertColumnStep(g, cols, pos, col, i);
    var done, rest := Flatten(InsertColumnAt(g, pos, col)[..i]), Flatten(g[i + 1..]);
    SpliceIntoRow(r, done, g[i], rest, pos, at, col[i]);
  }

  /** One pass of erase_column's loop on the flat vector: with rows [..i] done and [i..]
      untouched, erasing flat index i * (cols - 1) + pos finishes row i. */
  lemma EraseColumnPass(g: seq<seq<int>>, cols: nat, pos: nat, i: nat, at: int, r: seq<int>)
    requires Rectangular(g, cols) && pos < cols && i < |g|
    requires at == i * (cols - 1) + pos
    requires r == Flatten(EraseColumnAt(g, pos)[..i]) + Flatten(g[i..])
    ensures 0 <= at < |r|
    ensures r[..at] + r[at + 1..] == Flatten(EraseColumnAt(g, pos)[..i + 1]) + Flatten(g[i + 1..])
  {
    EraseColumnStep(g, cols, pos, i);
    var done, rest := Flatten(EraseColumnAt(g, pos)[..i]), Flatten(g[i + 1..]);
    CutFromRow(r, done, g[i], rest, pos, at);
  }
}
