/** crsc::fixed_matrix (container/fixed_matrix.h): a matrix whose dimensions are template
    constants and whose elements live row-major in a std::array of rows * cols elements,
    together with the free arithmetic functions defined beside it.  The dimensions are
    constant fields and the std::array a constant array; fill and swap change its contents
    in place, the other operations build fresh matrices. */
module ContainerFixedMatrix {
  import opened Outcomes
  import opened Sequences
  import opened MatrixMath
  import DM = DynamicMatrix

  /** Index k of what remains once index at is removed: k itself before at, k + 1 from at
      on. */
  function Skip(k: nat, at: nat): nat {
    if k >= at then k + 1 else k
  }

  /** Entry (i, j) of a rows x cols matrix has a flat index inside the elements. */
  lemma FlatBound(i: nat, j: nat, rows: nat, cols: nat)
    requires i < rows && j < cols
    ensures 0 <= i * cols + j < rows * cols
  {
    assert 0 <= i * cols;
    RowStartAfterRow(i, rows, cols);
  }

  /** The rows submatrix(r, c) fills: entry (i, j) is element (Skip(i, r), Skip(j, c)) of a,
      read at its flat index. */
  function SubmatrixRows(a: Matrix, r: nat, c: nat): (g: seq<seq<int>>)
    requires WellFormed(a) && a.rows >= 1 && a.cols >= 1
    ensures |g| == a.rows - 1 && Rectangular(g, a.cols - 1)
  {
    seq(a.rows - 1, i requires 0 <= i < a.rows - 1 =>
      seq(a.cols - 1, j requires 0 <= j < a.cols - 1 =>
        FlatBound(Skip(i, r), Skip(j, c), a.rows, a.cols);
        a.elems[Skip(i, r) * a.cols + Skip(j, c)]))
  }

  /** What submatrix(r, c) returns, a (rows - 1) x (cols - 1) matrix.  SubmatrixEntries
      states it entry by entry and SubmatrixIsMinor identifies it with the minor. */
  function SubmatrixOf(a: Matrix, r: nat, c: nat): (s: Matrix)
    requires WellFormed(a) && a.rows >= 1 && a.cols >= 1
    ensures WellFormed(s) && s.rows == a.rows - 1 && s.cols == a.cols - 1
  {
    FromRows(SubmatrixRows(a, r, c), a.cols - 1)
  }

  /** Entry (i, j) of the minor at (r, c) is entry (Skip(i, r), Skip(j, c)). */
  lemma MinorEntry(g: seq<seq<int>>, cols: nat, r: nat, c: nat, i: nat, j: nat)
    requires Rectangular(g, cols) && r < |g| && c < cols && i < |g| - 1 && j < cols - 1
    ensures |Minor(g, r, c)[i]| == cols - 1
    ensures Minor(g, r, c)[i][j] == g[Skip(i, r)][Skip(j, c)]
  {
    var h := g[..r] + g[r + 1..];
    assert h[i] == g[Skip(i, r)];
  }

  /** Entry (i, j) of the submatrix is entry (i + [i >= r], j + [j >= c]) of a: the row
      index skips r once r is reached, the column index skips c once c is reached, and an
      index past the end skips nothing. */
  lemma SubmatrixEntries(a: Matrix, r: nat, c: nat)
    requires WellFormed(a) && a.rows >= 1 && a.cols >= 1
    ensures forall i, j :: 0 <= i < a.rows - 1 && 0 <= j < a.cols - 1 ==>
      Entry(SubmatrixOf(a, r, c), i, j) == Entry(a, if i >= r then i + 1 else i, if j >= c then j + 1 else j)
  {
    forall i, j | 0 <= i < a.rows - 1 && 0 <= j < a.cols - 1
      ensures Entry(SubmatrixOf(a, r, c), i, j) == Entry(a, Skip(i, r), Skip(j, c))
    {
      GridEntry(a.elems, a.rows, a.cols, Skip(i, r), Skip(j, c));
    }
  }

  /** The submatrix is the minor of a at the clamped indices: an index past the last row
      (column) removes the last row (column). */
  lemma SubmatrixIsMinor(a: Matrix, r: nat, c: nat)
    requires WellFormed(a) && a.rows >= 1 && a.cols >= 1
    ensures SubmatrixOf(a, r, c) == FromRows(Minor(RowsOf(a), Min(r, a.rows - 1), Min(c, a.cols - 1)), a.cols - 1)
  {
    var g, rr, cc := RowsOf(a), Min(r, a.rows - 1), Min(c, a.cols - 1);
    var m := Minor(g, rr, cc);
    MinorEntries(g, a.cols, rr, cc);
    forall i, j | 0 <= i < a.rows - 1 && 0 <= j < a.cols - 1
      ensures SubmatrixRows(a, r, c)[i][j] == m[i][j]
    {
      MinorEntry(g, a.cols, rr, cc, i, j);
      assert Skip(i, rr) == Skip(i, r) && Skip(j, cc) == Skip(j, c);
      GridEntry(a.elems, a.rows, a.cols, Skip(i, r), Skip(j, c));
    }
    GridsEqual(SubmatrixRows(a, r, c), m, a.cols - 1);
  }

  /** Element (i, j) of the submatrix, at flat index i * m + j, is the element of a at row
      i2 == Skip(i, r) and column j2 == Skip(j, c), the position the sticky
      row_erased/col_erased flags select. */
  lemma SubmatrixElement(a: Matrix, r: nat, c: nat, i: nat, j: nat, i2: nat, j2: nat, n: nat, m: nat)
    requires WellFormed(a) && i + 1 < a.rows && j + 1 < a.cols && n == a.cols && m + 1 == n
    requires i2 == Skip(i, r) && j2 == Skip(j, c)
    ensures 0 <= i * m + j < |SubmatrixOf(a, r, c).elems| && 0 <= i2 * n + j2 < |a.elems|
    ensures SubmatrixOf(a, r, c).elems[i * m + j] == a.elems[i2 * n + j2]
  {
    var g := SubmatrixRows(a, r, c);
    assert SubmatrixOf(a, r, c).elems == Flatten(g);
    assert 0 <= i * m;
    FlattenIndex(g, m, i, j);
    FlatBound(i2, j2, a.rows, n);
    assert g[i][j] == a.elems[i2 * n + j2];
  }

  /** matrix_product as written reads lhs(i, j) and rhs(k, j) for i < lhs.rows,
      j < rhs.cols and k < lhs.cols, with no check.  Nothing is read when one of those
      three bounds is 0; otherwise every read stays inside both row-major buffers exactly
      when lhs.cols <= rhs.rows (for rhs(k, j)) and rhs.cols <= lhs.cols (for lhs(i, j) in
      the last row). */
  predicate ProductReadsInside(a: Matrix, b: Matrix) {
    a.rows == 0 || b.cols == 0 || a.cols == 0 || (a.cols <= b.rows && b.cols <= a.cols)
  }

  /** The sum matrix_product accumulates in entry (i, j), as written: n terms
      lhs(i, j) * rhs(k, j) for k < n; no term, and no read, when n == 0. */
  function DotAsWritten(a: Matrix, b: Matrix, i: nat, j: nat, n: nat): int
    requires WellFormed(a) && WellFormed(b) && i < a.rows && j < b.cols && n <= b.rows
    requires n > 0 ==> j < a.cols
  {
    if n == 0 then 0 else DotAsWritten(a, b, i, j, n - 1) + Entry(a, i, j) * Entry(b, n - 1, j)
  }

  /** The sum of the first n entries of column j. */
  function ColumnSum(b: Matrix, j: nat, n: nat): int
    requires WellFormed(b) && j < b.cols && n <= b.rows
  {
    if n == 0 then 0 else ColumnSum(b, j, n - 1) + Entry(b, n - 1, j)
  }

  /** As written, entry (i, j) of the product is lhs(i, j) times a column sum of rhs: row i
      of lhs contributes only its own entry (i, j). */
  lemma {:induction false} DotAsWrittenFactors(a: Matrix, b: Matrix, i: nat, j: nat, n: nat)
    requires WellFormed(a) && WellFormed(b) && i < a.rows && j < a.cols && j < b.cols && n <= b.rows
    ensures DotAsWritten(a, b, i, j, n) == Entry(a, i, j) * ColumnSum(b, j, n)
  {
    if n > 0 {
      DotAsWrittenFactors(a, b, i, j, n - 1);
    }
  }

  /** matrix_product as written, whenever its reads stay inside the arrays: entry (i, j)
      is DotAsWritten over lhs.cols terms, so 0 when lhs has no columns. */
  function ProductAsWritten(a: Matrix, b: Matrix): (r: Matrix)
    requires WellFormed(a) && WellFormed(b) && ProductReadsInside(a, b)
    ensures WellFormed(r) && r.rows == a.rows && r.cols == b.cols
    ensures forall i, j :: 0 <= i < a.rows && 0 <= j < b.cols ==>
      Entry(r, i, j) == DotAsWritten(a, b, i, j, a.cols)
  {
    FromRows(seq(a.rows, i requires 0 <= i < a.rows =>
                   seq(b.cols, j requires 0 <= j < b.cols => DotAsWritten(a, b, i, j, a.cols))), b.cols)
  }

  /** Term k of the as-written entry (i, j), read from the flat vectors. */
  lemma DotAsWrittenStep(a: Matrix, b: Matrix, i: nat, j: nat, k: nat)
    requires WellFormed(a) && WellFormed(b) && ProductReadsInside(a, b)
    requires i < a.rows && j < b.cols && k < a.cols
    ensures i * a.cols + j < |a.elems| && k * b.cols + j < |b.elems|
    ensures DotAsWritten(a, b, i, j, k + 1) == DotAsWritten(a, b, i, j, k) + a.elems[i * a.cols + j] * b.elems[k * b.cols + j]
  {
    GridEntry(a.elems, a.rows, a.cols, i, j);
    GridEntry(b.elems, b.rows, b.cols, k, j);
  }

  /** Entry (i, j) of the as-written product, at its flat index. */
  lemma ProductAsWrittenElement(a: Matrix, b: Matrix, i: nat, j: nat)
    requires WellFormed(a) && WellFormed(b) && ProductReadsInside(a, b)
    requires i < a.rows && j < b.cols
    ensures i * b.cols + j < |ProductAsWritten(a, b).elems|
    ensures ProductAsWritten(a, b).elems[i * b.cols + j] == DotAsWritten(a, b, i, j, a.cols)
  {
    GridEntry(ProductAsWritten(a, b).elems, a.rows, b.cols, i, j);
  }

  /** Row i of the as-written product, at flat indices base .. base + b.cols - 1. */
  lemma ProductAsWrittenRow(a: Matrix, b: Matrix, i: nat, base: nat)
    requires WellFormed(a) && WellFormed(b) && ProductReadsInside(a, b)
    requires i < a.rows && base == i * b.cols
    ensures base + b.cols <= |ProductAsWritten(a, b).elems|
    ensures forall j :: 0 <= j < b.cols ==> ProductAsWritten(a, b).elems[base + j] == DotAsWritten(a, b, i, j, a.cols)
  {
    if b.cols > 0 {
      ProductAsWrittenElement(a, b, i, b.cols - 1);
    }
    forall j | 0 <= j < b.cols ensures ProductAsWritten(a, b).elems[base + j] == DotAsWritten(a, b, i, j, a.cols) {
      ProductAsWrittenElement(a, b, i, j);
    }
  }

  /** The as-written product of the 2 x 2 identity and [[1, 2], [3, 4]] has 4 at (0, 0),
      where the product has 1. */
  lemma ProductAsWrittenCounterexample()
    ensures ProductAsWritten(Identity(2), Matrix(2, 2, [1, 2, 3, 4])) != Product(Identity(2), Matrix(2, 2, [1, 2, 3, 4]))
  {
    var a, b := Identity(2), Matrix(2, 2, [1, 2, 3, 4]);
    GridEntry(b.elems, 2, 2, 0, 0);
    GridEntry(b.elems, 2, 2, 1, 0);
    DotAsWrittenFactors(a, b, 0, 0, 2);
    DotIdentityLeft(b, 0, 0, 2);
    assert Entry(ProductAsWritten(a, b), 0, 0) == 4;
    assert Entry(Product(a, b), 0, 0) == 1;
  }

  /** As written, matrix_difference returns lhs + rhs, which is lhs - rhs exactly when rhs
      is all zeros. */
  lemma DifferenceAsWrittenAgrees(a: Matrix, b: Matrix)
    requires WellFormed(a) && WellFormed(b) && a.rows == b.rows && a.cols == b.cols
    ensures Sum(a, b) == Difference(a, b) <==> forall k :: 0 <= k < |b.elems| ==> b.elems[k] == 0
  {
    if forall k :: 0 <= k < |b.elems| ==> b.elems[k] == 0 {
      assert Sum(a, b).elems == Difference(a, b).elems;
    }
    if Sum(a, b) == Difference(a, b) {
      forall k | 0 <= k < |b.elems| ensures b.elems[k] == 0 {
        assert Sum(a, b).elems[k] == Difference(a, b).elems[k];
      }
    }
  }

  /** The smallest case: [1] - [1] as written is [2]. */
  lemma DifferenceAsWrittenCounterexample()
    ensures Sum(Matrix(1, 1, [1]), Matrix(1, 1, [1])) != Difference(Matrix(1, 1, [1]), Matrix(1, 1, [1]))
  {
    DifferenceAsWrittenAgrees(Matrix(1, 1, [1]), Matrix(1, 1, [1]));
    assert Matrix(1, 1, [1]).elems[0] != 0;
  }

  class FixedMatrix {
    /** The template arguments _Rows and _Cols. */
    const rows: nat
    const cols: nat
    /** The std::array<_Ty, _Rows * _Cols>. */
    const mtx: array<int>

    /** size() == rows() * columns(), fixed by the type. */
    ghost predicate Valid()
      reads this
    {
      mtx.Length == rows * cols
    }

    /** The matrix as a value. */
    function Value(): (a: Matrix)
      reads this, mtx
      requires Valid()
      ensures WellFormed(a) && a.rows == rows && a.cols == cols && a.elems == mtx[..]
    {
      Matrix(rows, cols, mtx[..])
    }

    /** The default constructor: value-initialised, so every element is 0. */
    constructor (r: nat, c: nat)
      ensures Valid() && rows == r && cols == c && fresh(mtx)
      ensures forall k :: 0 <= k < mtx.Length ==> mtx[k] == 0
    {
      rows, cols := r, c;
      mtx := new int[r * c](_ => 0);
    }

    /** A matrix holding the given row-major elements: the value a free function returns. */
    constructor OfElements(r: nat, c: nat, elems: seq<int>)
      requires |elems| == r * c
      ensures Valid() && rows == r && cols == c && fresh(mtx)
      ensures Value() == Matrix(r, c, elems)
    {
      rows, cols := r, c;
      mtx := new int[r * c](k requires 0 <= k < r * c => elems[k]);
    }

    /** The copy loop of the initializer-list constructor: row k is copied to flat
        positions k * c onwards. */
    constructor OfRows(list: seq<seq<int>>, c: nat)
      requires Rectangular(list, c)
      ensures Valid() && rows == |list| && cols == c && fresh(mtx)
      ensures Value() == FromRows(list, c)
    {
      ghost var target := Flatten(list);
      FlattenLength(list, c);
      var a := new int[|list| * c];
      var k := 0;
      ghost var base: nat := 0;
      while k < |list|
        invariant k <= |list| && base == k * c && base <= a.Length
        invariant forall t :: 0 <= t < base ==> a[t] == target[t]
      {
        RowStartAfterRow(k, |list|, c);
        var j := 0;
        while j < c
          invariant j <= c
          invariant forall t :: 0 <= t < base + j ==> a[t] == target[t]
        {
          FlattenIndex(list, c, k, j);
          a[k * c + j] := list[k][j];
          j := j + 1;
        }
        NextRowStart(k, c);
        k, base := k + 1, base + c;
      }
      assert a[..] == target;
      rows, cols, mtx := |list|, c, a;
    }

    /** fixed_matrix(init_list): invalid_argument when the list does not have r rows or
        its first row does not have c elements; otherwise the rows, in row-major order.
        An empty list passes the size test only when r == 0, and then its first row is
        read; rows of another length are undefined behaviour.  Both are excluded; an empty
        list with r > 0 throws. */
    static method FromList(r: nat, c: nat, list: seq<seq<int>>) returns (res: Result<FixedMatrix>)
      requires r > 0 || list != []
      requires |list| == r && |list[0]| == c ==> Rectangular(list, c)
      ensures res.Failure? <==> |list| != r || |list[0]| != c
      ensures res.Failure? ==> res.error == InvalidArgument
      ensures res.Success? ==> fresh(res.value) && fresh(res.value.mtx)
      ensures res.Success? ==> res.value.Valid() && res.value.rows == r && res.value.cols == c
      ensures res.Success? ==> res.value.Value() == FromRows(list, c)
    {
      if |list| != r || |list[0]| != c {
        return Failure(InvalidArgument);
      }
      var m := new FixedMatrix.OfRows(list, c);
      res := Success(m);
    }

    /** at(i, j): out_of_range exactly when an index is out of range, else element
        (i, j), found at flat index i * cols + j. */
    function At(i: nat, j: nat): (r: Result<int>)
      reads this, mtx
      requires Valid()
      ensures r.Failure? <==> i >= rows || j >= cols
      ensures r.Failure? ==> r.error == OutOfRange
      ensures r.Success? ==> r.value == Entry(Value(), i, j)
    {
      if i >= rows || j >= cols then Failure(OutOfRange)
      else
        EntryAt(Value(), i, j);
        Success(mtx[i * cols + j])
    }

    /** fill(val): std::array::fill, every element becomes val. */
    method Fill(val: int)
      modifies mtx
      ensures forall k :: 0 <= k < mtx.Length ==> mtx[k] == val
    {
      forall k | 0 <= k < mtx.Length {
        mtx[k] := val;
      }
    }

    /** swap(other): std::array::swap, which exchanges the two arrays element by
        element. */
    method Swap(other: FixedMatrix)
      modifies mtx, other.mtx
      requires Valid() && other.Valid() && other.rows == rows && other.cols == cols
      ensures mtx[..] == old(other.mtx[..]) && other.mtx[..] == old(mtx[..])
    {
      var t := 0;
      while t < mtx.Length
        invariant t <= mtx.Length
        invariant forall k :: 0 <= k < t ==> mtx[k] == old(other.mtx[k]) && other.mtx[k] == old(mtx[k])
        invariant forall k :: t <= k < mtx.Length ==> mtx[k] == old(mtx[k]) && other.mtx[k] == old(other.mtx[k])
      {
        mtx[t], other.mtx[t] := other.mtx[t], mtx[t];
        t := t + 1;
      }
    }

    /** submatrix(r, c) of a matrix with at least one row and one column: a fresh
        (rows - 1) x (cols - 1) matrix filled row by row from entry (i + row_erased,
        j + col_erased), where row_erased is set once row r is reached and stays set, and
        col_erased is reset at each row and set once column c is reached. */
    method Submatrix(r: nat, c: nat) returns (sub: FixedMatrix)
      requires Valid() && rows >= 1 && cols >= 1
      ensures fresh(sub) && fresh(sub.mtx)
      ensures sub.Valid() && sub.rows == rows - 1 && sub.cols == cols - 1
      ensures sub.Value() == SubmatrixOf(Value(), r, c)
    {
      ghost var a := Value();
      ghost var target := SubmatrixOf(a, r, c).elems;
      sub := new FixedMatrix(rows - 1, cols - 1);
      var subRows, subCols := sub.rows, sub.cols;
      var rowErased: nat, colErased: nat := 0, 0;
      var i := 0;
      ghost var base: nat := 0;
      while i < subRows
        invariant i <= subRows && base == i * subCols && base <= sub.mtx.Length
        invariant rowErased == if r < i && subCols > 0 then 1 else 0
        invariant forall t :: 0 <= t < base ==> sub.mtx[t] == target[t]
      {
        RowStartAfterRow(i, subRows, subCols);
        rowErased := CopyMinorRow(sub, r, c, i, rowErased, base, target);
        NextRowStart(i, subCols);
        i, base := i + 1, base + subCols;
      }
      assert sub.mtx[..] == target;
    }

    /** One pass of submatrix's outer loop: row i of sub, whose flat positions start at
        base, is filled from this matrix, skipping column c, and from the row after i on
        once row r has been passed (the row_erased flag is carried from row to row, the
        column flag is reset per row). */
    method CopyMinorRow(sub: FixedMatrix, r: nat, c: nat, i: nat, rowErasedBefore: nat,
                        ghost base: nat, ghost target: seq<int>)
      returns (rowErased: nat)
      modifies sub.mtx
      requires Valid() && sub.Valid() && rows >= 1 && cols >= 1
      requires sub.rows == rows - 1 && sub.cols == cols - 1 && sub.mtx != mtx && i < sub.rows
      requires base == i * sub.cols && base + sub.cols <= sub.mtx.Length
      requires target == SubmatrixOf(Value(), r, c).elems
      requires rowErasedBefore == if r < i && sub.cols > 0 then 1 else 0
      ensures rowErased == if r <= i && sub.cols > 0 then 1 else 0
      ensures forall t :: 0 <= t < base ==> sub.mtx[t] == old(sub.mtx[t])
      ensures forall t :: base <= t < base + sub.cols ==> sub.mtx[t] == target[t]
    {
      ghost var a := Value();
      var subCols := sub.cols;
      rowErased := rowErasedBefore;
      var colErased: nat := 0;
      var j := 0;
      while j < subCols
        invariant j <= subCols
        invariant rowErased == if (r < i || (r == i && j > 0)) && subCols > 0 then 1 else 0
        invariant colErased == if c < j then 1 else 0
        invariant forall t :: 0 <= t < base ==> sub.mtx[t] == old(sub.mtx[t])
        invariant forall t :: base <= t < base + j ==> sub.mtx[t] == target[t]
      {
        if i == r {
          rowErased := 1;
        }
        if j == c {
          colErased := 1;
        }
        var si: nat, sj: nat := i + rowErased, j + colErased;
        SubmatrixElement(a, r, c, i, j, si, sj, cols, subCols);
        sub.mtx[i * subCols + j] := mtx[si * cols + sj];
        j := j + 1;
      }
    }

    /** operator==: true for the same object, otherwise std::equal over the two arrays. */
    function Equals(other: FixedMatrix): (b: bool)
      reads this, mtx, other, other.mtx
      requires Valid() && other.Valid() && other.rows == rows && other.cols == cols
      ensures b <==> Value() == other.Value()
    {
      this == other || mtx[..] == other.mtx[..]
    }
  }

  /** matrix_sum: one pass over the three arrays, sum[t] = lhs[t] + rhs[t]. */
  method MatrixSum(lhs: FixedMatrix, rhs: FixedMatrix) returns (sum: FixedMatrix)
    requires lhs.Valid() && rhs.Valid() && lhs.rows == rhs.rows && lhs.cols == rhs.cols
    ensures fresh(sum) && fresh(sum.mtx)
    ensures sum.Valid() && sum.rows == lhs.rows && sum.cols == lhs.cols
    ensures sum.Value() == Sum(lhs.Value(), rhs.Value())
  {
    sum := new FixedMatrix(lhs.rows, lhs.cols);
    var t := 0;
    while t < sum.mtx.Length
      invariant t <= sum.mtx.Length
      invariant forall s :: 0 <= s < t ==> sum.mtx[s] == lhs.mtx[s] + rhs.mtx[s]
    {
      sum.mtx[t] := lhs.mtx[t] + rhs.mtx[t];
      t := t + 1;
    }
    assert sum.mtx[..] == Sum(lhs.Value(), rhs.Value()).elems;
  }

  /** matrix_difference as written: the same pass as matrix_sum, so it returns lhs + rhs
      (see DifferenceAsWrittenAgrees). */
  method MatrixDifference(lhs: FixedMatrix, rhs: FixedMatrix) returns (difference: FixedMatrix)
    requires lhs.Valid() && rhs.Valid() && lhs.rows == rhs.rows && lhs.cols == rhs.cols
    ensures fresh(difference) && fresh(difference.mtx)
    ensures difference.Valid() && difference.rows == lhs.rows && difference.cols == lhs.cols
    ensures difference.Value() == Sum(lhs.Value(), rhs.Value())
  {
    difference := new FixedMatrix(lhs.rows, lhs.cols);
    var t := 0;
    while t < difference.mtx.Length
      invariant t <= difference.mtx.Length
      invariant forall s :: 0 <= s < t ==> difference.mtx[s] == lhs.mtx[s] + rhs.mtx[s]
    {
      difference.mtx[t] := lhs.mtx[t] + rhs.mtx[t];
      t := t + 1;
    }
    assert difference.mtx[..] == Sum(lhs.Value(), rhs.Value()).elems;
  }

  /** matrix_difference as intended: difference[t] = lhs[t] - rhs[t]. */
  method CorrectedMatrixDifference(lhs: FixedMatrix, rhs: FixedMatrix) returns (difference: FixedMatrix)
    requires lhs.Valid() && rhs.Valid() && lhs.rows == rhs.rows && lhs.cols == rhs.cols
    ensures fresh(difference) && fresh(difference.mtx)
    ensures difference.Valid() && difference.rows == lhs.rows && difference.cols == lhs.cols
    ensures difference.Value() == Difference(lhs.Value(), rhs.Value())
  {
    difference := new FixedMatrix(lhs.rows, lhs.cols);
    var t := 0;
    while t < difference.mtx.Length
      invariant t <= difference.mtx.Length
      invariant forall s :: 0 <= s < t ==> difference.mtx[s] == lhs.mtx[s] - rhs.mtx[s]
    {
      difference.mtx[t] := lhs.mtx[t] - rhs.mtx[t];
      t := t + 1;
    }
    assert difference.mtx[..] == Difference(lhs.Value(), rhs.Value()).elems;
  }

  /** The innermost loop of matrix_product as written: product(i, j) += lhs(i, j) * rhs(k, j)
      for k < lhs.cols. */
  method AccumulateAsWritten(lhs: Matrix, rhs: Matrix, p: seq<int>, i: nat, j: nat, ghost at: nat)
    returns (q: seq<int>)
    requires WellFormed(lhs) && WellFormed(rhs) && ProductReadsInside(lhs, rhs)
    requires i < lhs.rows && j < rhs.cols && at == i * rhs.cols + j && at < |p|
    ensures |q| == |p| && q[at] == p[at] + DotAsWritten(lhs, rhs, i, j, lhs.cols)
    ensures q[at := 0] == p[at := 0]
  {
    var C, K := rhs.cols, lhs.cols;
    q := p;
    var k := 0;
    while k < K
      invariant k <= K && |q| == |p|
      invariant q[at] == p[at] + DotAsWritten(lhs, rhs, i, j, k)
      invariant q[at := 0] == p[at := 0]
    {
      DotAsWrittenStep(lhs, rhs, i, j, k);
      FlatBound(i, j, lhs.rows, K);
      FlatBound(k, j, rhs.rows, C);
      ghost var before := q;
      q := q[i * C + j := q[i * C + j] + lhs.elems[i * K + j] * rhs.elems[k * C + j]];
      assert q[at := 0] == before[at := 0];
      k := k + 1;
    }
  }

  /** The j loop of matrix_product as written, over row i. */
  method RowAsWritten(lhs: Matrix, rhs: Matrix, p: seq<int>, i: nat, ghost base: nat, ghost target: seq<int>)
    returns (q: seq<int>)
    requires WellFormed(lhs) && WellFormed(rhs) && ProductReadsInside(lhs, rhs) && i < lhs.rows
    requires base == i * rhs.cols && base + rhs.cols <= |target| && FilledUpTo(p, target, base)
    requires forall j :: 0 <= j < rhs.cols ==> target[base + j] == DotAsWritten(lhs, rhs, i, j, lhs.cols)
    ensures FilledUpTo(q, target, base + rhs.cols)
  {
    q := p;
    var j := 0;
    while j < rhs.cols
      invariant j <= rhs.cols && FilledUpTo(q, target, base + j)
    {
      assert q[base + j := 0] == q;
      q := AccumulateAsWritten(lhs, rhs, q, i, j, base + j);
      FillAccumulated(q, target, base + j);
      j := j + 1;
    }
  }

  /** matrix_product as written, for an LHSRows x LHSCols lhs and an RHSRows x RHSCols rhs:
      a value-initialised LHSRows x RHSCols result, and product(i, j) += lhs(i, j) * rhs(k, j)
      for i < LHSRows, j < RHSCols, k < LHSCols.  The dimensions are not checked; the
      requires is exactly that the unchecked accesses stay inside the arrays
      (ProductReadsInside).  The result is lhs(i, j) times a column sum of rhs (see
      DotAsWrittenFactors), not the matrix product (see ProductAsWrittenCounterexample). */
  method MatrixProduct(lhs: FixedMatrix, rhs: FixedMatrix) returns (product: FixedMatrix)
    requires lhs.Valid() && rhs.Valid() && ProductReadsInside(lhs.Value(), rhs.Value())
    ensures fresh(product) && fresh(product.mtx)
    ensures product.Valid() && product.rows == lhs.rows && product.cols == rhs.cols
    ensures product.Value() == ProductAsWritten(lhs.Value(), rhs.Value())
  {
    var a, b := lhs.Value(), rhs.Value();
    var R, C := lhs.rows, rhs.cols;
    ghost var target := ProductAsWritten(a, b).elems;
    var p := seq(R * C, _ => 0);
    var i := 0;
    ghost var base: nat := 0;
    while i < R
      invariant i <= R && base == i * C && FilledUpTo(p, target, base)
    {
      ProductAsWrittenRow(a, b, i, base);
      p := RowAsWritten(a, b, p, i, base, target);
      NextRowStart(i, C);
      i, base := i + 1, base + C;
    }
    assert p == p[..base] == target;
    product := new FixedMatrix.OfElements(R, C, p);
  }

  /** matrix_product as intended, for LHSCols == RHSRows: product(i, j) += lhs(i, k) *
      rhs(k, j), the standard product. */
  method CorrectedMatrixProduct(lhs: FixedMatrix, rhs: FixedMatrix) returns (product: FixedMatrix)
    requires lhs.Valid() && rhs.Valid() && lhs.cols == rhs.rows
    ensures fresh(product) && fresh(product.mtx)
    ensures product.Valid() && product.rows == lhs.rows && product.cols == rhs.cols
    ensures product.Value() == Product(lhs.Value(), rhs.Value())
  {
    var p := DM.ProductLoop(lhs.Value(), rhs.Value());
    product := new FixedMatrix.OfElements(lhs.rows, rhs.cols, p);
  }

  /** matrix_trace of a square matrix: the elements from the first one onwards with stride
      cols + 1, while the position is before the end. */
  method MatrixTrace(fm: FixedMatrix) returns (trace: int)
    requires fm.Valid() && fm.rows == fm.cols
    ensures trace == Trace(fm.Value())
  {
    ghost var a := fm.Value();
    trace := 0;
    var at := 0;
    ghost var i: nat := 0;
    while at < fm.mtx.Length
      invariant i <= a.rows && at == i * (a.cols + 1) && trace == DiagonalSum(a, i)
      decreases a.rows - i
    {
      StrideInBounds(a.cols, i);
      DiagonalStride(a, i);
      NextRowStart(i, a.cols + 1);
      trace := trace + fm.mtx[at];
      at := at + fm.cols + 1;
      i := i + 1;
    }
    StrideInBounds(a.cols, i);
  }
}
