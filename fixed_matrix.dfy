/** crsc::fixed_matrix (fixed_matrix.h): a matrix whose dimensions are template constants
    and whose elements live row-major in a std::array of rows * cols elements.  The
    dimensions are constant fields here and the std::array a constant array; operations
    change its contents in place. */
module FixedMatrix {
  import opened Outcomes
  import opened MatrixMath
  import DM = DynamicMatrix

  class FixedMatrix {
    /** The template arguments _Rows and _Cols. */
    const rows: nat
    const cols: nat
    /** The std::array<_Ty, _Rows * _Cols>. */
    const mtx: array<int>

    /** size() == rows() * columns(), fixed by the type. */
    ghost predicate Valid()
      reads this
    {
      mtx.Length == rows * cols
    }

    /** The matrix as a value. */
    function Value(): (a: Matrix)
      reads this, mtx
      requires Valid()
      ensures WellFormed(a) && a.rows == rows && a.cols == cols && a.elems == mtx[..]
    {
      Matrix(rows, cols, mtx[..])
    }

    /** The default constructor: value-initialised, so every element is 0. */
    constructor (r: nat, c: nat)
      ensures Valid() && rows == r && cols == c && fresh(mtx)
      ensures forall k :: 0 <= k < mtx.Length ==> mtx[k] == 0
    {
      rows, cols := r, c;
      mtx := new int[r * c](_ => 0);
    }

    /** fixed_matrix(val): value-initialised, then fill(val). */
    constructor Filled(r: nat, c: nat, val: int)
      ensures Valid() && rows == r && cols == c && fresh(mtx)
      ensures forall k :: 0 <= k < mtx.Length ==> mtx[k] == val
    {
      rows, cols := r, c;
      mtx := new int[r * c](_ => 0);
      new;
      Fill(val);
    }

    /** fixed_matrix(c_arr_2d): element (i, j) of the C array is copied to flat index
        i * cols + j. */
    constructor FromArray(r: nat, c: nat, arr: seq<seq<int>>)
      requires |arr| >= r && forall i :: 0 <= i < r ==> |arr[i]| >= c
      ensures Valid() && rows == r && cols == c && fresh(mtx)
      ensures Value() == FromRows(TopLeft(arr, r, c), c)
    {
      ghost var target := Flatten(TopLeft(arr, r, c));
      FlattenLength(TopLeft(arr, r, c), c);
      var a := new int[r * c](_ => 0);
      var i := 0;
      ghost var base: nat := 0;
      while i < r
        invariant i <= r && base == i * c && FilledUpTo(a[..], target, base)
      {
        CopyArrayRow(a, arr, r, c, i, base);
        NextRowStart(i, c);
        i, base := i + 1, base + c;
      }
      assert a[..] == a[..][..base] == target;
      rows, cols, mtx := r, c, a;
    }

    /** The copy constructor. */
    constructor Copy(other: FixedMatrix)
      requires other.Valid()
      ensures Valid() && rows == other.rows && cols == other.cols && fresh(mtx)
      ensures Value() == other.Value()
    {
      rows, cols := other.rows, other.cols;
      var a := new int[other.mtx.Length];
      forall k | 0 <= k < a.Length {
        a[k] := other.mtx[k];
      }
      mtx := a;
    }

    /** A matrix holding the given row-major elements: the value an operator returns. */
    constructor OfElements(r: nat, c: nat, elems: seq<int>)
      requires |elems| == r * c
      ensures Valid() && rows == r && cols == c && fresh(mtx)
      ensures Value() == Matrix(r, c, elems)
    {
      rows, cols := r, c;
      mtx := new int[r * c](k requires 0 <= k < r * c => elems[k]);
    }

    /** at(i, j): out_of_range exactly when an index is out of range, else element
        (i, j), found at flat index i * cols + j. */
    function At(i: nat, j: nat): (r: Result<int>)
      reads this, mtx
      requires Valid()
      ensures r.Failure? <==> i >= rows || j >= cols
      ensures r.Failure? ==> r.error == OutOfRange
      ensures r.Success? ==> r.value == Entry(Value(), i, j)
    {
      if i >= rows || j >= cols then Failure(OutOfRange)
      else
        EntryAt(Value(), i, j);
        Success(mtx[i * cols + j])
    }

    /** fill(val): every element becomes val. */
    method Fill(val: int)
      modifies mtx
      ensures forall k :: 0 <= k < mtx.Length ==> mtx[k] == val
    {
      forall k | 0 <= k < mtx.Length {
        mtx[k] := val;
      }
    }

    /** swap(other): std::array::swap, which exchanges the two arrays element by
        element. */
    method Swap(other: FixedMatrix)
      modifies mtx, other.mtx
      requires Valid() && other.Valid() && other.rows == rows && other.cols == cols
      ensures mtx[..] == old(other.mtx[..]) && other.mtx[..] == old(mtx[..])
    {
      var t := 0;
      while t < mtx.Length
        invariant t <= mtx.Length
        invariant forall k :: 0 <= k < t ==> mtx[k] == old(other.mtx[k]) && other.mtx[k] == old(mtx[k])
        invariant forall k :: t <= k < mtx.Length ==> mtx[k] == old(mtx[k]) && other.mtx[k] == old(other.mtx[k])
      {
        mtx[t], other.mtx[t] := other.mtx[t], mtx[t];
        t := t + 1;
      }
    }

    /** trace(): logic_error unless square, else the sum of mtx[i * (cols + 1)] for
        i < rows. */
    method Trace() returns (r: Result<int>)
      requires Valid()
      ensures rows != cols ==> r == Failure(LogicError)
      ensures rows == cols ==> r == Success(MatrixMath.Trace(Value()))
    {
      if rows != cols {
        return Failure(LogicError);
      }
      var result := 0;
      var i := 0;
      while i < rows
        invariant i <= rows && result == DiagonalSum(Value(), i)
      {
        DiagonalStride(Value(), i);
        result := result + mtx[i * (cols + 1)];
        i := i + 1;
      }
      r := Success(result);
    }

    /** operator+=: entry (i, j) grows by other.at(i, j), row by row, in place.  other has
        the same type, so at never throws; a += a doubles a. */
    method AddAssign(other: FixedMatrix)
      modifies mtx
      requires Valid() && other.Valid() && other.rows == rows && other.cols == cols
      ensures Value() == Sum(old(Value()), old(other.Value()))
    {
      ghost var orig, addend := mtx[..], other.mtx[..];
      ghost var target := seq(|orig|, t requires 0 <= t < |orig| => orig[t] + addend[t]);
      var i := 0;
      ghost var base: nat := 0;
      while i < rows
        invariant i <= rows && base == i * cols && base <= mtx.Length
        invariant forall t :: 0 <= t < base ==> mtx[t] == target[t]
        invariant forall t :: base <= t < mtx.Length ==> mtx[t] == orig[t]
        invariant other.mtx != mtx ==> other.mtx[..] == addend
      {
        RowStartAfterRow(i, rows, cols);
        var j := 0;
        while j < cols
          invariant j <= cols
          invariant forall t :: 0 <= t < base + j ==> mtx[t] == target[t]
          invariant forall t :: base + j <= t < mtx.Length ==> mtx[t] == orig[t]
          invariant other.mtx != mtx ==> other.mtx[..] == addend
        {
          var k := i * cols + j;
          mtx[k] := mtx[k] + other.mtx[k];
          j := j + 1;
        }
        NextRowStart(i, cols);
        i, base := i + 1, base + cols;
      }
      assert mtx[..] == target;
    }
    /** operator-=: entry (i, j) shrinks by other.at(i, j), row by row, in place; a -= a
        zeroes a. */
    method SubAssign(other: FixedMatrix)
      modifies mtx
      requires Valid() && other.Valid() && other.rows == rows && other.cols == cols
      ensures Value() == Difference(old(Value()), old(other.Value()))
    {
      ghost var orig, subtrahend := mtx[..], other.mtx[..];
      ghost var target := seq(|orig|, t requires 0 <= t < |orig| => orig[t] - subtrahend[t]);
      var i := 0;
      ghost var base: nat := 0;
      while i < rows
        invariant i <= rows && base == i * cols && base <= mtx.Length
        invariant forall t :: 0 <= t < base ==> mtx[t] == target[t]
        invariant forall t :: base <= t < mtx.Length ==> mtx[t] == orig[t]
        invariant other.mtx != mtx ==> other.mtx[..] == subtrahend
      {
        RowStartAfterRow(i, rows, cols);
        var j := 0;
        while j < cols
          invariant j <= cols
          invariant forall t :: 0 <= t < base + j ==> mtx[t] == target[t]
          invariant forall t :: base + j <= t < mtx.Length ==> mtx[t] == orig[t]
          invariant other.mtx != mtx ==> other.mtx[..] == subtrahend
        {
          var k := i * cols + j;
          mtx[k] := mtx[k] - other.mtx[k];
          j := j + 1;
        }
        NextRowStart(i, cols);
        i, base := i + 1, base + cols;
      }
      assert mtx[..] == target;
    }

    /** operator+: a fresh value-initialised matrix whose entry (i, j) is set to
        at(i, j) + other.at(i, j); both operands are left as they were. */
    method Plus(other: FixedMatrix) returns (sum: FixedMatrix)
      requires Valid() && other.Valid() && other.rows == rows && other.cols == cols
      ensures fresh(sum) && fresh(sum.mtx)
      ensures sum.Valid() && sum.rows == rows && sum.cols == cols
      ensures sum.Value() == MatrixMath.Sum(Value(), other.Value())
    {
      sum := new FixedMatrix(rows, cols);
      var i := 0;
      ghost var base: nat := 0;
      while i < rows
        invariant i <= rows && base == i * cols && base <= sum.mtx.Length
        invariant forall t :: 0 <= t < base ==> sum.mtx[t] == mtx[t] + other.mtx[t]
      {
        RowStartAfterRow(i, rows, cols);
        var j := 0;
        while j < cols
          invariant j <= cols
          invariant forall t :: 0 <= t < base + j ==> sum.mtx[t] == mtx[t] + other.mtx[t]
        {
          sum.mtx[i * cols + j] := mtx[i * cols + j] + other.mtx[i * cols + j];
          j := j + 1;
        }
        NextRowStart(i, cols);
        i, base := i + 1, base + cols;
      }
      assert sum.mtx[..] == MatrixMath.Sum(Value(), other.Value()).elems;
    }

    /** operator-: a fresh matrix whose entry (i, j) is at(i, j) - other.at(i, j). */
    method Minus(other: FixedMatrix) returns (difference: FixedMatrix)
      requires Valid() && other.Valid() && other.rows == rows && other.cols == cols
      ensures fresh(difference) && fresh(difference.mtx)
      ensures difference.Valid() && difference.rows == rows && difference.cols == cols
      ensures difference.Value() == Difference(Value(), other.Value())
    {
      difference := new FixedMatrix(rows, cols);
      var i := 0;
      ghost var base: nat := 0;
      while i < rows
        invariant i <= rows && base == i * cols && base <= difference.mtx.Length
        invariant forall t :: 0 <= t < base ==> difference.mtx[t] == mtx[t] - other.mtx[t]
      {
        RowStartAfterRow(i, rows, cols);
        var j := 0;
        while j < cols
          invariant j <= cols
          invariant forall t :: 0 <= t < base + j ==> difference.mtx[t] == mtx[t] - other.mtx[t]
        {
          difference.mtx[i * cols + j] := mtx[i * cols + j] - other.mtx[i * cols + j];
          j := j + 1;
        }
        NextRowStart(i, cols);
        i, base := i + 1, base + cols;
      }
      assert difference.mtx[..] == Difference(Value(), other.Value()).elems;
    }

    /** operator*(other), for any second shape: product(i, j) += at(i, k) * other.at(k, j)
        over i < rows, j < other.columns(), k < columns().  When columns() exceeds
        other.rows() (and the loops run at all) the first other.at(k, j) with
        k == other.rows() throws out_of_range before any result is observable, so the model
        checks for it first.  Otherwise the sum runs over this matrix's columns, which is
        the standard product when columns() == other.rows(). */
    method Times(other: FixedMatrix) returns (r: Result<FixedMatrix>)
      requires Valid() && other.Valid()
      ensures r.Failure? <==> cols > other.rows && rows > 0 && other.cols > 0
      ensures r.Failure? ==> r.error == OutOfRange
      ensures r.Success? ==> fresh(r.value) && fresh(r.value.mtx)
      ensures r.Success? ==> r.value.Valid() && r.value.rows == rows && r.value.cols == other.cols
      ensures r.Success? && cols <= other.rows ==> r.value.Value() == Product(Value(), other.Value())
    {
      if cols > other.rows {
        if rows > 0 && other.cols > 0 {
          return Failure(OutOfRange);
        }
        var empty := new FixedMatrix(rows, other.cols);
        return Success(empty);
      }
      var p := DM.ProductLoop(Value(), other.Value());
      var product := new FixedMatrix.OfElements(rows, other.cols, p);
      r := Success(product);
    }

    /** operator==: true for the same object; otherwise false at the first entry (i, j)
        where the two differ, and true when there is none. */
    method Equals(other: FixedMatrix) returns (b: bool)
      requires Valid() && other.Valid() && other.rows == rows && other.cols == cols
      ensures b <==> Value() == other.Value()
    {
      if this != other {
        var i := 0;
        ghost var base: nat := 0;
        while i < rows
          invariant i <= rows && base == i * cols && base <= mtx.Length
          invariant forall t :: 0 <= t < base ==> mtx[t] == other.mtx[t]
        {
          RowStartAfterRow(i, rows, cols);
          var j := 0;
          while j < cols
            invariant j <= cols
            invariant forall t :: 0 <= t < base + j ==> mtx[t] == other.mtx[t]
          {
            if mtx[i * cols + j] != other.mtx[i * cols + j] {
              assert mtx[..][base + j] != other.mtx[..][base + j];
              return false;
            }
            j := j + 1;
          }
          NextRowStart(i, cols);
          i, base := i + 1, base + cols;
        }
        assert mtx[..] == other.mtx[..];
      }
      return true;
    }
  }

  /** One pass of the two-dimensional-array constructor's row loop: element (i, j) of arr
      goes to flat index i * c + j, for j < c. */
  method CopyArrayRow(a: array<int>, arr: seq<seq<int>>, r: nat, c: nat, i: nat, ghost base: nat)
    modifies a
    requires |arr| >= r && (forall k :: 0 <= k < r ==> |arr[k]| >= c) && i < r
    requires base == i * c && FilledUpTo(a[..], Flatten(TopLeft(arr, r, c)), base)
    ensures FilledUpTo(a[..], Flatten(TopLeft(arr, r, c)), base + c)
  {
    ghost var target := Flatten(TopLeft(arr, r, c));
    var j := 0;
    while j < c
      invariant j <= c && FilledUpTo(a[..], target, base + j)
    {
      TopLeftElement(arr, r, c, i, j);
      FillNext(a[..], target, base + j);
      ghost var before := a[..];
      a[i * c + j] := arr[i][j];
      assert a[..] == before[base + j := target[base + j]];
      j := j + 1;
    }
  }
}
