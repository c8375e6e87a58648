/** crsc::mathematical_dynamic_matrix (mathematical_dynamic_matrix.h): a dynamic_matrix
    held by value, plus the arithmetic operators.  Storage and shape operations forward to
    the wrapped matrix, so its "no holes" invariant is the wrapper's invariant. */
module MathematicalDynamicMatrix {
  import opened Outcomes
  import opened MatrixMath
  import DM = DynamicMatrix

  /** other.mtx(i, j) reads flat index i * b.cols + j of b without a check; for every
      i < rows and j < cols that index is inside b's elements exactly when the last one,
      (rows - 1) * b.cols + cols - 1, is. */
  predicate ReadsInside(b: Matrix, rows: nat, cols: nat) {
    rows == 0 || cols == 0 || (rows - 1) * b.cols + cols <= |b.elems|
  }

  lemma ReadInside(b: Matrix, rows: nat, cols: nat, i: nat, j: nat)
    requires ReadsInside(b, rows, cols) && i < rows && j < cols
    ensures i * b.cols + j < |b.elems|
  {
    MulMonotone(i, rows - 1, b.cols);
  }

  lemma MulMonotone(x: nat, y: nat, n: nat)
    requires x <= y
    ensures x * n <= y * n
  {
    assert y * n == x * n + (y - x) * n;
  }

  /** The element of b that other.mtx(i, j) reads: flat index i * b.cols + j. */
  function ReadAt(b: Matrix, rows: nat, cols: nat, i: nat, j: nat): int
    requires ReadsInside(b, rows, cols) && i < rows && j < cols
  {
    ReadInside(b, rows, cols, i, j);
    b.elems[i * b.cols + j]
  }

  /** The rows x cols matrix of the elements other.mtx(i, j) reads from b. */
  function ReadBlock(b: Matrix, rows: nat, cols: nat): (r: Matrix)
    requires ReadsInside(b, rows, cols)
    ensures WellFormed(r) && r.rows == rows && r.cols == cols
  {
    FromRows(seq(rows, i requires 0 <= i < rows =>
      seq(cols, j requires 0 <= j < cols => ReadAt(b, rows, cols, i, j))), cols)
  }

  /** Entry (i, j) of the block is flat element i * b.cols + j of b. */
  lemma ReadBlockEntry(b: Matrix, rows: nat, cols: nat, i: nat, j: nat)
    requires ReadsInside(b, rows, cols) && i < rows && j < cols
    ensures i * b.cols + j < |b.elems| && Entry(ReadBlock(b, rows, cols), i, j) == b.elems[i * b.cols + j]
  {
    ReadInside(b, rows, cols, i, j);
  }

  /** When b is at least rows x cols, the block read is b's top-left rows x cols corner. */
  lemma ReadBlockTopLeft(b: Matrix, rows: nat, cols: nat)
    requires WellFormed(b) && rows <= b.rows && cols <= b.cols
    ensures ReadsInside(b, rows, cols)
    ensures forall i, j :: 0 <= i < rows && 0 <= j < cols ==>
      Entry(ReadBlock(b, rows, cols), i, j) == Entry(b, i, j)
  {
    if rows > 0 && cols > 0 {
      MulMonotone(rows - 1, b.rows - 1, b.cols);
      assert (b.rows - 1) * b.cols + b.cols == b.rows * b.cols;
    }
    forall i, j | 0 <= i < rows && 0 <= j < cols
      ensures Entry(ReadBlock(b, rows, cols), i, j) == Entry(b, i, j)
    {
      EntryAt(b, i, j);
      ReadBlockEntry(b, rows, cols, i, j);
    }
  }

  /** With b's own dimensions the block read is b itself. */
  lemma ReadBlockWhole(b: Matrix)
    requires WellFormed(b)
    ensures ReadsInside(b, b.rows, b.cols) && ReadBlock(b, b.rows, b.cols) == b
  {
    ReadBlockTopLeft(b, b.rows, b.cols);
    EqualByEntries(ReadBlock(b, b.rows, b.cols), b);
  }

  /** The flat elements of a plus (or, when subtract holds, minus) the block read from b. */
  function Combined(a: Matrix, b: Matrix, subtract: bool): (r: seq<int>)
    requires WellFormed(a) && ReadsInside(b, a.rows, a.cols)
    ensures |r| == |a.elems|
  {
    if subtract then Difference(a, ReadBlock(b, a.rows, a.cols)).elems
    else Sum(a, ReadBlock(b, a.rows, a.cols)).elems
  }

  /** Flat element at == i * a.cols + j of the combination, where from == i * b.cols + j is
      the element of b read for it. */
  lemma CombinedStep(a: Matrix, b: Matrix, subtract: bool, i: nat, j: nat, at: nat, from: nat)
    requires WellFormed(a) && ReadsInside(b, a.rows, a.cols)
    requires i < a.rows && j < a.cols && at == i * a.cols + j && from == i * b.cols + j
    ensures at < |a.elems| && from < |b.elems|
    ensures Combined(a, b, subtract)[at] ==
      if subtract then a.elems[at] - b.elems[from] else a.elems[at] + b.elems[from]
  {
    var block := ReadBlock(b, a.rows, a.cols);
    EntryAt(block, i, j);
    ReadBlockEntry(b, a.rows, a.cols, i, j);
  }

  /** One row i of the operator+= / operator-= pass: entries base .. base + a.cols - 1
      of the flat vector take their combined values, reading b from flat index row on. */
  method CombineRow(m: seq<int>, other: seq<int>, base: nat, row: nat, cols: nat, subtract: bool,
                    ghost a: Matrix, ghost b: Matrix, ghost i: nat) returns (r: seq<int>)
    requires WellFormed(a) && ReadsInside(b, a.rows, a.cols) && other == b.elems && cols == a.cols
    requires i < a.rows && base == i * a.cols && row == i * b.cols
    requires UpdatedUpTo(m, Combined(a, b, subtract), a.elems, base)
    ensures UpdatedUpTo(r, Combined(a, b, subtract), a.elems, base + a.cols)
  {
    ghost var target := Combined(a, b, subtract);
    r := m;
    var j: nat := 0;
    while j < cols
      invariant j <= cols && UpdatedUpTo(r, target, a.elems, base + j)
    {
      CombinedStep(a, b, subtract, i, j, base + j, row + j);
      UpdateNext(r, target, a.elems, base + j);
      var v := if subtract then r[base + j] - other[row + j] else r[base + j] + other[row + j];
      assert v == target[base + j];
      r := r[base + j := v];
      j := j + 1;
    }
  }

  class MathematicalDynamicMatrix {
    /** The wrapped dynamic_matrix. */
    var mtx: DM.DynamicMatrix

    /** The class invariant is the wrapped matrix's. */
    ghost predicate Valid()
      reads this, mtx
    {
      mtx.Valid()
    }

    /** The default constructor: an empty 0 x 0 matrix. */
    constructor ()
      ensures fresh(mtx) && Valid() && mtx.Value() == Matrix(0, 0, [])
    {
      mtx := new DM.DynamicMatrix();
    }

    /** The sized constructors: rows x cols copies of val. */
    constructor Filled(r: nat, c: nat, val: int)
      ensures fresh(mtx) && Valid() && mtx.rows == r && mtx.cols == c
      ensures forall i, j :: 0 <= i < r && 0 <= j < c ==> mtx.Grid()[i][j] == val
    {
      mtx := new DM.DynamicMatrix.Filled(r, c, val);
    }

    /** The initializer-list constructor. */
    constructor FromRows(list: seq<seq<int>>)
      requires list != [] && Rectangular(list, |list[0]|)
      ensures fresh(mtx) && Valid() && mtx.rows == |list| && mtx.cols == |list[0]|
      ensures mtx.Grid() == list
    {
      mtx := new DM.DynamicMatrix.FromRows(list);
    }

    /** The copy constructor: a fresh wrapped matrix equal to other's. */
    constructor Copy(other: MathematicalDynamicMatrix)
      requires other.Valid()
      ensures fresh(mtx) && Valid() && mtx.Value() == other.mtx.Value()
    {
      mtx := new DM.DynamicMatrix.FromValue(other.mtx.Value());
    }

    /** A wrapper around a fresh dynamic_matrix holding a, the value the free arithmetic
        functions return. */
    constructor Wrap(a: Matrix)
      requires WellFormed(a)
      ensures fresh(mtx) && Valid() && mtx.Value() == a
    {
      mtx := new DM.DynamicMatrix.FromValue(a);
    }

    /** at(i, j), forwarded. */
    function At(i: nat, j: nat): (r: Result<int>)
      reads this, mtx
      requires Valid()
      ensures r.Failure? <==> i >= mtx.rows || j >= mtx.cols
      ensures r.Failure? ==> r.error == OutOfRange
      ensures r.Success? ==> r.value == mtx.Grid()[i][j]
    {
      mtx.At(i, j)
    }

    /** operator+=: for every i < rows() and j < columns(), adds other.mtx(i, j) to entry
        (i, j).  There is no dimension check: other.mtx(i, j) is the unchecked read of flat
        index i * other's columns + j, so the caller's obligation is only that every such read
        stays inside other's elements.  When other is at least as large, what is added is
        other's top-left corner (ReadBlockTopLeft); with equal dimensions it is the plain sum.
        The pass runs on the flat vector and stores it back; since entry (i, j) of other is
        read only when entry (i, j) is updated, a += a doubles a as in the source. */
    method AddAssign(other: MathematicalDynamicMatrix)
      modifies mtx
      requires Valid() && other.Valid()
      requires ReadsInside(other.mtx.Value(), mtx.rows, mtx.cols)
      ensures Valid() && mtx.rows == old(mtx.rows) && mtx.cols == old(mtx.cols)
      ensures mtx.Value() == Sum(old(mtx.Value()), ReadBlock(old(other.mtx.Value()), mtx.rows, mtx.cols))
      ensures old(other.mtx.rows) == mtx.rows && old(other.mtx.cols) == mtx.cols ==>
        mtx.Value() == Sum(old(mtx.Value()), old(other.mtx.Value()))
    {
      var m, addend := mtx.mtx, other.mtx.mtx;
      ghost var a, b := mtx.Value(), other.mtx.Value();
      ghost var target := Combined(a, b, false);
      var rows, cols, stride := mtx.rows, mtx.cols, other.mtx.cols;
      var i: nat, base: nat, row: nat := 0, 0, 0;
      while i < rows
        modifies {}
        invariant i <= rows && base == i * cols && row == i * stride
        invariant UpdatedUpTo(m, target, a.elems, base)
      {
        m := CombineRow(m, addend, base, row, cols, false, a, b, i);
        NextRowStart(i, cols);
        NextRowStart(i, stride);
        i, base, row := i + 1, base + cols, row + stride;
      }
      assert m == m[..base] == target;
      mtx.mtx := m;
      ReadBlockWhole(b);
    }

    /** operator-=: subtracts other.mtx(i, j) from entry (i, j), under the same unchecked
        reads as operator+=. */
    method SubAssign(other: MathematicalDynamicMatrix)
      modifies mtx
      requires Valid() && other.Valid()
      requires ReadsInside(other.mtx.Value(), mtx.rows, mtx.cols)
      ensures Valid() && mtx.rows == old(mtx.rows) && mtx.cols == old(mtx.cols)
      ensures mtx.Value() == Difference(old(mtx.Value()), ReadBlock(old(other.mtx.Value()), mtx.rows, mtx.cols))
      ensures old(other.mtx.rows) == mtx.rows && old(other.mtx.cols) == mtx.cols ==>
        mtx.Value() == Difference(old(mtx.Value()), old(other.mtx.Value()))
    {
      var m, subtrahend := mtx.mtx, other.mtx.mtx;
      ghost var a, b := mtx.Value(), other.mtx.Value();
      ghost var target := Combined(a, b, true);
      var rows, cols, stride := mtx.rows, mtx.cols, other.mtx.cols;
      var i: nat, base: nat, row: nat := 0, 0, 0;
      while i < rows
        modifies {}
        invariant i <= rows && base == i * cols && row == i * stride
        invariant UpdatedUpTo(m, target, a.elems, base)
      {
        m := CombineRow(m, subtrahend, base, row, cols, true, a, b, i);
        NextRowStart(i, cols);
        NextRowStart(i, stride);
        i, base, row := i + 1, base + cols, row + stride;
      }
      assert m == m[..base] == target;
      mtx.mtx := m;
      ReadBlockWhole(b);
    }

    /** operator*=(scale): every element multiplied by scale, by one pass over the
        elements. */
    method ScaleAssign(scale: int)
      modifies mtx
      requires Valid()
      ensures Valid() && mtx.rows == old(mtx.rows) && mtx.cols == old(mtx.cols)
      ensures mtx.Value() == MatrixMath.Scale(old(mtx.Value()), scale)
    {
      var m := mtx.mtx;
      ghost var orig := m;
      ghost var target := MatrixMath.Scale(mtx.Value(), scale).elems;
      var t := 0;
      while t < |m|
        modifies {}
        invariant t <= |m| && UpdatedUpTo(m, target, orig, t)
      {
        UpdateNext(m, target, orig, t);
        m := m[t := m[t] * scale];
        t := t + 1;
      }
      assert m == m[..t] == target;
      mtx.mtx := m;
    }

    /** operator*(scale): a scaled copy; this matrix is left as it was. */
    method Scaled(scale: int) returns (r: MathematicalDynamicMatrix)
      requires Valid()
      ensures fresh(r) && fresh(r.mtx) && r.Valid()
      ensures r.mtx.Value() == MatrixMath.Scale(mtx.Value(), scale)
    {
      r := new MathematicalDynamicMatrix.Copy(this);
      r.ScaleAssign(scale);
    }

    /** operator+(other): matrix_sum of the two wrapped matrices. */
    method Plus(other: MathematicalDynamicMatrix) returns (r: Result<MathematicalDynamicMatrix>)
      requires Valid() && other.Valid()
      ensures r.Failure? <==> mtx.rows != other.mtx.rows || mtx.cols != other.mtx.cols
      ensures r.Failure? ==> r.error == InvalidArgument
      ensures r.Success? ==> fresh(r.value) && fresh(r.value.mtx)
      ensures r.Success? ==> r.value.Valid() && r.value.mtx.Value() == Sum(mtx.Value(), other.mtx.Value())
    {
      var s := DM.MatrixSum(mtx.Value(), other.mtx.Value());
      if s.Failure? {
        r := Failure(s.error);
      } else {
        var w := new MathematicalDynamicMatrix.Wrap(s.value);
        r := Success(w);
      }
    }

    /** operator-(other): matrix_difference of the two wrapped matrices. */
    method Minus(other: MathematicalDynamicMatrix) returns (r: Result<MathematicalDynamicMatrix>)
      requires Valid() && other.Valid()
      ensures r.Failure? <==> mtx.rows != other.mtx.rows || mtx.cols != other.mtx.cols
      ensures r.Failure? ==> r.error == InvalidArgument
      ensures r.Success? ==> fresh(r.value) && fresh(r.value.mtx)
      ensures r.Success? ==> r.value.Valid() && r.value.mtx.Value() == Difference(mtx.Value(), other.mtx.Value())
    {
      var s := DM.MatrixDifference(mtx.Value(), other.mtx.Value());
      if s.Failure? {
        r := Failure(s.error);
      } else {
        var w := new MathematicalDynamicMatrix.Wrap(s.value);
        r := Success(w);
      }
    }

    /** operator*(other): matrix_product of the two wrapped matrices. */
    method Times(other: MathematicalDynamicMatrix) returns (r: Result<MathematicalDynamicMatrix>)
      requires Valid() && other.Valid()
      ensures r.Failure? <==> mtx.cols != other.mtx.rows
      ensures r.Failure? ==> r.error == InvalidArgument
      ensures r.Success? ==> fresh(r.value) && fresh(r.value.mtx)
      ensures r.Success? ==> r.value.Valid() && r.value.mtx.Value() == Product(mtx.Value(), other.mtx.Value())
    {
      var s := DM.MatrixProduct(mtx.Value(), other.mtx.Value());
      if s.Failure? {
        r := Failure(s.error);
      } else {
        var w := new MathematicalDynamicMatrix.Wrap(s.value);
        r := Success(w);
      }
    }

    /** trace(): matrix_trace of the wrapped matrix. */
    method Trace() returns (r: Result<int>)
      requires Valid()
      ensures mtx.rows != mtx.cols ==> r == Failure(InvalidArgument)
      ensures mtx.rows == mtx.cols ==> r == Success(MatrixMath.Trace(mtx.Value()))
    {
      r := DM.MatrixTrace(mtx.Value());
    }

    /** operator==: the wrapped matrices compare equal, which is exactly equality of
        dimensions and elements. */
    function Equals(other: MathematicalDynamicMatrix): (b: bool)
      reads this, mtx, other, other.mtx
      requires Valid() && other.Valid()
      ensures b <==> mtx.Value() == other.mtx.Value()
    {
      mtx.Equals(other.mtx)
    }

    /** swap(other): exchange the wrapped matrices' storage and dimensions. */
    method Swap(other: MathematicalDynamicMatrix)
      modifies mtx, other.mtx
      ensures mtx.mtx == old(other.mtx.mtx) && mtx.rows == old(other.mtx.rows) && mtx.cols == old(other.mtx.cols)
      ensures other.mtx.mtx == old(mtx.mtx) && other.mtx.rows == old(mtx.rows) && other.mtx.cols == old(mtx.cols)
    {
      mtx.Swap(other.mtx);
    }
  }

  /** make_identity_matrix(rows, columns): logic_error unless rows == columns, else the
      identity, built as dynamic_matrix's make_identity_matrix builds it. */
  method MakeIdentityMatrix(r: nat, c: nat) returns (res: Result<MathematicalDynamicMatrix>)
    ensures res.Failure? <==> r != c
    ensures res.Failure? ==> res.error == LogicError
    ensures res.Success? ==> fresh(res.value) && fresh(res.value.mtx)
    ensures res.Success? ==> res.value.Valid() && res.value.mtx.Value() == Identity(r)
  {
    var m := DM.MakeIdentity(r, c);
    if m.Failure? {
      res := Failure(m.error);
    } else {
      var w := new MathematicalDynamicMatrix.Wrap(m.value);
      res := Success(w);
    }
  }
}
