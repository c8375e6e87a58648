/** crsc::dynamic_r3_tensor (dynamic_r3_tensor.h): a rank-3 tensor of rows x columns x
    slices elements held in one flat vector, with its three dimensions as fields. */
module DynamicR3Tensor {
  import opened Outcomes
  import opened MatrixMath

  /** The flat position at(i, j, k) reads, as written: (k * rows + j) * cols + i. */
  function OffsetAsWritten(rows: nat, cols: nat, i: nat, j: nat, k: nat): nat {
    (k * rows + j) * cols + i
  }

  /** The slice-major, then row-major, position of element (i, j, k):
      (k * rows + i) * cols + j. */
  function Offset(rows: nat, cols: nat, i: nat, j: nat, k: nat): nat {
    (k * rows + i) * cols + j
  }

  /** Every in-range index triple has its position inside the rows * cols * slices
      elements. */
  lemma OffsetInRange(rows: nat, cols: nat, slices: nat, i: nat, j: nat, k: nat)
    requires i < rows && j < cols && k < slices
    ensures Offset(rows, cols, i, j, k) < rows * cols * slices
  {
    RowStartAfterRow(k, slices, rows);
    RowStartAfterRow(k * rows + i, slices * rows, cols);
    assert slices * rows * cols == rows * cols * slices;
  }

  /** Distinct in-range index triples have distinct positions. */
  lemma OffsetInjective(rows: nat, cols: nat, i: nat, j: nat, k: nat, i2: nat, j2: nat, k2: nat)
    requires i < rows && j < cols && i2 < rows && j2 < cols
    requires Offset(rows, cols, i, j, k) == Offset(rows, cols, i2, j2, k2)
    ensures i == i2 && j == j2 && k == k2
  {
    FlatIndexInjective(k * rows + i, j, k2 * rows + i2, j2, cols);
    FlatIndexInjective(k, i, k2, i2, rows);
  }

  /** For a cube-faced tensor (rows == columns) the written position of (i, j, k) is the
      position of (j, i, k): each slice is stored transposed, so positions still stay in
      range and do not collide. */
  lemma OffsetAsWrittenSquare(n: nat, i: nat, j: nat, k: nat)
    ensures OffsetAsWritten(n, n, i, j, k) == Offset(n, n, j, i, k)
  {
  }

  /** at(i, j, k) as written, on the flat vector t of a rows x cols x slices tensor:
      out_of_range when an index is out of range, and again from vector::at when the
      written position lies past the end; otherwise the element there. */
  function AtAsWritten(t: seq<int>, rows: nat, cols: nat, slices: nat, i: nat, j: nat, k: nat): (r: Result<int>)
    ensures r.Failure? <==> i >= rows || j >= cols || k >= slices || OffsetAsWritten(rows, cols, i, j, k) >= |t|
    ensures r.Failure? ==> r.error == OutOfRange
    ensures r.Success? ==> r.value == t[OffsetAsWritten(rows, cols, i, j, k)]
  {
    if i >= rows || j >= cols || k >= slices then Failure(OutOfRange)
    else if OffsetAsWritten(rows, cols, i, j, k) >= |t| then Failure(OutOfRange)
    else Success(t[OffsetAsWritten(rows, cols, i, j, k)])
  }

  /** On a 1 x 3 x 1 tensor, at(0, 2, 0) names an element but its written position 6 lies
      past the three elements, so it throws. */
  lemma AtAsWrittenEscapes()
    ensures AtAsWritten([0, 0, 0], 1, 3, 1, 0, 2, 0) == Failure(OutOfRange)
  {
    assert OffsetAsWritten(1, 3, 0, 2, 0) == 6;
  }

  /** On a 3 x 2 x 1 tensor, at(2, 0, 0) and at(0, 1, 0) are written at the same position
      2, so they read (and, through the returned reference, write) the same element. */
  lemma AtAsWrittenAliases(t: seq<int>)
    requires |t| == 6
    ensures AtAsWritten(t, 3, 2, 1, 2, 0, 0) == AtAsWritten(t, 3, 2, 1, 0, 1, 0) == Success(t[2])
  {
    var p, q := OffsetAsWritten(3, 2, 2, 0, 0), OffsetAsWritten(3, 2, 0, 1, 0);
    assert p == 2 && q == 2;
    assert AtAsWritten(t, 3, 2, 1, 2, 0, 0) == Success(t[p]);
    assert AtAsWritten(t, 3, 2, 1, 0, 1, 0) == Success(t[q]);
  }

  /** On a cube-faced tensor the written accessor never throws for in-range indices. */
  lemma AtAsWrittenSquareInRange(t: seq<int>, n: nat, slices: nat, i: nat, j: nat, k: nat)
    requires |t| == n * n * slices && i < n && j < n && k < slices
    ensures AtAsWritten(t, n, n, slices, i, j, k).Success?
  {
    OffsetAsWrittenSquare(n, i, j, k);
    OffsetInRange(n, n, slices, j, i, k);
  }

  /** at(i, j, k) with the position (k * rows + i) * cols + j: out_of_range exactly when an
      index is out of range, since the position of an in-range triple is always inside. */
  function CorrectedAt(t: seq<int>, rows: nat, cols: nat, slices: nat, i: nat, j: nat, k: nat): (r: Result<int>)
    requires |t| == rows * cols * slices
    ensures r.Failure? <==> i >= rows || j >= cols || k >= slices
    ensures r.Failure? ==> r.error == OutOfRange
    ensures r.Success? ==> Offset(rows, cols, i, j, k) < |t| && r.value == t[Offset(rows, cols, i, j, k)]
  {
    if i >= rows || j >= cols || k >= slices then Failure(OutOfRange)
    else
      OffsetInRange(rows, cols, slices, i, j, k);
      Success(t[Offset(rows, cols, i, j, k)])
  }

  /** With a single column the written and the row-major positions coincide (j can only be
      0), so on such a tensor the accessor as written behaves exactly like the corrected one:
      the defect shows only when cols >= 2 and rows != cols. */
  lemma AtAsWrittenSingleColumn(t: seq<int>, rows: nat, slices: nat, i: nat, j: nat, k: nat)
    requires |t| == rows * 1 * slices
    ensures AtAsWritten(t, rows, 1, slices, i, j, k) == CorrectedAt(t, rows, 1, slices, i, j, k)
  {
    if i < rows && j < 1 && k < slices {
      assert OffsetAsWritten(rows, 1, i, j, k) == Offset(rows, 1, i, j, k);
      OffsetInRange(rows, 1, slices, i, j, k);
    }
  }

  class DynamicR3Tensor {
    /** The std::vector tnsr. */
    var tnsr: seq<int>
    var rows: nat
    var cols: nat
    var slices: nat

    /** size() == rows() * columns() * slices(). */
    ghost predicate Valid()
      reads this
    {
      |tnsr| == rows * cols * slices
    }

    /** The default constructor: an empty 0 x 0 x 0 tensor. */
    constructor ()
      ensures Valid() && tnsr == [] && rows == 0 && cols == 0 && slices == 0
    {
      tnsr, rows, cols, slices := [], 0, 0, 0;
    }

    /** dynamic_r3_tensor(r, c, s): r * c * s value-initialised (zero) elements. */
    constructor Sized(r: nat, c: nat, s: nat)
      ensures Valid() && rows == r && cols == c && slices == s
      ensures forall t :: 0 <= t < |tnsr| ==> tnsr[t] == 0
    {
      tnsr := seq(r * c * s, _ => 0);
      rows, cols, slices := r, c, s;
    }

    /** dynamic_r3_tensor(r, c, s, val): r * c * s copies of val. */
    constructor Filled(r: nat, c: nat, s: nat, val: int)
      ensures Valid() && rows == r && cols == c && slices == s
      ensures forall t :: 0 <= t < |tnsr| ==> tnsr[t] == val
    {
      tnsr := seq(r * c * s, _ => val);
      rows, cols, slices := r, c, s;
    }

    /** The copy constructor. */
    constructor Copy(other: DynamicR3Tensor)
      ensures tnsr == other.tnsr && rows == other.rows && cols == other.cols && slices == other.slices
    {
      tnsr, rows, cols, slices := other.tnsr, other.rows, other.cols, other.slices;
    }

    /** at(i, j, k), as written (see AtAsWritten): out_of_range for an out-of-range index
        and for a written position past the end. */
    function At(i: nat, j: nat, k: nat): (r: Result<int>)
      reads this
      ensures r == AtAsWritten(tnsr, rows, cols, slices, i, j, k)
      ensures r.Failure? <==> i >= rows || j >= cols || k >= slices || OffsetAsWritten(rows, cols, i, j, k) >= |tnsr|
      ensures r.Success? ==> r.value == tnsr[OffsetAsWritten(rows, cols, i, j, k)]
    {
      AtAsWritten(tnsr, rows, cols, slices, i, j, k)
    }

    /** clear(): no elements and all three dimensions 0. */
    method Clear()
      modifies this
      ensures Valid() && tnsr == [] && rows == 0 && cols == 0 && slices == 0
    {
      tnsr, rows, cols, slices := [], 0, 0, 0;
    }

    /** fill(val): std::fill over the whole vector; the dimensions are unchanged. */
    method Fill(val: int)
      modifies this
      ensures rows == old(rows) && cols == old(cols) && slices == old(slices)
      ensures |tnsr| == old(|tnsr|) && forall t :: 0 <= t < |tnsr| ==> tnsr[t] == val
    {
      tnsr := seq(|tnsr|, _ => val);
    }

    /** swap(other): the vectors and all three dimensions are exchanged. */
    method Swap(other: DynamicR3Tensor)
      modifies this, other
      ensures tnsr == old(other.tnsr) && other.tnsr == old(tnsr)
      ensures rows == old(other.rows) && other.rows == old(rows)
      ensures cols == old(other.cols) && other.cols == old(cols)
      ensures slices == old(other.slices) && other.slices == old(slices)
    {
      tnsr, other.tnsr := other.tnsr, tnsr;
      rows, other.rows := other.rows, rows;
      cols, other.cols := other.cols, cols;
      slices, other.slices := other.slices, slices;
    }
  }
}
