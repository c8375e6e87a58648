/** crsc::dynamic_matrix (dynamic_matrix.h): a matrix whose elements are kept row-major in
    one vector, mtx, next to the two dimensions rows_ and cols_.  The class invariant is that
    there are no holes: mtx holds exactly rows_ * cols_ elements.  Every modifier is stated
    on the grid of rows the flat vector represents. */
module DynamicMatrix {
  import opened Outcomes
  import opened MatrixMath

  class DynamicMatrix {
    /** The row-major element vector. */
    var mtx: seq<int>
    /** rows_ and cols_. */
    var rows: nat
    var cols: nat

    /** No holes: size() == rows() * columns(). */
    ghost predicate Valid()
      reads this
    {
      |mtx| == rows * cols
    }

    /** The rows the flat vector represents. */
    ghost function Grid(): (g: seq<seq<int>>)
      reads this
      requires Valid()
      ensures |g| == rows && Rectangular(g, cols)
    {
      ToGrid(mtx, rows, cols)
    }

    /** The matrix as a value, for the free functions. */
    function Value(): (a: Matrix)
      reads this
      requires Valid()
      ensures WellFormed(a) && a.rows == rows && a.cols == cols && a.elems == mtx
    {
      Matrix(rows, cols, mtx)
    }

    /** The default constructor: an empty 0 x 0 matrix. */
    constructor ()
      ensures Valid() && rows == 0 && cols == 0 && mtx == []
    {
      mtx, rows, cols := [], 0, 0;
    }

    /** The sized constructors: rows x cols copies of val (the overload without a value uses
        the default, 0). */
    constructor Filled(r: nat, c: nat, val: int)
      ensures Valid() && rows == r && cols == c
      ensures forall i, j :: 0 <= i < r && 0 <= j < c ==> Grid()[i][j] == val
    {
      mtx, rows, cols := seq(r * c, _ => val), r, c;
      new;
      forall i, j | 0 <= i < r && 0 <= j < c ensures Grid()[i][j] == val {
        GridEntry(mtx, r, c, i, j);
      }
    }

    /** The copy constructor, taking the copied matrix as a value. */
    constructor FromValue(a: Matrix)
      requires WellFormed(a)
      ensures Valid() && Value() == a
    {
      mtx, rows, cols := a.elems, a.rows, a.cols;
    }

    /** The constructor from a two-dimensional C array: start from defaults, then copy
        element (i, j) to flat index i * cols + j. */
    constructor FromArray(arr: seq<seq<int>>, r: nat, c: nat)
      requires |arr| >= r && forall i :: 0 <= i < r ==> |arr[i]| >= c
      ensures Valid() && rows == r && cols == c
      ensures Grid() == TopLeft(arr, r, c)
    {
      ghost var target := Flatten(TopLeft(arr, r, c));
      FlattenLength(TopLeft(arr, r, c), c);
      var m := seq(r * c, _ => 0);
      var i := 0;
      ghost var base: nat := 0;
      while i < r
        invariant i <= r && |m| == r * c && base == i * c && FilledUpTo(m, target, base)
      {
        var j := 0;
        while j < c
          invariant j <= c && |m| == r * c && FilledUpTo(m, target, base + j)
        {
          TopLeftElement(arr, r, c, i, j);
          FillNext(m, target, base + j);
          m := m[i * c + j := arr[i][j]];
          j := j + 1;
        }
        NextRowStart(i, c);
        i, base := i + 1, base + c;
      }
      assert m == m[..base] == target;
      ToGridOfFlatten(TopLeft(arr, r, c), c);
      mtx, rows, cols := m, r, c;
    }

    /** The initializer-list constructor: rows_ is the number of inner lists, cols_ the
        length of the first, and the lists are appended in order.  An empty list and lists of
        different lengths are undefined behaviour in the source. */
    constructor FromRows(list: seq<seq<int>>)
      requires list != [] && Rectangular(list, |list[0]|)
      ensures Valid() && rows == |list| && cols == |list[0]|
      ensures Grid() == list
    {
      var m: seq<int> := [];
      var k := 0;
      while k < |list|
        invariant k <= |list| && m == Flatten(list[..k])
      {
        assert list[..k + 1] == list[..k] + [list[k]];
        FlattenAppend(list[..k], [list[k]]);
        assert Flatten([list[k]]) == list[k];
        m := m + list[k];
        k := k + 1;
      }
      assert list[..|list|] == list;
      ToGridOfFlatten(list, |list[0]|);
      mtx, rows, cols := m, |list|, |list[0]|;
    }

    /** at(i, j): out_of_range exactly when an index is out of range, else element (i, j). */
    function At(i: nat, j: nat): (r: Result<int>)
      reads this
      requires Valid()
      ensures r.Failure? <==> i >= rows || j >= cols
      ensures r.Failure? ==> r.error == OutOfRange
      ensures r.Success? ==> r.value == Grid()[i][j]
    {
      if i >= rows || j >= cols then Failure(OutOfRange)
      else
        GridEntry(mtx, rows, cols, i, j);
        Success(mtx[i * cols + j])
    }

    /** operator()(i, j) and the row proxy's operator[]: the same access, unchecked. */
    function Get(i: nat, j: nat): (v: int)
      reads this
      requires Valid() && i < rows && j < cols
      ensures v == Grid()[i][j]
    {
      GridEntry(mtx, rows, cols, i, j);
      mtx[i * cols + j]
    }

    /** clear(): no elements, no rows, no columns. */
    method Clear()
      modifies this
      ensures Valid() && rows == 0 && cols == 0 && mtx == []
    {
      mtx, rows, cols := [], 0, 0;
    }

    /** insert_row(pos, vec), the copy overload: out_of_range when pos > rows(),
        invalid_argument when vec does not have columns() elements, else vec becomes row pos
        and the later rows move down one. */
    method InsertRow(pos: nat, vec: seq<int>) returns (st: Status)
      modifies this
      requires Valid()
      ensures Valid()
      ensures st == (if pos > old(rows) then Thrown(OutOfRange)
                     else if |vec| != old(cols) then Thrown(InvalidArgument) else Ok)
      ensures st != Ok ==> unchanged(this)
      ensures st == Ok ==> (rows == old(rows) + 1 && cols == old(cols) &&
        Grid() == old(Grid())[..pos] + [vec] + old(Grid())[pos..])
    {
      if pos > rows {
        return Thrown(OutOfRange);
      }
      if |vec| != cols {
        return Thrown(InvalidArgument);
      }
      ghost var g := Grid();
      FlattenInsertRow(g, cols, pos, vec);
      ToGridOfFlatten(g[..pos] + [vec] + g[pos..], cols);
      rows := rows + 1;
      mtx := mtx[..pos * cols] + vec + mtx[pos * cols..];
      st := Ok;
    }

    /** insert_row(pos, vec), the move overload: a short vec is padded with defaults (0), a
        long one is refused with invalid_argument. */
    method InsertRowPadded(pos: nat, vec: seq<int>) returns (st: Status)
      modifies this
      requires Valid()
      ensures Valid()
      ensures st == (if pos > old(rows) then Thrown(OutOfRange)
                     else if |vec| > old(cols) then Thrown(InvalidArgument) else Ok)
      ensures st != Ok ==> unchanged(this)
      ensures st == Ok ==> (rows == old(rows) + 1 && cols == old(cols) &&
        Grid() == old(Grid())[..pos] + [vec + seq(old(cols) - |vec|, _ => 0)] + old(Grid())[pos..])
    {
      if pos > rows {
        return Thrown(OutOfRange);
      }
      if |vec| > cols {
        return Thrown(InvalidArgument);
      }
      st := InsertRow(pos, vec + seq(cols - |vec|, _ => 0));
    }

    /** insert_row(pos, val): a row of columns() copies of val. */
    method InsertRowFilled(pos: nat, val: int) returns (st: Status)
      modifies this
      requires Valid()
      ensures Valid()
      ensures st == (if pos > old(rows) then Thrown(OutOfRange) else Ok)
      ensures st != Ok ==> unchanged(this)
      ensures st == Ok ==> (rows == old(rows) + 1 && cols == old(cols) &&
        Grid() == old(Grid())[..pos] + [seq(old(cols), _ => val)] + old(Grid())[pos..])
    {
      assert seq(cols, _ => val) + seq(0, _ => 0) == seq(cols, _ => val);
      st := InsertRowPadded(pos, seq(cols, _ => val));
    }

    /** insert_column(pos, vec), the copy overload: out_of_range when pos > columns(),
        invalid_argument when vec does not have rows() elements, else vec[i] is inserted in
        row i before column pos, at flat index i * (cols + 1) + pos. */
    method InsertColumn(pos: nat, vec: seq<int>) returns (st: Status)
      modifies this
      requires Valid()
      ensures Valid()
      ensures st == (if pos > old(cols) then Thrown(OutOfRange)
                     else if |vec| != old(rows) then Thrown(InvalidArgument) else Ok)
      ensures st != Ok ==> unchanged(this)
      ensures st == Ok ==> (rows == old(rows) && cols == old(cols) + 1 &&
        Grid() == InsertColumnAt(old(Grid()), pos, vec))
    {
      if pos > cols {
        return Thrown(OutOfRange);
      }
      if |vec| != rows {
        return Thrown(InvalidArgument);
      }
      ghost var g := Grid();
      mtx := InsertColumnLoop(mtx, cols, pos, vec, g);
      InsertColumnLayout(g, cols, pos, vec);
      cols := cols + 1;
      st := Ok;
    }

    /** insert_column(pos, vec), the move overload: a short vec is padded with defaults (0),
        a long one is refused with invalid_argument. */
    method InsertColumnPadded(pos: nat, vec: seq<int>) returns (st: Status)
      modifies this
      requires Valid()
      ensures Valid()
      ensures st == (if pos > old(cols) then Thrown(OutOfRange)
                     else if |vec| > old(rows) then Thrown(InvalidArgument) else Ok)
      ensures st != Ok ==> unchanged(this)
      ensures st == Ok ==> (rows == old(rows) && cols == old(cols) + 1 &&
        Grid() == InsertColumnAt(old(Grid()), pos, vec + seq(old(rows) - |vec|, _ => 0)))
    {
      if pos > cols {
        return Thrown(OutOfRange);
      }
      if |vec| > rows {
        return Thrown(InvalidArgument);
      }
      st := InsertColumn(pos, vec + seq(rows - |vec|, _ => 0));
    }

    /** insert_column(pos, val): a column of rows() copies of val. */
    method InsertColumnFilled(pos: nat, val: int) returns (st: Status)
      modifies this
      requires Valid()
      ensures Valid()
      ensures st == (if pos > old(cols) then Thrown(OutOfRange) else Ok)
      ensures st != Ok ==> unchanged(this)
      ensures st == Ok ==> (rows == old(rows) && cols == old(cols) + 1 &&
        Grid() == InsertColumnAt(old(Grid()), pos, seq(old(rows), _ => val)))
    {
      assert seq(rows, _ => val) + seq(0, _ => 0) == seq(rows, _ => val);
      st := InsertColumnPadded(pos, seq(rows, _ => val));
    }

    /** erase_row(pos): out_of_range unless pos < rows(), else row pos is removed by
        erasing flat range [pos * cols, (pos + 1) * cols). */
    method EraseRow(pos: nat) returns (st: Status)
      modifies this
      requires Valid()
      ensures Valid()
      ensures st == (if pos >= old(rows) then Thrown(OutOfRange) else Ok)
      ensures st != Ok ==> unchanged(this)
      ensures st == Ok ==> (rows == old(rows) - 1 && cols == old(cols) &&
        Grid() == old(Grid())[..pos] + old(Grid())[pos + 1..])
    {
      if pos >= rows {
        return Thrown(OutOfRange);
      }
      ghost var g := Grid();
      FlattenEraseRow(g, cols, pos);
      ToGridOfFlatten(g[..pos] + g[pos + 1..], cols);
      rows := rows - 1;
      mtx := mtx[..pos * cols] + mtx[(pos + 1) * cols..];
      st := Ok;
    }

    /** erase_column(pos): out_of_range unless pos < columns(), else the element of row i
        at column pos is erased, at flat index i * (cols - 1) + pos. */
    method EraseColumn(pos: nat) returns (st: Status)
      modifies this
      requires Valid()
      ensures Valid()
      ensures st == (if pos >= old(cols) then Thrown(OutOfRange) else Ok)
      ensures st != Ok ==> unchanged(this)
      ensures st == Ok ==> (rows == old(rows) && cols == old(cols) - 1 &&
        Grid() == EraseColumnAt(old(Grid()), pos))
    {
      if pos >= cols {
        return Thrown(OutOfRange);
      }
      ghost var g := Grid();
      mtx := EraseColumnLoop(mtx, rows, cols, pos, g);
      EraseColumnLayout(g, cols, pos);
      cols := cols - 1;
      st := Ok;
    }

    /** fill(val): every element becomes val. */
    method Fill(val: int)
      modifies this
      requires Valid()
      ensures Valid() && rows == old(rows) && cols == old(cols)
      ensures forall i, j :: 0 <= i < rows && 0 <= j < cols ==> Grid()[i][j] == val
    {
      mtx := seq(|mtx|, _ => val);
      forall i, j | 0 <= i < rows && 0 <= j < cols ensures Grid()[i][j] == val {
        GridEntry(mtx, rows, cols, i, j);
      }
    }

    /** The push_back loop shared by the push_row overloads: appends row, then one more
        row. */
    method AppendRow(row: seq<int>)
      modifies this
      requires Valid() && |row| == cols
      ensures Valid() && rows == old(rows) + 1 && cols == old(cols)
      ensures Grid() == old(Grid()) + [row]
    {
      ghost var g := Grid();
      var k := 0;
      while k < |row|
        invariant k <= |row| && mtx == old(mtx) + row[..k]
        invariant rows == old(rows) && cols == old(cols)
      {
        assert row[..k + 1] == row[..k] + [row[k]];
        mtx := mtx + [row[k]];
        k := k + 1;
      }
      assert row[..|row|] == row;
      FlattenAppend(g, [row]);
      assert Flatten([row]) == row;
      ToGridOfFlatten(g + [row], cols);
      rows := rows + 1;
    }

    /** push_row(val): a new last row of columns() copies of val. */
    method PushRowFilled(val: int)
      modifies this
      requires Valid()
      ensures Valid() && rows == old(rows) + 1 && cols == old(cols)
      ensures Grid() == old(Grid()) + [seq(old(cols), _ => val)]
    {
      AppendRow(seq(cols, _ => val));
    }

    /** push_row(vec), the copy overload: invalid_argument unless vec has columns()
        elements, else vec becomes the new last row. */
    method PushRow(vec: seq<int>) returns (st: Status)
      modifies this
      requires Valid()
      ensures Valid()
      ensures st == (if |vec| != old(cols) then Thrown(InvalidArgument) else Ok)
      ensures st != Ok ==> unchanged(this)
      ensures st == Ok ==> rows == old(rows) + 1 && cols == old(cols) && Grid() == old(Grid()) + [vec]
    {
      if |vec| != cols {
        return Thrown(InvalidArgument);
      }
      AppendRow(vec);
      st := Ok;
    }

    /** push_row(vec), the move overload: a short vec is padded with defaults (0), a long
        one is refused with invalid_argument. */
    method PushRowPadded(vec: seq<int>) returns (st: Status)
      modifies this
      requires Valid()
      ensures Valid()
      ensures st == (if |vec| > old(cols) then Thrown(InvalidArgument) else Ok)
      ensures st != Ok ==> unchanged(this)
      ensures st == Ok ==> (rows == old(rows) + 1 && cols == old(cols) &&
        Grid() == old(Grid()) + [vec + seq(old(cols) - |vec|, _ => 0)])
    {
      if |vec| > cols {
        return Thrown(InvalidArgument);
      }
      AppendRow(vec + seq(cols - |vec|, _ => 0));
      st := Ok;
    }

    /** push_column(val): insert_column(columns(), val). */
    method PushColumnFilled(val: int)
      modifies this
      requires Valid()
      ensures Valid() && rows == old(rows) && cols == old(cols) + 1
      ensures Grid() == InsertColumnAt(old(Grid()), old(cols), seq(old(rows), _ => val))
    {
      var _ := InsertColumnFilled(cols, val);
    }

    /** push_column(vec), the copy overload: insert_column(columns(), vec). */
    method PushColumn(vec: seq<int>) returns (st: Status)
      modifies this
      requires Valid()
      ensures Valid()
      ensures st == (if |vec| != old(rows) then Thrown(InvalidArgument) else Ok)
      ensures st != Ok ==> unchanged(this)
      ensures st == Ok ==> (rows == old(rows) && cols == old(cols) + 1 &&
        Grid() == InsertColumnAt(old(Grid()), old(cols), vec))
    {
      st := InsertColumn(cols, vec);
    }

    /** push_column(vec), the move overload: insert_column(columns(), vec) with padding. */
    method PushColumnPadded(vec: seq<int>) returns (st: Status)
      modifies this
      requires Valid()
      ensures Valid()
      ensures st == (if |vec| > old(rows) then Thrown(InvalidArgument) else Ok)
      ensures st != Ok ==> unchanged(this)
      ensures st == Ok ==> (rows == old(rows) && cols == old(cols) + 1 &&
        Grid() == InsertColumnAt(old(Grid()), old(cols), vec + seq(old(rows) - |vec|, _ => 0)))
    {
      st := InsertColumnPadded(cols, vec);
    }

    /** pop_row(): pop_back columns() times and drop a row; defined for rows() > 0. */
    method PopRow()
      modifies this
      requires Valid() && rows > 0
      ensures Valid() && rows == old(rows) - 1 && cols == old(cols)
      ensures Grid() == old(Grid())[..old(rows) - 1]
    {
      ghost var g := Grid();
      var i := 0;
      while i < cols
        invariant i <= cols && rows == old(rows) && cols == old(cols)
        invariant |old(mtx)| >= i && mtx == old(mtx)[..|old(mtx)| - i]
      {
        mtx := mtx[..|mtx| - 1];
        i := i + 1;
      }
      FlattenSplit(g, cols, rows - 1);
      NextRowStart(rows - 1, cols);
      ToGridOfFlatten(g[..rows - 1], cols);
      rows := rows - 1;
    }

    /** pop_column(): erase_column(columns() - 1).  On a matrix with no columns the index
        wraps to the largest size_type and erase_column throws out_of_range. */
    method PopColumn() returns (st: Status)
      modifies this
      requires Valid()
      ensures Valid()
      ensures st == (if old(cols) == 0 then Thrown(OutOfRange) else Ok)
      ensures st != Ok ==> unchanged(this)
      ensures st == Ok ==> (rows == old(rows) && cols == old(cols) - 1 &&
        Grid() == EraseColumnAt(old(Grid()), old(cols) - 1))
    {
      if cols == 0 {
        return Thrown(OutOfRange);
      }
      st := EraseColumn(cols - 1);
    }

    /** rows_resize(n, val): nothing when n == rows(); otherwise insert rows of val at the
        end, or pop rows from the end, until there are n.  The overload without a value uses
        the default, 0. */
    method RowsResize(n: nat, val: int)
      modifies this
      requires Valid()
      ensures Valid() && rows == n && cols == old(cols)
      ensures Grid() == ResizeRows(old(Grid()), n, old(cols), val)
      ensures n == old(rows) ==> unchanged(this)
    {
      ghost var g := Grid();
      var tmp := rows;
      ResizeRowsRoundTrip(g, tmp, cols, val);
      if n == rows {
        return;
      }
      if n > rows {
        var i := 0;
        while i < n - tmp
          invariant Valid() && i <= n - tmp && rows == tmp + i && cols == old(cols)
          invariant Grid() == ResizeRows(g, tmp + i, cols, val)
        {
          ghost var before := Grid();
          var _ := InsertRowFilled(rows, val);
          assert before[rows - 1..] == [];
          assert Grid() == ResizeRows(g, tmp + i + 1, cols, val);
          i := i + 1;
        }
      } else {
        var i := 0;
        while i < tmp - n
          invariant Valid() && i <= tmp - n && rows == tmp - i && cols == old(cols)
          invariant Grid() == ResizeRows(g, tmp - i, cols, val)
        {
          PopRow();
          i := i + 1;
        }
      }
    }

    /** columns_resize(n, val): nothing when n == columns(); otherwise insert columns of
        val at the end, or pop columns from the end, until there are n.  The overload without
        a value uses the default, 0. */
    method ColumnsResize(n: nat, val: int)
      modifies this
      requires Valid()
      ensures Valid() && rows == old(rows) && cols == n
      ensures Grid() == ResizeColumns(old(Grid()), n, val)
      ensures n == old(cols) ==> unchanged(this)
    {
      if n == cols {
        ResizeColumnsRoundTrip(Grid(), cols, cols, val);
        return;
      }
      if n > cols {
        AppendColumns(n, val);
      } else {
        PopColumns(n, val);
      }
    }

    /** columns_resize's growing loop: insert_column(columns(), val) until there are n. */
    method AppendColumns(n: nat, val: int)
      modifies this
      requires Valid() && cols <= n
      ensures Valid() && rows == old(rows) && cols == n
      ensures Grid() == ResizeColumns(old(Grid()), n, val)
    {
      ghost var g := Grid();
      var tmp := cols;
      ResizeColumnsRoundTrip(g, tmp, tmp, val);
      var i := 0;
      while i < n - tmp
        invariant Valid() && i <= n - tmp && cols == tmp + i && rows == old(rows)
        invariant Grid() == ResizeColumns(g, tmp + i, val)
      {
        ResizeColumnsGrowStep(g, tmp, tmp + i, val);
        var _ := InsertColumnFilled(cols, val);
        i := i + 1;
      }
    }

    /** columns_resize's shrinking loop: pop_column() until there are n. */
    method PopColumns(n: nat, val: int)
      modifies this
      requires Valid() && n <= cols
      ensures Valid() && rows == old(rows) && cols == n
      ensures Grid() == ResizeColumns(old(Grid()), n, val)
    {
      ghost var g := Grid();
      var tmp := cols;
      ResizeColumnsRoundTrip(g, tmp, tmp, val);
      var i := 0;
      while i < tmp - n
        invariant Valid() && i <= tmp - n && cols == tmp - i && rows == old(rows)
        invariant Grid() == ResizeColumns(g, tmp - i, val)
      {
        ResizeColumnsShrinkStep(g, tmp, tmp - i, val);
        var _ := PopColumn();
        i := i + 1;
      }
    }

    /** resize(r, c, val): rows_resize(r, val), then columns_resize(c, val). */
    method Resize(r: nat, c: nat, val: int)
      modifies this
      requires Valid()
      ensures Valid() && rows == r && cols == c
      ensures Grid() == ResizeColumns(ResizeRows(old(Grid()), r, old(cols), val), c, val)
    {
      RowsResize(r, val);
      ColumnsResize(c, val);
    }

    /** swap(other): exchange the storage and both dimensions. */
    method Swap(other: DynamicMatrix)
      modifies this, other
      ensures mtx == old(other.mtx) && rows == old(other.rows) && cols == old(other.cols)
      ensures other.mtx == old(mtx) && other.rows == old(rows) && other.cols == old(cols)
    {
      mtx, other.mtx := other.mtx, mtx;
      rows, other.rows := other.rows, rows;
      cols, other.cols := other.cols, cols;
    }

    /** submatrix(r, c): erase_row(r), then erase_column(c).  There is no strong guarantee:
        when c is out of range the row is already gone when out_of_range is thrown. */
    method Submatrix(r: nat, c: nat) returns (st: Status)
      modifies this
      requires Valid()
      ensures Valid()
      ensures st == (if r >= old(rows) || c >= old(cols) then Thrown(OutOfRange) else Ok)
      ensures r >= old(rows) ==> unchanged(this)
      ensures r < old(rows) && c >= old(cols) ==>
        rows == old(rows) - 1 && cols == old(cols) && Grid() == old(Grid())[..r] + old(Grid())[r + 1..]
      ensures st == Ok ==> (rows == old(rows) - 1 && cols == old(cols) - 1 &&
        Grid() == Minor(old(Grid()), r, c))
    {
      st := EraseRow(r);
      if st != Ok {
        return;
      }
      st := EraseColumn(c);
    }

    /** operator==: true for the same object, else true exactly when the dimensions agree
        and so does every element. */
    function Equals(other: DynamicMatrix): (b: bool)
      reads this, other
      requires Valid() && other.Valid()
      ensures b <==> (rows == other.rows && cols == other.cols &&
        forall i, j :: 0 <= i < rows && 0 <= j < cols ==> Grid()[i][j] == other.Grid()[i][j])
    {
      if this == other then true
      else if rows != other.rows || cols != other.cols then false
      else
        GridEntriesDetermine(mtx, other.mtx, rows, cols);
        assert Grid() == ToGrid(mtx, rows, cols) && other.Grid() == ToGrid(other.mtx, rows, cols);
        mtx == other.mtx
    }
  }

  /** insert_column's loop over the flat vector of the matrix whose rows are g: for each row
      i, col[i] is inserted at index i * (cols + 1) + pos. */
  method InsertColumnLoop(m: seq<int>, cols: nat, pos: nat, col: seq<int>, ghost g: seq<seq<int>>)
    returns (r: seq<int>)
    requires Rectangular(g, cols) && m == Flatten(g) && pos <= cols && |col| == |g|
    ensures r == Flatten(InsertColumnAt(g, pos, col))
  {
    ghost var ng := InsertColumnAt(g, pos, col);
    r := m;
    assert ng[..0] == [] && g[0..] == g;
    var i := 0;
    while i < |col|
      invariant i <= |col|
      invariant r == Flatten(ng[..i]) + Flatten(g[i..])
    {
      var at: int := i * (cols + 1) + pos;
      InsertColumnPass(g, cols, pos, col, i, at, r);
      r := r[..at] + [col[i]] + r[at..];
      i := i + 1;
    }
    assert ng[..|g|] == ng && g[|g|..] == [];
  }

  /** erase_column's loop over the flat vector of the matrix whose rows are g: for each row
      i, the element at index i * (cols - 1) + pos is erased. */
  method EraseColumnLoop(m: seq<int>, rows: nat, cols: nat, pos: nat, ghost g: seq<seq<int>>)
    returns (r: seq<int>)
    requires |g| == rows && Rectangular(g, cols) && m == Flatten(g) && pos < cols
    ensures r == Flatten(EraseColumnAt(g, pos))
  {
    ghost var ng := EraseColumnAt(g, pos);
    r := m;
    assert ng[..0] == [] && g[0..] == g;
    var i := 0;
    while i < rows
      invariant i <= rows
      invariant r == Flatten(ng[..i]) + Flatten(g[i..])
    {
      var at: int := i * (cols - 1) + pos;
      EraseColumnPass(g, cols, pos, i, at, r);
      r := r[..at] + r[at + 1..];
      i := i + 1;
    }
    assert ng[..|g|] == ng && g[|g|..] == [];
  }

  /** matrix_sum: invalid_argument unless the dimensions agree, else the element-wise sum,
      computed by one pass over the flat vectors. */
  method MatrixSum(lhs: Matrix, rhs: Matrix) returns (r: Result<Matrix>)
    requires WellFormed(lhs) && WellFormed(rhs)
    ensures lhs.rows != rhs.rows || lhs.cols != rhs.cols ==> r == Failure(InvalidArgument)
    ensures lhs.rows == rhs.rows && lhs.cols == rhs.cols ==> r == Success(Sum(lhs, rhs))
  {
    if lhs.rows != rhs.rows || lhs.cols != rhs.cols {
      return Failure(InvalidArgument);
    }
    var sum := seq(lhs.rows * lhs.cols, _ => 0);
    var t := 0;
    while t < |sum|
      invariant t <= |sum| == |lhs.elems|
      invariant forall s :: 0 <= s < t ==> sum[s] == lhs.elems[s] + rhs.elems[s]
    {
      sum := sum[t := lhs.elems[t] + rhs.elems[t]];
      t := t + 1;
    }
    assert sum == Sum(lhs, rhs).elems;
    r := Success(Matrix(lhs.rows, lhs.cols, sum));
  }

  /** matrix_difference: invalid_argument unless the dimensions agree, else the element-wise
      difference. */
  method MatrixDifference(lhs: Matrix, rhs: Matrix) returns (r: Result<Matrix>)
    requires WellFormed(lhs) && WellFormed(rhs)
    ensures lhs.rows != rhs.rows || lhs.cols != rhs.cols ==> r == Failure(InvalidArgument)
    ensures lhs.rows == rhs.rows && lhs.cols == rhs.cols ==> r == Success(Difference(lhs, rhs))
  {
    if lhs.rows != rhs.rows || lhs.cols != rhs.cols {
      return Failure(InvalidArgument);
    }
    var difference := seq(lhs.rows * lhs.cols, _ => 0);
    var t := 0;
    while t < |difference|
      invariant t <= |difference| == |lhs.elems|
      invariant forall s :: 0 <= s < t ==> difference[s] == lhs.elems[s] - rhs.elems[s]
    {
      difference := difference[t := lhs.elems[t] - rhs.elems[t]];
      t := t + 1;
    }
    assert difference == Difference(lhs, rhs).elems;
    r := Success(Matrix(lhs.rows, lhs.cols, difference));
  }

  /** matrix_product: invalid_argument unless lhs.columns() == rhs.rows(), else the
      standard product, accumulated into a zero matrix by the i, j, k triple loop. */
  method MatrixProduct(lhs: Matrix, rhs: Matrix) returns (r: Result<Matrix>)
    requires WellFormed(lhs) && WellFormed(rhs)
    ensures lhs.cols != rhs.rows ==> r == Failure(InvalidArgument)
    ensures lhs.cols == rhs.rows ==> r == Success(Product(lhs, rhs))
  {
    if lhs.cols != rhs.rows {
      return Failure(InvalidArgument);
    }
    var p := ProductLoop(lhs, rhs);
    r := Success(Matrix(lhs.rows, rhs.cols, p));
  }

  /** matrix_product's triple loop (and fixed_matrix's operator*): a zero rows x columns
      result, and product(i, j) += lhs(i, k) * rhs(k, j) for i, then j, then k below
      lhs.columns(). */
  method ProductLoop(lhs: Matrix, rhs: Matrix) returns (p: seq<int>)
    requires WellFormed(lhs) && WellFormed(rhs) && lhs.cols <= rhs.rows
    ensures p == Product(lhs, rhs).elems
  {
    var R, C := lhs.rows, rhs.cols;
    ghost var target := Product(lhs, rhs).elems;
    p := seq(R * C, _ => 0);
    var i := 0;
    ghost var base: nat := 0;
    while i < R
      invariant i <= R && base == i * C && FilledUpTo(p, target, base)
    {
      ProductRowElements(lhs, rhs, i, base);
      p := ProductRow(lhs, rhs, p, i, base, target);
      NextRowStart(i, C);
      i, base := i + 1, base + C;
    }
    assert p == p[..base] == target;
  }

  /** matrix_product's loop over the columns j of row i: entry (i, j) receives its dot
      product, in order. */
  method ProductRow(lhs: Matrix, rhs: Matrix, p: seq<int>, i: nat, ghost base: nat, ghost target: seq<int>)
    returns (q: seq<int>)
    requires WellFormed(lhs) && WellFormed(rhs) && lhs.cols <= rhs.rows && i < lhs.rows
    requires base == i * rhs.cols && base + rhs.cols <= |target| && FilledUpTo(p, target, base)
    requires forall j :: 0 <= j < rhs.cols ==> target[base + j] == Dot(lhs, rhs, i, j, lhs.cols)
    ensures FilledUpTo(q, target, base + rhs.cols)
  {
    q := p;
    var j := 0;
    while j < rhs.cols
      invariant j <= rhs.cols && FilledUpTo(q, target, base + j)
    {
      assert q[base + j := 0] == q;
      q := AccumulateEntry(lhs, rhs, q, i, j, base + j);
      FillAccumulated(q, target, base + j);
      j := j + 1;
    }
  }

  /** matrix_product's innermost loop: product(i, j) += lhs(i, k) * rhs(k, j) for every k,
      which adds the whole dot product to entry (i, j) and leaves the others alone. */
  method AccumulateEntry(lhs: Matrix, rhs: Matrix, p: seq<int>, i: nat, j: nat, ghost at: nat)
    returns (q: seq<int>)
    requires WellFormed(lhs) && WellFormed(rhs) && lhs.cols <= rhs.rows
    requires i < lhs.rows && j < rhs.cols && at == i * rhs.cols + j && at < |p|
    ensures |q| == |p| && q[at] == p[at] + Dot(lhs, rhs, i, j, lhs.cols)
    ensures q[at := 0] == p[at := 0]
  {
    var C, K := rhs.cols, lhs.cols;
    q := p;
    var k := 0;
    while k < K
      invariant k <= K && |q| == |p|
      invariant q[at] == p[at] + Dot(lhs, rhs, i, j, k)
      invariant q[at := 0] == p[at := 0]
    {
      DotStep(lhs, rhs, i, j, k);
      ghost var before := q;
      q := q[i * C + j := q[i * C + j] + lhs.elems[i * K + k] * rhs.elems[k * C + j]];
      assert q[at := 0] == before[at := 0];
      k := k + 1;
    }
  }

  /** matrix_trace: invalid_argument unless square, else the sum of the elements met by
      walking the flat vector with stride columns() + 1. */
  method MatrixTrace(a: Matrix) returns (r: Result<int>)
    requires WellFormed(a)
    ensures a.rows != a.cols ==> r == Failure(InvalidArgument)
    ensures a.rows == a.cols ==> r == Success(Trace(a))
  {
    if a.rows != a.cols {
      return Failure(InvalidArgument);
    }
    var trace := 0;
    var at := 0;
    ghost var i: nat := 0;
    while at < |a.elems|
      invariant i <= a.rows && at == i * (a.cols + 1) && trace == DiagonalSum(a, i)
      decreases a.rows - i
    {
      StrideInBounds(a.cols, i);
      DiagonalStride(a, i);
      NextRowStart(i, a.cols + 1);
      trace := trace + a.elems[at];
      at := at + a.cols + 1;
      i := i + 1;
    }
    StrideInBounds(a.cols, i);
    r := Success(trace);
  }

  /** make_identity_matrix(r, c): logic_error unless r == c, else a zero matrix whose
      diagonal entries are set to 1. */
  method MakeIdentity(r: nat, c: nat) returns (res: Result<Matrix>)
    ensures r != c ==> res == Failure(LogicError)
    ensures r == c ==> res == Success(Identity(r))
  {
    if r != c {
      return Failure(LogicError);
    }
    ghost var target := Identity(r).elems;
    var m := seq(r * c, _ => 0);
    var i := 0;
    ghost var base: nat := 0;
    while i < r
      invariant i <= r && |m| == r * c && base == i * c && FilledUpTo(m, target, base)
    {
      m := IdentityRow(m, r, i, base);
      NextRowStart(i, c);
      i, base := i + 1, base + c;
    }
    assert m == m[..base] == target;
    res := Success(Matrix(r, c, m));
  }

  /** One pass of make_identity_matrix's row loop over an n x n zero matrix: the entries of
      row i are visited in order and the one on the diagonal is set to 1. */
  method IdentityRow(m: seq<int>, n: nat, i: nat, ghost base: nat) returns (r: seq<int>)
    requires i < n && |m| == n * n && base == i * n && FilledUpTo(m, Identity(n).elems, base)
    ensures |r| == n * n && FilledUpTo(r, Identity(n).elems, base + n)
  {
    ghost var target := Identity(n).elems;
    r := m;
    var j := 0;
    while j < n
      invariant j <= n && |r| == n * n && FilledUpTo(r, target, base + j)
    {
      IdentityElement(n, i, j);
      if i == j {
        FillNext(r, target, base + j);
        r := r[i * n + j := 1];
      } else {
        FillNextZero(r, target, base + j);
      }
      j := j + 1;
    }
  }
}
