/** The bounded matrix class: a fixed 20 x 20 buffer of which the first
    `rowCount` rows and `colCount` columns are live. Every operation is
    proved against the value-level specification in `MatrixSpec`, through
    `View()`, the live part of the buffer. */
module CivilMatrix {
  import opened Errors
  import Spec = MatrixSpec

  /** Capacity of the buffer (`MAX_ROWS`, `MAX_COLS`). */
  const MaxRows: nat := 20
  const MaxCols: nat := 20

  class Matrix {
    /** The fixed-size cell buffer; it is never reallocated. */
    const items: array2<real>
    var rowCount: nat
    var colCount: nat
    /** The live cells, row by row; `Valid` keeps them equal to the live part of `items`. */
    ghost var cells: seq<seq<real>>

    ghost predicate Valid()
      reads this, items
    {
      && items.Length0 == MaxRows && items.Length1 == MaxCols && rowCount <= MaxRows && colCount <= MaxCols
      && Spec.Wf(View())
      && forall i, j | 0 <= i < rowCount && 0 <= j < colCount :: cells[i][j] == items[i, j]
    }

    /** The live part of the buffer as a matrix value. */
    ghost function View(): Spec.Mat
      reads this
    {
      Spec.Mat(rowCount, colCount, cells)
    }

    /** The live part of `a`, row by row. */
    static ghost function Live(a: array2<real>, rows: nat, cols: nat): (live: seq<seq<real>>)
      reads a
      requires rows <= a.Length0 && cols <= a.Length1
      ensures Spec.Wf(Spec.Mat(rows, cols, live))
      ensures forall i, j | 0 <= i < rows && 0 <= j < cols :: live[i][j] == a[i, j]
    {
      seq(rows, i requires 0 <= i < rows reads a => seq(cols, j requires 0 <= j < cols reads a => a[i, j]))
    }

    /** `Matrix()`: no live cells. */
    constructor Empty()
      ensures Valid() && fresh(items) && rowCount == 0 && colCount == 0
    {
      items := new real[MaxRows, MaxCols];
      rowCount, colCount := 0, 0;
      cells := [];
    }

    /** `Matrix(rows, cols)`: sets the counts; the cells hold whatever the buffer held. */
    constructor (rows: nat, cols: nat)
      requires rows <= MaxRows && cols <= MaxCols
      ensures Valid() && fresh(items) && rowCount == rows && colCount == cols
    {
      var a := new real[MaxRows, MaxCols];
      items := a;
      rowCount, colCount := rows, cols;
      cells := Live(a, rows, cols);
    }

    /** The copy constructor, which copies the counts and the whole buffer. */
    constructor Copy(mat: Matrix)
      requires mat.Valid()
      ensures Valid() && fresh(items)
      ensures rowCount == mat.rowCount && colCount == mat.colCount
      ensures forall r, c | 0 <= r < MaxRows && 0 <= c < MaxCols :: items[r, c] == mat.items[r, c]
      ensures View() == mat.View()
    {
      var a := new real[MaxRows, MaxCols];
      var r := 0;
      while r < MaxRows
        invariant 0 <= r <= MaxRows
        invariant forall r', c' | 0 <= r' < r && 0 <= c' < MaxCols :: a[r', c'] == mat.items[r', c']
      {
        var c := 0;
        while c < MaxCols
          invariant 0 <= c <= MaxCols
          invariant forall r', c' | (0 <= r' < r && 0 <= c' < MaxCols) || (r' == r && 0 <= c' < c) ::
            a[r', c'] == mat.items[r', c']
        {
          a[r, c] := mat.items[r, c];
          c := c + 1;
        }
        r := r + 1;
      }
      items := a;
      rowCount, colCount := mat.rowCount, mat.colCount;
      cells := mat.cells;
    }

    /** `setDims`: `Overflow` beyond the capacity; otherwise only the counts change. */
    method SetDims(rows: nat, cols: nat) returns (out: Outcome)
      requires Valid()
      modifies this
      ensures Valid() && unchanged(items)
      ensures out.Fail? <==> rows > MaxRows || cols > MaxCols
      ensures out.Fail? ==> out.error == Overflow && View() == old(View())
      ensures out.Pass? ==> rowCount == rows && colCount == cols
      ensures out.Pass? ==> forall i, j | 0 <= i < rows && 0 <= j < cols :: View().cells[i][j] == items[i, j]
    {
      if rows > MaxRows || cols > MaxCols {
        return Fail(Overflow);
      }
      rowCount, colCount := rows, cols;
      cells := Live(items, rows, cols);
      return Pass;
    }

    /** `getItem`: `InvalidIndex` outside the live part. */
    function GetItem(row: nat, col: nat): (r: Result<real>)
      reads this, items
      requires Valid()
      ensures r.Err? <==> row >= rowCount || col >= colCount
      ensures r.Err? ==> r.error == InvalidIndex
      ensures r.Ok? ==> r.value == items[row, col]
      ensures r == Spec.Get(View(), row, col)
    {
      if row >= rowCount || col >= colCount then Err(InvalidIndex) else Ok(items[row, col])
    }

    /** `setItem`: `InvalidIndex` outside the live part; otherwise exactly one cell changes. */
    method SetItem(row: nat, col: nat, value: real) returns (out: Outcome)
      requires Valid()
      modifies this, items
      ensures Valid() && rowCount == old(rowCount) && colCount == old(colCount)
      ensures out.Fail? <==> row >= rowCount || col >= colCount
      ensures out.Fail? ==> out.error == InvalidIndex && View() == old(View())
      ensures out.Pass? ==> View() == Spec.SetCell(old(View()), row, col, value)
      ensures out.Pass? ==> items[row, col] == value
      ensures forall r, c | 0 <= r < MaxRows && 0 <= c < MaxCols && (r != row || c != col) ::
        items[r, c] == old(items[r, c])
    {
      if row >= rowCount || col >= colCount {
        return Fail(InvalidIndex);
      }
      items[row, col] := value;
      cells := cells[row := cells[row][col := value]];
      return Pass;
    }

    /** `removeRow`: the index check, then the last-row check; on success the
        live rows from `row` on move up one (only the live columns are moved)
        and the row count drops by one. */
    method RemoveRow(row: nat) returns (out: Outcome)
      requires Valid()
      modifies this, items
      ensures Valid()
      ensures out.Fail? <==> Spec.RemoveRow(old(View()), row).Err?
      ensures out.Fail? ==> out.error == Spec.RemoveRow(old(View()), row).error
      ensures out.Fail? ==> unchanged(this) && unchanged(items)
      ensures out.Pass? ==> View() == Spec.RemoveRow(old(View()), row).value
      ensures out.Pass? ==> rowCount == old(rowCount) - 1 && colCount == old(colCount)
      ensures out.Pass? ==> forall r, c | 0 <= r < MaxRows && 0 <= c < MaxCols ::
        items[r, c] == if row <= r < old(rowCount) - 1 && c < colCount then old(items[r + 1, c]) else old(items[r, c])
    {
      if row >= rowCount {
        return Fail(InvalidIndex);
      }
      if rowCount == 1 {
        return Fail(CantRemoveDim);
      }
      ghost var before := View();
      var i := row;
      while i < rowCount - 1
        invariant row <= i <= rowCount - 1
        invariant rowCount == old(rowCount) && colCount == old(colCount)
        invariant forall r, c | 0 <= r < MaxRows && 0 <= c < MaxCols ::
          items[r, c] == if row <= r < i && c < colCount then old(items[r + 1, c]) else old(items[r, c])
      {
        var j := 0;
        while j < colCount
          invariant 0 <= j <= colCount
          invariant rowCount == old(rowCount) && colCount == old(colCount)
          invariant forall r, c | 0 <= r < MaxRows && 0 <= c < MaxCols ::
            items[r, c] == if (row <= r < i && c < colCount) || (r == i && c < j) then old(items[r + 1, c]) else old(items[r, c])
        {
          items[i, j] := items[i + 1, j];
          j := j + 1;
        }
        i := i + 1;
      }
      rowCount := rowCount - 1;
      cells := Spec.DropRow(before, row).cells;
      return Pass;
    }

    /** `removeCol`: the index check, then the last-column check; on success the
        live columns from `col` on move left one in every live row and the
        column count drops by one. */
    method RemoveCol(col: nat) returns (out: Outcome)
      requires Valid()
      modifies this, items
      ensures Valid()
      ensures out.Fail? <==> Spec.RemoveCol(old(View()), col).Err?
      ensures out.Fail? ==> out.error == Spec.RemoveCol(old(View()), col).error
      ensures out.Fail? ==> unchanged(this) && unchanged(items)
      ensures out.Pass? ==> View() == Spec.RemoveCol(old(View()), col).value
      ensures out.Pass? ==> rowCount == old(rowCount) && colCount == old(colCount) - 1
      ensures out.Pass? ==> forall r, c | 0 <= r < MaxRows && 0 <= c < MaxCols ::
        items[r, c] == if r < rowCount && col <= c < old(colCount) - 1 then old(items[r, c + 1]) else old(items[r, c])
    {
      if col >= colCount {
        return Fail(InvalidIndex);
      }
      if colCount == 1 {
        return Fail(CantRemoveDim);
      }
      ghost var before := View();
      var i := 0;
      while i < rowCount
        invariant 0 <= i <= rowCount
        invariant rowCount == old(rowCount) && colCount == old(colCount)
        invariant forall r, c | 0 <= r < MaxRows && 0 <= c < MaxCols ::
          items[r, c] == if r < i && col <= c < colCount - 1 then old(items[r, c + 1]) else old(items[r, c])
      {
        var j := col;
        while j < colCount - 1
          invariant col <= j <= colCount - 1
          invariant rowCount == old(rowCount) && colCount == old(colCount)
          invariant forall r, c | 0 <= r < MaxRows && 0 <= c < MaxCols ::
            items[r, c] == if (r < i && col <= c < colCount - 1) || (r == i && col <= c < j) then old(items[r, c + 1]) else old(items[r, c])
        {
          items[i, j] := items[i, j + 1];
          j := j + 1;
        }
        i := i + 1;
      }
      colCount := colCount - 1;
      cells := Spec.DropCol(before, col).cells;
      return Pass;
    }

    /** `null(rows, cols)`: every live cell is 0. */
    static method Null(rows: nat, cols: nat) returns (mat: Matrix)
      requires rows <= MaxRows && cols <= MaxCols
      ensures fresh(mat) && fresh(mat.items) && mat.Valid()
      ensures mat.View() == Spec.Null(rows, cols)
    {
      mat := new Matrix(rows, cols);
      var i := 0;
      while i < rows
        invariant 0 <= i <= rows
        invariant fresh(mat) && fresh(mat.items) && mat.Valid() && mat.rowCount == rows && mat.colCount == cols
        invariant forall r, c | 0 <= r < i && 0 <= c < cols :: mat.items[r, c] == 0.0
      {
        var j := 0;
        while j < cols
          invariant 0 <= j <= cols
          invariant fresh(mat) && fresh(mat.items) && mat.Valid() && mat.rowCount == rows && mat.colCount == cols
          invariant forall r, c | (0 <= r < i && 0 <= c < cols) || (r == i && 0 <= c < j) :: mat.items[r, c] == 0.0
        {
          var _ := mat.SetItem(i, j, 0.0);
          j := j + 1;
        }
        i := i + 1;
      }
      Spec.Ext(mat.View(), Spec.Null(rows, cols));
    }

    /** `identity(size)`: 1 on the diagonal and 0 elsewhere. */
    static method Identity(size: nat) returns (mat: Matrix)
      requires size <= MaxRows && size <= MaxCols
      ensures fresh(mat) && fresh(mat.items) && mat.Valid()
      ensures mat.View() == Spec.Identity(size)
    {
      mat := new Matrix(size, size);
      var i := 0;
      while i < size
        invariant 0 <= i <= size
        invariant fresh(mat) && fresh(mat.items) && mat.Valid() && mat.rowCount == size && mat.colCount == size
        invariant forall r, c | 0 <= r < i && 0 <= c < size :: mat.items[r, c] == if r == c then 1.0 else 0.0
      {
        var j := 0;
        while j < size
          invariant 0 <= j <= size
          invariant fresh(mat) && fresh(mat.items) && mat.Valid() && mat.rowCount == size && mat.colCount == size
          invariant forall r, c | (0 <= r < i && 0 <= c < size) || (r == i && 0 <= c < j) ::
            mat.items[r, c] == if r == c then 1.0 else 0.0
        {
          var _ := mat.SetItem(i, j, if i == j then 1.0 else 0.0);
          j := j + 1;
        }
        i := i + 1;
      }
      Spec.Ext(mat.View(), Spec.Identity(size));
    }

    /** `transposed()`: cell (j, i) of the result is cell (i, j) of this matrix. */
    method Transposed() returns (res: Matrix)
      requires Valid()
      ensures fresh(res) && fresh(res.items) && res.Valid()
      ensures res.View() == Spec.Transpose(View())
    {
      res := new Matrix(colCount, rowCount);
      var i := 0;
      while i < rowCount
        invariant 0 <= i <= rowCount
        invariant fresh(res) && fresh(res.items) && res.Valid() && res.rowCount == colCount && res.colCount == rowCount
        invariant forall r, c | 0 <= r < i && 0 <= c < colCount :: res.items[c, r] == items[r, c]
      {
        var j := 0;
        while j < colCount
          invariant 0 <= j <= colCount
          invariant fresh(res) && fresh(res.items) && res.Valid() && res.rowCount == colCount && res.colCount == rowCount
          invariant forall r, c | (0 <= r < i && 0 <= c < colCount) || (r == i && 0 <= c < j) ::
            res.items[c, r] == items[r, c]
        {
          var _ := res.SetItem(j, i, GetItem(i, j).value);
          j := j + 1;
        }
        i := i + 1;
      }
      Spec.Ext(res.View(), Spec.Transpose(View()));
    }

    /** A copy of this matrix with `removeRow(row)` and then `removeCol(col)`
        applied; `out` is the first failure, if any. */
    method Without(row: nat, col: nat) returns (tmp: Matrix, out: Outcome)
      requires Valid()
      ensures fresh(tmp) && fresh(tmp.items) && tmp.Valid()
      ensures out.Fail? <==> Spec.RemoveRowCol(View(), row, col).Err?
      ensures out.Fail? ==> out.error == Spec.RemoveRowCol(View(), row, col).error
      ensures out.Pass? ==> tmp.View() == Spec.RemoveRowCol(View(), row, col).value
    {
      tmp := new Matrix.Copy(this);
      out := tmp.RemoveRow(row);
      if out.Pass? {
        out := tmp.RemoveCol(col);
      }
    }

    /** The private `calcDet(mat)`: it switches on the row count; 1x1 and
        2x2 are read off directly, any other count is expanded along row 0. */
    static method CalcDetOf(mat: Matrix) returns (det: Result<real>)
      requires mat.Valid()
      ensures det == Spec.Det(mat.View())
      decreases mat.rowCount, 2
    {
      ghost var m := mat.View();
      if mat.rowCount == 1 {
        return mat.GetItem(0, 0);
      } else if mat.rowCount == 2 {
        var a, d, c, b := mat.GetItem(0, 0), mat.GetItem(1, 1), mat.GetItem(1, 0), mat.GetItem(0, 1);
        if a.Err? || d.Err? || c.Err? || b.Err? {
          assert Spec.Det(m).Err? && Spec.Det(m).error == InvalidIndex;
          return Err(InvalidIndex);
        }
        assert a.value * d.value == m.cells[0][0] * m.cells[1][1];
        assert c.value * b.value == m.cells[1][0] * m.cells[0][1];
        Spec.DetTwoByTwo(m);
        return Ok(a.value * d.value - c.value * b.value);
      } else {
        det := LaplaceSum(mat);
      }
    }

    /** The `default:` branch of `calcDet(mat)`: the running sum of the terms
        over the columns; the first term that raises ends it. */
    static method LaplaceSum(mat: Matrix) returns (det: Result<real>)
      requires mat.Valid() && mat.rowCount != 1 && mat.rowCount != 2
      ensures det == Spec.Laplace(mat.View(), mat.colCount)
      decreases mat.rowCount, 1
    {
      ghost var m := mat.View();
      var acc := 0.0;
      var i := 0;
      while i < mat.colCount
        invariant 0 <= i <= mat.colCount
        invariant mat.View() == m
        invariant Spec.Laplace(m, i) == Ok(acc)
      {
        var term := ExpansionTerm(mat, i);
        if term.Err? {
          Spec.LaplaceStepErr(m, i);
          Spec.LaplaceErrPersists(m, i + 1, mat.colCount);
          return Err(term.error);
        }
        Spec.LaplaceStep(m, i, acc, term.value);
        acc := acc + term.value;
        i := i + 1;
      }
      return Ok(acc);
    }

    /** The loop body of `calcDet(mat)` for column i: copy, remove row 0 and
        column i, then item (0, i) times (-1)^i times the copy's determinant. */
    static method ExpansionTerm(mat: Matrix, i: nat) returns (term: Result<real>)
      requires mat.Valid() && i < mat.colCount
      ensures term == Spec.TermAt(mat.View(), i)
      decreases mat.rowCount, 0
    {
      ghost var m := mat.View();
      var tmp, removed := mat.Without(0, i);
      if removed.Fail? {
        return Err(removed.error);
      }
      var sub := CalcDetOf(tmp);
      if sub.Err? {
        return Err(sub.error);
      }
      var x := mat.GetItem(0, i);
      assert x.value * Spec.Alt(i) * sub.value == Spec.Term(m.cells[0][i], i, sub.value);
      return Ok(x.value * Spec.Alt(i) * sub.value);
    }

    /** `calcDet()`. */
    method CalcDet() returns (det: Result<real>)
      requires Valid()
      ensures det == Spec.Det(View())
    {
      det := CalcDetOf(this);
    }

    /** `invertible()`: square with a non-zero determinant. */
    method Invertible() returns (b: bool)
      requires Valid()
      ensures b == Spec.IsInvertible(View())
    {
      if rowCount != colCount {
        return false;
      }
      var det := CalcDet();
      return det.Ok? && det.value != 0.0;
    }

    /** The body of the loop in `cofats()`: the signed determinant of a copy
        with row i and column j removed; the removal fails on a 1x1 matrix. */
    method CofactorAt(i: nat, j: nat) returns (r: Result<real>)
      requires Valid() && rowCount == colCount && i < rowCount && j < colCount
      ensures r.Err? <==> rowCount == 1
      ensures r.Err? ==> r.error == CantRemoveDim
      ensures r.Ok? ==> rowCount >= 2 && r.value == Spec.Cofactor(View(), i, j)
    {
      var tmp, removed := Without(i, j);
      if removed.Fail? {
        return Err(removed.error);
      }
      var det := tmp.CalcDet();
      Spec.DetSquareOk(tmp.View());
      return Ok(Spec.Alt((i + 1) + (j + 1)) * det.value);
    }

    /** `cofats()`: `NotSquare` unless square; each entry is the signed
        determinant of a copy with row i and column j removed, so a 1x1
        matrix fails in that `removeRow`. */
    method Cofats() returns (res: Result<Matrix>)
      requires Valid()
      ensures res.Err? <==> Spec.Cofactors(View()).Err?
      ensures res.Err? ==> res.error == Spec.Cofactors(View()).error
      ensures res.Ok? ==> fresh(res.value) && fresh(res.value.items) && res.value.Valid()
      ensures res.Ok? ==> res.value.View() == Spec.Cofactors(View()).value
    {
      if rowCount != colCount {
        return Err(NotSquare);
      }
      var out := new Matrix(rowCount, colCount);
      var i := 0;
      while i < rowCount
        invariant 0 <= i <= rowCount
        invariant i > 0 ==> rowCount >= 2
        invariant fresh(out) && fresh(out.items) && out.Valid() && out.rowCount == rowCount && out.colCount == colCount
        invariant forall r, c | 0 <= r < i && 0 <= c < colCount :: out.items[r, c] == Spec.Cofactor(View(), r, c)
      {
        var j := 0;
        while j < colCount
          invariant 0 <= j <= colCount
          invariant j > 0 ==> rowCount >= 2
          invariant fresh(out) && fresh(out.items) && out.Valid() && out.rowCount == rowCount && out.colCount == colCount
          invariant forall r, c | (0 <= r < i && 0 <= c < colCount) || (r == i && 0 <= c < j) ::
            out.items[r, c] == Spec.Cofactor(View(), r, c)
        {
          var cofactor := CofactorAt(i, j);
          if cofactor.Err? {
            return Err(cofactor.error);
          }
          var _ := out.SetItem(i, j, cofactor.value);
          j := j + 1;
        }
        i := i + 1;
      }
      Spec.Ext(out.View(), Spec.Cofactors(View()).value);
      return Ok(out);
    }

    /** `reverse()`: `NotInvertible` unless invertible; otherwise the
        transposed cofactor matrix times 1/det. */
    method Reverse() returns (res: Result<Matrix>)
      requires Valid()
      ensures res.Err? <==> Spec.Reverse(old(View())).Err?
      ensures res.Err? ==> res.error == Spec.Reverse(old(View())).error
      ensures res.Ok? ==> fresh(res.value) && fresh(res.value.items) && res.value.Valid()
      ensures res.Ok? ==> res.value.View() == Spec.Reverse(old(View())).value
    {
      ghost var m := View();
      var invertible := Invertible();
      if !invertible {
        return Err(NotInvertible);
      }
      var cof := Cofats();
      if cof.Err? {
        return Err(cof.error);
      }
      var det := CalcDet();
      Spec.ReverseOk(m);
      var scaled := ScaledTranspose(cof.value, 1.0 / det.value);
      return Ok(scaled);
    }

    /** The tail of `reverse()`: `mat.transposed() * factor`. */
    static method ScaledTranspose(mat: Matrix, factor: real) returns (res: Matrix)
      requires mat.Valid()
      ensures fresh(res) && fresh(res.items) && res.Valid()
      ensures res.View() == Spec.MulScalar(Spec.Transpose(mat.View()), factor)
    {
      var t := mat.Transposed();
      res := MulScalar(t, factor);
    }

    /** `primaryDiagonal()`: `NotSquare` unless square; a single row holding the diagonal. */
    method PrimaryDiagonal() returns (res: Result<Matrix>)
      requires Valid()
      ensures res.Err? <==> Spec.PrimaryDiagonal(View()).Err?
      ensures res.Err? ==> res.error == Spec.PrimaryDiagonal(View()).error
      ensures res.Ok? ==> fresh(res.value) && fresh(res.value.items) && res.value.Valid()
      ensures res.Ok? ==> res.value.View() == Spec.PrimaryDiagonal(View()).value
    {
      if rowCount != colCount {
        return Err(NotSquare);
      }
      var out := new Matrix(1, rowCount);
      var i := 0;
      while i < rowCount
        invariant 0 <= i <= rowCount
        invariant fresh(out) && fresh(out.items) && out.Valid() && out.rowCount == 1 && out.colCount == rowCount
        invariant forall c | 0 <= c < i :: out.items[0, c] == items[c, c]
      {
        var _ := out.SetItem(0, i, GetItem(i, i).value);
        i := i + 1;
      }
      Spec.Ext(out.View(), Spec.PrimaryDiagonal(View()).value);
      return Ok(out);
    }

    /** `secundaryDiagonal()`: `NotSquare` unless square; column k of the
        single result row holds cell (k, n-1-k), filled from the last column back. */
    method SecundaryDiagonal() returns (res: Result<Matrix>)
      requires Valid()
      ensures res.Err? <==> Spec.SecondaryDiagonal(View()).Err?
      ensures res.Err? ==> res.error == Spec.SecondaryDiagonal(View()).error
      ensures res.Ok? ==> fresh(res.value) && fresh(res.value.items) && res.value.Valid()
      ensures res.Ok? ==> res.value.View() == Spec.SecondaryDiagonal(View()).value
    {
      if rowCount != colCount {
        return Err(NotSquare);
      }
      var n := rowCount;
      var out := new Matrix(1, n);
      var j: int := n as int - 1;
      var i := 0;
      while i < n
        invariant 0 <= i <= n && j == n as int - 1 - i
        invariant fresh(out) && fresh(out.items) && out.Valid() && out.rowCount == 1 && out.colCount == n
        invariant forall c | j < c < n :: out.items[0, c] == items[c, n - 1 - c]
      {
        var _ := out.SetItem(0, j, GetItem(j, i).value);
        j := j - 1;
        i := i + 1;
      }
      Spec.Ext(out.View(), Spec.SecondaryDiagonal(View()).value);
      return Ok(out);
    }

    /** `operator+(mat1, mat2)`: `Incompatible` unless the shapes agree, otherwise the cell-wise sum. */
    static method Add(mat1: Matrix, mat2: Matrix) returns (res: Result<Matrix>)
      requires mat1.Valid() && mat2.Valid()
      ensures res.Err? <==> Spec.Add(mat1.View(), mat2.View()).Err?
      ensures res.Err? ==> res.error == Incompatible
      ensures res.Ok? ==> fresh(res.value) && fresh(res.value.items) && res.value.Valid()
      ensures res.Ok? ==> res.value.View() == Spec.Add(mat1.View(), mat2.View()).value
    {
      if mat1.rowCount != mat2.rowCount || mat1.colCount != mat2.colCount {
        return Err(Incompatible);
      }
      var out := new Matrix(mat1.rowCount, mat1.colCount);
      var i := 0;
      while i < mat1.rowCount
        invariant 0 <= i <= mat1.rowCount
        invariant fresh(out) && fresh(out.items) && out.Valid()
        invariant out.rowCount == mat1.rowCount && out.colCount == mat1.colCount
        invariant forall r, c | 0 <= r < i && 0 <= c < mat1.colCount ::
          out.items[r, c] == mat1.items[r, c] + mat2.items[r, c]
      {
        var j := 0;
        while j < mat1.colCount
          invariant 0 <= j <= mat1.colCount
          invariant fresh(out) && fresh(out.items) && out.Valid()
          invariant out.rowCount == mat1.rowCount && out.colCount == mat1.colCount
          invariant forall r, c | (0 <= r < i && 0 <= c < mat1.colCount) || (r == i && 0 <= c < j) ::
            out.items[r, c] == mat1.items[r, c] + mat2.items[r, c]
        {
          var _ := out.SetItem(i, j, mat1.GetItem(i, j).value + mat2.GetItem(i, j).value);
          j := j + 1;
        }
        i := i + 1;
      }
      Spec.Ext(out.View(), Spec.Add(mat1.View(), mat2.View()).value);
      return Ok(out);
    }

    /** `operator-(mat1, mat2)`: `Incompatible` unless the shapes agree, otherwise the cell-wise difference. */
    static method Sub(mat1: Matrix, mat2: Matrix) returns (res: Result<Matrix>)
      requires mat1.Valid() && mat2.Valid()
      ensures res.Err? <==> Spec.Sub(mat1.View(), mat2.View()).Err?
      ensures res.Err? ==> res.error == Incompatible
      ensures res.Ok? ==> fresh(res.value) && fresh(res.value.items) && res.value.Valid()
      ensures res.Ok? ==> res.value.View() == Spec.Sub(mat1.View(), mat2.View()).value
    {
      if mat1.rowCount != mat2.rowCount || mat1.colCount != mat2.colCount {
        return Err(Incompatible);
      }
      var out := new Matrix(mat1.rowCount, mat1.colCount);
      var i := 0;
      while i < mat1.rowCount
        invariant 0 <= i <= mat1.rowCount
        invariant fresh(out) && fresh(out.items) && out.Valid()
        invariant out.rowCount == mat1.rowCount && out.colCount == mat1.colCount
        invariant forall r, c | 0 <= r < i && 0 <= c < mat1.colCount ::
          out.items[r, c] == mat1.items[r, c] - mat2.items[r, c]
      {
        var j := 0;
        while j < mat1.colCount
          invariant 0 <= j <= mat1.colCount
          invariant fresh(out) && fresh(out.items) && out.Valid()
          invariant out.rowCount == mat1.rowCount && out.colCount == mat1.colCount
          invariant forall r, c | (0 <= r < i && 0 <= c < mat1.colCount) || (r == i && 0 <= c < j) ::
            out.items[r, c] == mat1.items[r, c] - mat2.items[r, c]
        {
          var _ := out.SetItem(i, j, mat1.GetItem(i, j).value - mat2.GetItem(i, j).value);
          j := j + 1;
        }
        i := i + 1;
      }
      Spec.Ext(out.View(), Spec.Sub(mat1.View(), mat2.View()).value);
      return Ok(out);
    }

    /** The innermost loop of `operator*(mat1, mat2)`: row i of `mat1` times
        column j of `mat2`, raising `InvalidIndex` at the first read past the rows of `mat2`. */
    static method DotProduct(mat1: Matrix, mat2: Matrix, i: nat, j: nat) returns (item: Result<real>)
      requires mat1.Valid() && mat2.Valid() && i < mat1.rowCount && j < mat2.colCount
      ensures item.Err? <==> mat1.colCount > mat2.rowCount
      ensures item.Err? ==> item.error == InvalidIndex
      ensures item.Ok? ==> item.value == Spec.Dot(mat1.View(), mat2.View(), i, j, mat1.colCount)
    {
      var sum := 0.0;
      var k := 0;
      while k < mat1.colCount
        invariant 0 <= k <= mat1.colCount && k <= mat2.rowCount
        invariant sum == Spec.Dot(mat1.View(), mat2.View(), i, j, k)
      {
        var y := mat2.GetItem(k, j);
        if y.Err? {
          return Err(y.error);
        }
        sum := sum + mat1.GetItem(i, k).value * y.value;
        k := k + 1;
      }
      return Ok(sum);
    }

    /** `operator*(mat1, mat2)`: a `mat1.rows` x `mat2.cols` result of row-by-column
        sums over the columns of `mat1`; a read past the rows of `mat2` raises `InvalidIndex`. */
    static method Mul(mat1: Matrix, mat2: Matrix) returns (res: Result<Matrix>)
      requires mat1.Valid() && mat2.Valid()
      ensures res.Err? <==> Spec.Mul(mat1.View(), mat2.View()).Err?
      ensures res.Err? ==> res.error == InvalidIndex
      ensures res.Ok? ==> fresh(res.value) && fresh(res.value.items) && res.value.Valid()
      ensures res.Ok? ==> res.value.View() == Spec.Mul(mat1.View(), mat2.View()).value
    {
      ghost var a, b := mat1.View(), mat2.View();
      var out := new Matrix(mat1.rowCount, mat2.colCount);
      var i := 0;
      while i < mat1.rowCount
        invariant 0 <= i <= mat1.rowCount
        invariant fresh(out) && fresh(out.items) && out.Valid()
        invariant out.rowCount == mat1.rowCount && out.colCount == mat2.colCount
        invariant i > 0 && mat2.colCount > 0 ==> mat1.colCount <= mat2.rowCount
        invariant forall r, c | 0 <= r < i && 0 <= c < mat2.colCount ::
          out.items[r, c] == Spec.Dot(a, b, r, c, mat1.colCount)
      {
        var row := MulRow(mat1, mat2, out, i, a, b);
        if row.Fail? {
          return Err(row.error);
        }
        i := i + 1;
      }
      Spec.Ext(out.View(), Spec.Mul(a, b).value);
      return Ok(out);
    }

    /** One pass of the outer loop of `operator*(mat1, mat2)`: fills row i of
        `out`, stopping at the first failing read of `mat2`. */
    static method MulRow(mat1: Matrix, mat2: Matrix, out: Matrix, i: nat, ghost a: Spec.Mat, ghost b: Spec.Mat)
      returns (row: Outcome)
      requires mat1.Valid() && mat2.Valid() && out.Valid() && a == mat1.View() && b == mat2.View()
      requires out != mat1 && out != mat2 && out.items != mat1.items && out.items != mat2.items
      requires i < mat1.rowCount && out.rowCount == mat1.rowCount && out.colCount == mat2.colCount
      modifies out, out.items
      ensures out.Valid() && out.rowCount == old(out.rowCount) && out.colCount == old(out.colCount)
      ensures row.Fail? <==> mat2.colCount > 0 && mat1.colCount > mat2.rowCount
      ensures row.Fail? ==> row.error == InvalidIndex
      ensures row.Pass? ==> forall c | 0 <= c < mat2.colCount ::
        mat1.colCount <= mat2.rowCount && out.items[i, c] == Spec.Dot(a, b, i, c, mat1.colCount)
      ensures forall r, c | 0 <= r < MaxRows && 0 <= c < MaxCols && r != i :: out.items[r, c] == old(out.items[r, c])
    {
      var j := 0;
      while j < mat2.colCount
        invariant 0 <= j <= mat2.colCount
        invariant j > 0 ==> mat1.colCount <= mat2.rowCount
        invariant out.Valid() && out.rowCount == old(out.rowCount) && out.colCount == old(out.colCount)
        invariant forall c | 0 <= c < j ::
          mat1.colCount <= mat2.rowCount && out.items[i, c] == Spec.Dot(a, b, i, c, mat1.colCount)
        invariant forall r, c | 0 <= r < MaxRows && 0 <= c < MaxCols && r != i :: out.items[r, c] == old(out.items[r, c])
      {
        var item := DotProduct(mat1, mat2, i, j);
        if item.Err? {
          return Fail(item.error);
        }
        var _ := out.SetItem(i, j, item.value);
        j := j + 1;
      }
      return Pass;
    }

    /** `operator+(mat, value)`. */
    static method AddScalar(mat: Matrix, value: real) returns (res: Matrix)
      requires mat.Valid()
      ensures fresh(res) && fresh(res.items) && res.Valid()
      ensures res.View() == Spec.AddScalar(mat.View(), value)
    {
      res := new Matrix(mat.rowCount, mat.colCount);
      var i := 0;
      while i < mat.rowCount
        invariant 0 <= i <= mat.rowCount
        invariant fresh(res) && fresh(res.items) && res.Valid() && res.rowCount == mat.rowCount && res.colCount == mat.colCount
        invariant forall r, c | 0 <= r < i && 0 <= c < mat.colCount :: res.items[r, c] == mat.items[r, c] + value
      {
        var j := 0;
        while j < mat.colCount
          invariant 0 <= j <= mat.colCount
          invariant fresh(res) && fresh(res.items) && res.Valid() && res.rowCount == mat.rowCount && res.colCount == mat.colCount
          invariant forall r, c | (0 <= r < i && 0 <= c < mat.colCount) || (r == i && 0 <= c < j) ::
            res.items[r, c] == mat.items[r, c] + value
        {
          var _ := res.SetItem(i, j, mat.GetItem(i, j).value + value);
          j := j + 1;
        }
        i := i + 1;
      }
      Spec.Ext(res.View(), Spec.AddScalar(mat.View(), value));
    }

    /** `operator-(mat, value)`. */
    static method SubScalar(mat: Matrix, value: real) returns (res: Matrix)
      requires mat.Valid()
      ensures fresh(res) && fresh(res.items) && res.Valid()
      ensures res.View() == Spec.SubScalar(mat.View(), value)
    {
      res := new Matrix(mat.rowCount, mat.colCount);
      var i := 0;
      while i < mat.rowCount
        invariant 0 <= i <= mat.rowCount
        invariant fresh(res) && fresh(res.items) && res.Valid() && res.rowCount == mat.rowCount && res.colCount == mat.colCount
        invariant forall r, c | 0 <= r < i && 0 <= c < mat.colCount :: res.items[r, c] == mat.items[r, c] - value
      {
        var j := 0;
        while j < mat.colCount
          invariant 0 <= j <= mat.colCount
          invariant fresh(res) && fresh(res.items) && res.Valid() && res.rowCount == mat.rowCount && res.colCount == mat.colCount
          invariant forall r, c | (0 <= r < i && 0 <= c < mat.colCount) || (r == i && 0 <= c < j) ::
            res.items[r, c] == mat.items[r, c] - value
        {
          var _ := res.SetItem(i, j, mat.GetItem(i, j).value - value);
          j := j + 1;
        }
        i := i + 1;
      }
      Spec.Ext(res.View(), Spec.SubScalar(mat.View(), value));
    }

    /** `operator*(mat, value)`. */
    static method MulScalar(mat: Matrix, value: real) returns (res: Matrix)
      requires mat.Valid()
      ensures fresh(res) && fresh(res.items) && res.Valid()
      ensures res.View() == Spec.MulScalar(mat.View(), value)
    {
      res := new Matrix(mat.rowCount, mat.colCount);
      var i := 0;
      while i < mat.rowCount
        invariant 0 <= i <= mat.rowCount
        invariant fresh(res) && fresh(res.items) && res.Valid() && res.rowCount == mat.rowCount && res.colCount == mat.colCount
        invariant forall r, c | 0 <= r < i && 0 <= c < mat.colCount :: res.items[r, c] == mat.items[r, c] * value
      {
        var j := 0;
        while j < mat.colCount
          invariant 0 <= j <= mat.colCount
          invariant fresh(res) && fresh(res.items) && res.Valid() && res.rowCount == mat.rowCount && res.colCount == mat.colCount
          invariant forall r, c | (0 <= r < i && 0 <= c < mat.colCount) || (r == i && 0 <= c < j) ::
            res.items[r, c] == mat.items[r, c] * value
        {
          var _ := res.SetItem(i, j, mat.GetItem(i, j).value * value);
          j := j + 1;
        }
        i := i + 1;
      }
      Spec.Ext(res.View(), Spec.MulScalar(mat.View(), value));
    }
  }
}
