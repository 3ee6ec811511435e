/** Value-level specification of the bounded matrix: a matrix is its live
    row count, its live column count and its cells. Every operation of the
    matrix class is specified by one of these functions, including the
    errors the class raises, and the algebraic facts are lemmas about them. */
module MatrixSpec {
  import opened Errors

  datatype Mat = Mat(rows: nat, cols: nat, cells: seq<seq<real>>)

  /** The cells form a `rows` by `cols` grid. */
  predicate Wf(m: Mat)
  {
    |m.cells| == m.rows && forall i | 0 <= i < m.rows :: |m.cells[i]| == m.cols
  }

  /** (-1)^k, the sign the source computes with `pow(-1, k)`. */
  function Alt(k: nat): real
  {
    if k % 2 == 0 then 1.0 else -1.0
  }

  /** Two well-formed matrices with the same shape and the same cells are equal. */
  lemma Ext(a: Mat, b: Mat)
    requires Wf(a) && Wf(b) && a.rows == b.rows && a.cols == b.cols
    requires forall i, j | 0 <= i < a.rows && 0 <= j < a.cols :: a.cells[i][j] == b.cells[i][j]
    ensures a == b
  {
    assert forall i | 0 <= i < a.rows :: a.cells[i] == b.cells[i];
  }

  // ---------------------------------------------------------------- cells

  /** `getItem`: the cell, or `InvalidIndex` outside the live dimensions. */
  function Get(m: Mat, i: nat, j: nat): (r: Result<real>)
    requires Wf(m)
    ensures r.Ok? <==> i < m.rows && j < m.cols
    ensures r.Err? ==> r.error == InvalidIndex
  {
    if i >= m.rows || j >= m.cols then Err(InvalidIndex) else Ok(m.cells[i][j])
  }

  /** The matrix with one cell replaced (a successful `setItem`). */
  function SetCell(m: Mat, i: nat, j: nat, v: real): (r: Mat)
    requires Wf(m) && i < m.rows && j < m.cols
    ensures Wf(r) && r.rows == m.rows && r.cols == m.cols
  {
    Mat(m.rows, m.cols, m.cells[i := m.cells[i][j := v]])
  }

  /** Reading back a written cell gives the written value; every other cell,
      and every out-of-range read, is what it was before. */
  lemma GetAfterSet(m: Mat, i: nat, j: nat, v: real, i': nat, j': nat)
    requires Wf(m) && i < m.rows && j < m.cols
    ensures Get(SetCell(m, i, j, v), i', j') == if i' == i && j' == j then Ok(v) else Get(m, i', j')
  {
  }

  // -------------------------------------------------------------- factories

  /** `null(rows, cols)`. */
  function Null(r: nat, c: nat): (m: Mat)
    ensures Wf(m) && m.rows == r && m.cols == c
  {
    Mat(r, c, seq(r, i => seq(c, j => 0.0)))
  }

  /** `identity(size)`. */
  function Identity(n: nat): (m: Mat)
    ensures Wf(m) && m.rows == n && m.cols == n
  {
    Mat(n, n, seq(n, i => seq(n, j => if i == j then 1.0 else 0.0)))
  }

  /** `transposed()`. */
  function Transpose(m: Mat): (t: Mat)
    requires Wf(m)
    ensures Wf(t) && t.rows == m.cols && t.cols == m.rows
  {
    Mat(m.cols, m.rows, seq(m.cols, j requires 0 <= j < m.cols => seq(m.rows, i requires 0 <= i < m.rows => m.cells[i][j])))
  }

  /** Transposing twice gives back the matrix. */
  lemma TransposeInvolution(m: Mat)
    requires Wf(m)
    ensures Transpose(Transpose(m)) == m
  {
    Ext(Transpose(Transpose(m)), m);
  }

  // ------------------------------------------------------ removing rows/cols

  /** The matrix without row `r`: rows above stay, rows below move up one. */
  function DropRow(m: Mat, r: nat): (d: Mat)
    requires Wf(m) && r < m.rows
    ensures Wf(d) && d.rows == m.rows - 1 && d.cols == m.cols
    ensures forall i, j | 0 <= i < d.rows && 0 <= j < d.cols ::
      d.cells[i][j] == if i < r then m.cells[i][j] else m.cells[i + 1][j]
  {
    Mat(m.rows - 1, m.cols, m.cells[..r] + m.cells[r + 1..])
  }

  /** The matrix without column `c`: columns left of it stay, the others move left one. */
  function DropCol(m: Mat, c: nat): (d: Mat)
    requires Wf(m) && c < m.cols
    ensures Wf(d) && d.rows == m.rows && d.cols == m.cols - 1
    ensures forall i, j | 0 <= i < d.rows && 0 <= j < d.cols ::
      d.cells[i][j] == if j < c then m.cells[i][j] else m.cells[i][j + 1]
  {
    Mat(m.rows, m.cols - 1, seq(m.rows, i requires 0 <= i < m.rows => m.cells[i][..c] + m.cells[i][c + 1..]))
  }

  /** `removeRow(row)`: the index check comes first, then the last-row check. */
  function RemoveRow(m: Mat, r: nat): (res: Result<Mat>)
    requires Wf(m)
    ensures res.Ok? <==> r < m.rows && m.rows >= 2
    ensures r >= m.rows ==> res == Err(InvalidIndex)
    ensures res.Ok? ==> Wf(res.value) && res.value.rows == m.rows - 1 && res.value.cols == m.cols
  {
    if r >= m.rows then Err(InvalidIndex)
    else if m.rows == 1 then Err(CantRemoveDim)
    else Ok(DropRow(m, r))
  }

  /** `removeCol(col)`: the index check comes first, then the last-column check. */
  function RemoveCol(m: Mat, c: nat): (res: Result<Mat>)
    requires Wf(m)
    ensures res.Ok? <==> c < m.cols && m.cols >= 2
    ensures c >= m.cols ==> res == Err(InvalidIndex)
    ensures res.Ok? ==> Wf(res.value) && res.value.rows == m.rows && res.value.cols == m.cols - 1
  {
    if c >= m.cols then Err(InvalidIndex)
    else if m.cols == 1 then Err(CantRemoveDim)
    else Ok(DropCol(m, c))
  }

  /** The minor of cell (i, j): row i removed, then column j. */
  function Minor(m: Mat, i: nat, j: nat): (d: Mat)
    requires Wf(m) && i < m.rows && j < m.cols
    ensures Wf(d) && d.rows == m.rows - 1 && d.cols == m.cols - 1
  {
    DropCol(DropRow(m, i), j)
  }

  /** A copy of the matrix with `removeRow(r)` and then `removeCol(c)`
      applied, as `calcDet` and `cofats` build their temporaries. */
  function RemoveRowCol(m: Mat, r: nat, c: nat): (res: Result<Mat>)
    requires Wf(m)
    ensures res.Ok? <==> r < m.rows && 2 <= m.rows && c < m.cols && 2 <= m.cols
    ensures res.Ok? ==> res.value == Minor(m, r, c)
  {
    match RemoveRow(m, r)
    case Err(e) => Err(e)
    case Ok(d) => RemoveCol(d, c)
  }

  /** A successful `removeRow` drops exactly one row and keeps the column count;
      rows before the removed one are unchanged and the others come from one row further down. */
  lemma RemoveRowShifts(m: Mat, r: nat)
    requires Wf(m) && r < m.rows && m.rows >= 2
    ensures RemoveRow(m, r).Ok?
    ensures var d := RemoveRow(m, r).value;
      && d.rows == m.rows - 1 && d.cols == m.cols
      && (forall i, j | 0 <= i < r && 0 <= j < m.cols :: d.cells[i][j] == m.cells[i][j])
      && (forall i, j | r <= i < d.rows && 0 <= j < m.cols :: d.cells[i][j] == m.cells[i + 1][j])
  {
  }

  /** A successful `removeCol` drops exactly one column and keeps the row count;
      columns before the removed one are unchanged and the others come from one column further right. */
  lemma RemoveColShifts(m: Mat, c: nat)
    requires Wf(m) && c < m.cols && m.cols >= 2
    ensures RemoveCol(m, c).Ok?
    ensures var d := RemoveCol(m, c).value;
      && d.rows == m.rows && d.cols == m.cols - 1
      && (forall i, j | 0 <= i < m.rows && 0 <= j < c :: d.cells[i][j] == m.cells[i][j])
      && (forall i, j | 0 <= i < m.rows && c <= j < d.cols :: d.cells[i][j] == m.cells[i][j + 1])
  {
  }

  // ------------------------------------------------------------ determinant

  /** `calcDet`, as the source computes it for ANY shape: it switches on the
      row count only; a 1x1 or 2x2 read outside the columns raises
      `InvalidIndex`, and the Laplace expansion along row 0 raises whatever
      its `removeRow(0)`, `removeCol(i)` or recursive call raises. */
  function Det(m: Mat): (r: Result<real>)
    requires Wf(m)
    decreases m.rows, 2
    ensures r.Err? ==> r.error == InvalidIndex || r.error == CantRemoveDim
  {
    if m.rows == 1 then
      if m.cols >= 1 then Ok(m.cells[0][0]) else Err(InvalidIndex)
    else if m.rows == 2 then
      if m.cols >= 2 then Ok(m.cells[0][0] * m.cells[1][1] - m.cells[1][0] * m.cells[0][1])
      else Err(InvalidIndex)
    else
      Laplace(m, m.cols)
  }

  /** The term of the expansion for column k: item (0, k) times (-1)^k times
      the determinant of its minor. */
  function Term(item: real, k: nat, d: real): real
  {
    item * Alt(k) * d
  }

  /** The body of the expansion loop for column k: the copy without row 0
      and column k may fail to exist, and its determinant may raise. */
  function TermAt(m: Mat, k: nat): (r: Result<real>)
    requires Wf(m) && k < m.cols
    decreases m.rows, 0
    ensures r.Err? ==> r.error == InvalidIndex || r.error == CantRemoveDim
  {
    match RemoveRowCol(m, 0, k)
    case Err(e) => Err(e)
    case Ok(minor) =>
      match Det(minor)
      case Err(e) => Err(e)
      case Ok(d) => Ok(Term(m.cells[0][k], k, d))
  }

  /** The first k terms of the expansion along row 0, in the order of the source's loop. */
  function Laplace(m: Mat, k: nat): (r: Result<real>)
    requires Wf(m) && k <= m.cols && m.rows != 1 && m.rows != 2
    decreases m.rows, 1, k
    ensures r.Err? ==> r.error == InvalidIndex || r.error == CantRemoveDim
  {
    if k == 0 then Ok(0.0)
    else
      match Laplace(m, k - 1)
      case Err(e) => Err(e)
      case Ok(acc) =>
        match TermAt(m, k - 1)
        case Err(e) => Err(e)
        case Ok(t) => Ok(acc + t)
  }

  /** One more term of the expansion, after a prefix that did not raise. */
  lemma LaplaceStep(m: Mat, k: nat, acc: real, t: real)
    requires Wf(m) && k < m.cols && m.rows != 1 && m.rows != 2
    requires Laplace(m, k) == Ok(acc) && TermAt(m, k) == Ok(t)
    ensures Laplace(m, k + 1) == Ok(acc + t)
  {
    var next := Laplace(m, k + 1);
    assert next.Ok?;
    assert next.value == acc + t;
  }

  /** A raising term, after a prefix that did not raise, makes the expansion raise. */
  lemma LaplaceStepErr(m: Mat, k: nat)
    requires Wf(m) && k < m.cols && m.rows != 1 && m.rows != 2
    requires Laplace(m, k).Ok? && TermAt(m, k).Err?
    ensures Laplace(m, k + 1) == Err(TermAt(m, k).error)
  {
  }

  /** Once a term of the expansion raises, the whole expansion raises that error. */
  lemma {:induction false} LaplaceErrPersists(m: Mat, k: nat, k': nat)
    requires Wf(m) && k <= k' <= m.cols && m.rows != 1 && m.rows != 2
    requires Laplace(m, k).Err?
    ensures Laplace(m, k') == Laplace(m, k)
    decreases k'
  {
    if k' > k {
      LaplaceErrPersists(m, k, k' - 1);
    }
  }

  /** The determinant of a non-empty square matrix never raises. */
  lemma {:induction false} DetSquareOk(m: Mat)
    requires Wf(m) && m.rows == m.cols && m.rows >= 1
    ensures Det(m).Ok?
    decreases m.rows, 2
  {
    if m.rows >= 3 {
      LaplaceSquareOk(m, m.cols);
    }
  }

  lemma {:induction false} LaplaceSquareOk(m: Mat, k: nat)
    requires Wf(m) && m.rows == m.cols && m.rows >= 3 && k <= m.cols
    ensures Laplace(m, k).Ok?
    decreases m.rows, 1, k
  {
    if k > 0 {
      LaplaceSquareOk(m, k - 1);
      DetSquareOk(Minor(m, 0, k - 1));
    }
  }

  /** Removing the first row and column of the identity leaves the identity. */
  lemma MinorOfIdentity(n: nat)
    requires n >= 1
    ensures Minor(Identity(n), 0, 0) == Identity(n - 1)
  {
    Ext(Minor(Identity(n), 0, 0), Identity(n - 1));
  }

  /** det(identity(n)) = 1 for every n >= 1. */
  lemma {:induction false} DetIdentity(n: nat)
    requires n >= 1
    ensures Det(Identity(n)) == Ok(1.0)
    decreases n, 2
  {
    if n >= 3 {
      LaplaceIdentity(n, n);
    }
  }

  lemma {:induction false} LaplaceIdentity(n: nat, k: nat)
    requires 3 <= n && 1 <= k <= n
    ensures Laplace(Identity(n), k) == Ok(1.0)
    decreases n, 1, k
  {
    var id := Identity(n);
    if k == 1 {
      MinorOfIdentity(n);
      DetIdentity(n - 1);
      assert Laplace(id, 0) == Ok(0.0);
    } else {
      LaplaceIdentity(n, k - 1);
      DetSquareOk(Minor(id, 0, k - 1));
      assert id.cells[0][k - 1] == 0.0;
    }
  }

  /** The minor along row 0 of a matrix whose row r > 0 is zero has a zero row r - 1. */
  lemma MinorKeepsZeroRow(m: Mat, r: nat, r': nat, c: nat)
    requires Wf(m) && r < m.rows && r' + 1 == r && c < m.cols
    requires forall j | 0 <= j < m.cols :: m.cells[r][j] == 0.0
    ensures var d := Minor(m, 0, c); forall j | 0 <= j < d.cols :: d.cells[r'][j] == 0.0
  {
    var top := DropRow(m, 0);
    var d := DropCol(top, c);
    forall j | 0 <= j < d.cols
      ensures d.cells[r'][j] == 0.0
    {
      assert top.cells[r'][j] == m.cells[r][j];
      assert top.cells[r'][j + 1] == m.cells[r][j + 1];
    }
  }

  /** A square matrix with an all-zero row has determinant 0. */
  lemma {:induction false} DetZeroRow(m: Mat, r: nat)
    requires Wf(m) && m.rows == m.cols && r < m.rows
    requires forall j | 0 <= j < m.cols :: m.cells[r][j] == 0.0
    ensures Det(m) == Ok(0.0)
    decreases m.rows, 2
  {
    if m.rows >= 3 {
      LaplaceZeroRow(m, r, m.cols);
    } else if m.rows == 2 {
      assert m.cells[r][0] == 0.0 && m.cells[r][1] == 0.0;
    } else if m.rows == 1 {
      assert m.cells[0][0] == 0.0;
    }
  }

  lemma {:induction false} LaplaceZeroRow(m: Mat, r: nat, k: nat)
    requires Wf(m) && m.rows == m.cols && m.rows >= 3 && r < m.rows && k <= m.cols
    requires forall j | 0 <= j < m.cols :: m.cells[r][j] == 0.0
    ensures Laplace(m, k) == Ok(0.0)
    decreases m.rows, 1, k
  {
    if k > 0 {
      LaplaceZeroRow(m, r, k - 1);
      var minor := Minor(m, 0, k - 1);
      if r == 0 {
        DetSquareOk(minor);
        assert m.cells[0][k - 1] == 0.0;
      } else {
        MinorKeepsZeroRow(m, r, r - 1, k - 1);
        DetZeroRow(minor, r - 1);
        assert Det(minor) == Ok(0.0);
      }
    }
  }

  // ---------------------------------------------------- cofactors, inverse

  /** Entry (i, j) of the cofactor matrix: (-1)^((i+1)+(j+1)) times the
      determinant of the minor of (i, j). */
  function Cofactor(m: Mat, i: nat, j: nat): (r: real)
    requires Wf(m) && m.rows == m.cols && m.rows >= 2 && i < m.rows && j < m.cols
    ensures m.rows == 2 ==> r == Alt(i + j) * m.cells[1 - i][1 - j]
  {
    var minor := Minor(m, i, j);
    DetSquareOk(minor);
    Alt((i + 1) + (j + 1)) * Det(minor).value
  }

  /** `cofats()`: `NotSquare` on a non-square matrix; on a 1x1 matrix the
      inner `removeRow` raises `CantRemoveDim`. */
  function Cofactors(m: Mat): (r: Result<Mat>)
    requires Wf(m)
    ensures r.Ok? <==> m.rows == m.cols && m.rows != 1
    ensures m.rows != m.cols ==> r == Err(NotSquare)
    ensures r.Ok? ==> Wf(r.value) && r.value.rows == m.rows && r.value.cols == m.cols
  {
    if m.rows != m.cols then Err(NotSquare)
    else if m.rows == 1 then Err(CantRemoveDim)
    else Ok(Mat(m.rows, m.cols, seq(m.rows, i requires 0 <= i < m.rows =>
              seq(m.cols, j requires 0 <= j < m.cols => Cofactor(m, i, j)))))
  }

  /** `invertible()`: square, and the determinant is not zero. */
  predicate IsInvertible(m: Mat)
    requires Wf(m)
    ensures IsInvertible(m) ==> m.rows == m.cols && m.rows >= 1
    ensures IsInvertible(m) ==> Det(m).Ok? && Det(m).value != 0.0
  {
    m.rows == m.cols &&
    // the empty matrix expands to the empty sum, 0
    (assert m.rows == 0 ==> Det(m) == Laplace(m, 0) == Ok(0.0);
     match Det(m) case Ok(d) => d != 0.0 case Err(_) => false)
  }

  /** A square matrix with an all-zero row is not invertible. */
  lemma ZeroRowNotInvertible(m: Mat, r: nat)
    requires Wf(m) && m.rows == m.cols && r < m.rows
    requires forall j | 0 <= j < m.cols :: m.cells[r][j] == 0.0
    ensures !IsInvertible(m)
  {
    DetZeroRow(m, r);
  }

  /** Element-wise product with a scalar (`operator*(mat, value)`). */
  function MulScalar(m: Mat, v: real): (r: Mat)
    requires Wf(m)
    ensures Wf(r) && r.rows == m.rows && r.cols == m.cols
  {
    Mat(m.rows, m.cols, seq(m.rows, i requires 0 <= i < m.rows =>
      seq(m.cols, j requires 0 <= j < m.cols => m.cells[i][j] * v)))
  }

  /** Element-wise sum with a scalar (`operator+(mat, value)`). */
  function AddScalar(m: Mat, v: real): (r: Mat)
    requires Wf(m)
    ensures Wf(r) && r.rows == m.rows && r.cols == m.cols
  {
    Mat(m.rows, m.cols, seq(m.rows, i requires 0 <= i < m.rows =>
      seq(m.cols, j requires 0 <= j < m.cols => m.cells[i][j] + v)))
  }

  /** Element-wise difference with a scalar (`operator-(mat, value)`). */
  function SubScalar(m: Mat, v: real): (r: Mat)
    requires Wf(m)
    ensures Wf(r) && r.rows == m.rows && r.cols == m.cols
  {
    Mat(m.rows, m.cols, seq(m.rows, i requires 0 <= i < m.rows =>
      seq(m.cols, j requires 0 <= j < m.cols => m.cells[i][j] - v)))
  }

  /** Adding and then subtracting the same scalar gives back the matrix. */
  lemma AddSubScalarInverse(m: Mat, v: real)
    requires Wf(m)
    ensures SubScalar(AddScalar(m, v), v) == m
  {
    Ext(SubScalar(AddScalar(m, v), v), m);
  }

  /** `reverse()`: `NotInvertible` unless invertible, then the transposed
      cofactor matrix times 1/det (which still raises `CantRemoveDim` on 1x1). */
  function Reverse(m: Mat): (r: Result<Mat>)
    requires Wf(m)
    ensures r.Ok? <==> IsInvertible(m) && m.rows != 1
    ensures r.Err? ==> r.error == NotInvertible || r.error == CantRemoveDim
    ensures r.Ok? ==> Wf(r.value) && r.value.rows == m.rows && r.value.cols == m.cols
  {
    if !IsInvertible(m) then Err(NotInvertible)
    else
      match Cofactors(m)
      case Err(e) => Err(e)
      case Ok(c) => Ok(MulScalar(Transpose(c), 1.0 / Det(m).value))
  }

  /** `reverse` of an invertible matrix whose cofactors exist, unfolded. */
  lemma ReverseOk(m: Mat)
    requires Wf(m) && IsInvertible(m) && Cofactors(m).Ok?
    ensures Det(m).Ok? && Det(m).value != 0.0
    ensures Reverse(m) == Ok(MulScalar(Transpose(Cofactors(m).value), 1.0 / Det(m).value))
  {
  }

  /** An invertible 1x1 matrix has no inverse in the source: `cofats` raises. */
  lemma ReverseOneByOne(m: Mat)
    requires Wf(m) && m.rows == 1 && m.cols == 1 && m.cells[0][0] != 0.0
    ensures Reverse(m) == Err(CantRemoveDim)
  {
  }

  // ------------------------------------------------ element-wise operators

  /** `operator+(mat1, mat2)`: `Incompatible` unless the shapes agree. */
  function Add(a: Mat, b: Mat): (r: Result<Mat>)
    requires Wf(a) && Wf(b)
    ensures r.Ok? <==> a.rows == b.rows && a.cols == b.cols
    ensures r.Err? ==> r.error == Incompatible
    ensures r.Ok? ==> Wf(r.value) && r.value.rows == a.rows && r.value.cols == a.cols
  {
    if a.rows != b.rows || a.cols != b.cols then Err(Incompatible)
    else Ok(Mat(a.rows, a.cols, seq(a.rows, i requires 0 <= i < a.rows =>
              seq(a.cols, j requires 0 <= j < a.cols => a.cells[i][j] + b.cells[i][j]))))
  }

  /** `operator-(mat1, mat2)`: `Incompatible` unless the shapes agree. */
  function Sub(a: Mat, b: Mat): (r: Result<Mat>)
    requires Wf(a) && Wf(b)
    ensures r.Ok? <==> a.rows == b.rows && a.cols == b.cols
    ensures r.Err? ==> r.error == Incompatible
    ensures r.Ok? ==> Wf(r.value) && r.value.rows == a.rows && r.value.cols == a.cols
  {
    if a.rows != b.rows || a.cols != b.cols then Err(Incompatible)
    else Ok(Mat(a.rows, a.cols, seq(a.rows, i requires 0 <= i < a.rows =>
              seq(a.cols, j requires 0 <= j < a.cols => a.cells[i][j] - b.cells[i][j]))))
  }

  /** Addition succeeds exactly on equal shapes, is commutative, and
      subtracting the addend afterwards gives back the first operand. */
  lemma AddSubInverse(a: Mat, b: Mat)
    requires Wf(a) && Wf(b)
    ensures Add(a, b).Ok? <==> a.rows == b.rows && a.cols == b.cols
    ensures Add(a, b).Ok? ==> Add(a, b) == Add(b, a)
    ensures Add(a, b).Ok? ==> Wf(Add(a, b).value) && Sub(Add(a, b).value, b) == Ok(a)
  {
    if a.rows == b.rows && a.cols == b.cols {
      var s := Add(a, b).value;
      Ext(s, Add(b, a).value);
      Ext(Sub(s, b).value, a);
    }
  }

  /** Adding the null matrix of the same shape changes nothing. */
  lemma AddNull(m: Mat)
    requires Wf(m)
    ensures Add(m, Null(m.rows, m.cols)) == Ok(m)
  {
    Ext(Add(m, Null(m.rows, m.cols)).value, m);
  }

  // ---------------------------------------------------------------- product

  /** The first k terms of row i of a times column j of b. */
  function Dot(a: Mat, b: Mat, i: nat, j: nat, k: nat): (r: real)
    requires Wf(a) && Wf(b) && i < a.rows && j < b.cols && k <= a.cols && k <= b.rows
    ensures (forall t | 0 <= t < k :: a.cells[i][t] == 0.0) ==> r == 0.0
    ensures (forall t | 0 <= t < k :: b.cells[t][j] == 0.0) ==> r == 0.0
  {
    if k == 0 then 0.0 else Dot(a, b, i, j, k - 1) + a.cells[i][k - 1] * b.cells[k - 1][j]
  }

  /** `operator*(mat1, mat2)`: a `mat1.rows` x `mat2.cols` result whose cell
      (i, j) sums over k < `mat1.cols`. There is no shape check: when
      `mat1.cols` exceeds `mat2.rows`, the read `mat2.getItem(k, j)` at
      k = `mat2.rows` raises `InvalidIndex` (if the result has any cell). */
  function Mul(a: Mat, b: Mat): (r: Result<Mat>)
    requires Wf(a) && Wf(b)
    ensures a.cols <= b.rows ==> r.Ok?
    ensures r.Err? ==> r.error == InvalidIndex
    ensures r.Ok? ==> Wf(r.value) && r.value.rows == a.rows && r.value.cols == b.cols
  {
    if a.rows > 0 && b.cols > 0 && a.cols > b.rows then Err(InvalidIndex)
    else Ok(Mat(a.rows, b.cols, seq(a.rows, i requires 0 <= i < a.rows =>
              seq(b.cols, j requires 0 <= j < b.cols => Dot(a, b, i, j, a.cols)))))
  }

  /** Multiplying by the identity selects a single term of the sum. */
  lemma {:induction false} DotIdentityRight(a: Mat, i: nat, j: nat, k: nat)
    requires Wf(a) && i < a.rows && j < a.cols && k <= a.cols
    ensures Dot(a, Identity(a.cols), i, j, k) == if j < k then a.cells[i][j] else 0.0
  {
    if k > 0 {
      DotIdentityRight(a, i, j, k - 1);
    }
  }

  lemma {:induction false} DotIdentityLeft(b: Mat, i: nat, j: nat, k: nat)
    requires Wf(b) && i < b.rows && j < b.cols && k <= b.rows
    ensures Dot(Identity(b.rows), b, i, j, k) == if i < k then b.cells[i][j] else 0.0
  {
    if k > 0 {
      DotIdentityLeft(b, i, j, k - 1);
    }
  }

  /** The identity is a unit of the product on both sides. */
  lemma MulIdentity(m: Mat)
    requires Wf(m)
    ensures Mul(m, Identity(m.cols)) == Ok(m)
    ensures Mul(Identity(m.rows), m) == Ok(m)
  {
    var r := Mul(m, Identity(m.cols)).value;
    forall i, j | 0 <= i < m.rows && 0 <= j < m.cols
      ensures r.cells[i][j] == m.cells[i][j]
    {
      DotIdentityRight(m, i, j, m.cols);
    }
    Ext(r, m);
    var l := Mul(Identity(m.rows), m).value;
    forall i, j | 0 <= i < m.rows && 0 <= j < m.cols
      ensures l.cells[i][j] == m.cells[i][j]
    {
      DotIdentityLeft(m, i, j, m.rows);
    }
    Ext(l, m);
  }

  /** The 2x2 case of the determinant, in closed form. */
  lemma DetTwoByTwo(m: Mat)
    requires Wf(m) && m.rows == 2 && m.cols >= 2
    ensures Det(m) == Ok(m.cells[0][0] * m.cells[1][1] - m.cells[1][0] * m.cells[0][1])
  {
    assert Det(m).Ok?;
    assert Det(m).value == m.cells[0][0] * m.cells[1][1] - m.cells[1][0] * m.cells[0][1];
  }

  /** The cofactor-based inverse of an invertible 2x2 matrix in closed form. */
  lemma ReverseTwoByTwoForm(m: Mat)
    requires Wf(m) && m.rows == 2 && m.cols == 2 && IsInvertible(m)
    ensures Det(m).Ok? && Det(m).value != 0.0
    ensures Reverse(m).Ok?
    ensures var inv, f := Reverse(m).value, 1.0 / Det(m).value;
      && Wf(inv) && inv.rows == 2 && inv.cols == 2
      && inv.cells[0][0] == m.cells[1][1] * f && inv.cells[0][1] == -m.cells[0][1] * f
      && inv.cells[1][0] == -m.cells[1][0] * f && inv.cells[1][1] == m.cells[0][0] * f
  {
    var cof := Cofactors(m).value;
    assert Det(Minor(m, 0, 0)).value == m.cells[1][1];
    assert Det(Minor(m, 0, 1)).value == m.cells[1][0];
    assert Det(Minor(m, 1, 0)).value == m.cells[0][1];
    assert Det(Minor(m, 1, 1)).value == m.cells[0][0];
    assert cof.cells[0][1] == -m.cells[1][0] && cof.cells[1][0] == -m.cells[0][1];
  }

  /** The product of two 2x2 matrices in closed form. */
  lemma MulTwoByTwo(a: Mat, b: Mat)
    requires Wf(a) && Wf(b) && a.rows == a.cols == b.rows == b.cols == 2
    ensures Mul(a, b).Ok?
    ensures var p := Mul(a, b).value;
      && Wf(p) && p.rows == 2 && p.cols == 2
      && (forall i, j | 0 <= i < 2 && 0 <= j < 2 ::
            p.cells[i][j] == a.cells[i][0] * b.cells[0][j] + a.cells[i][1] * b.cells[1][j])
  {
    forall i, j | 0 <= i < 2 && 0 <= j < 2
      ensures Dot(a, b, i, j, 2) == a.cells[i][0] * b.cells[0][j] + a.cells[i][1] * b.cells[1][j]
    {
      assert Dot(a, b, i, j, 1) == a.cells[i][0] * b.cells[0][j];
    }
  }

  /** The closed-form 2x2 inverse `f * [[d, -b], [-c, a]]`, with (ad - cb) f = 1,
      is a right inverse. */
  lemma InverseRightTwoByTwo(m: Mat, inv: Mat, f: real)
    requires Wf(m) && m.rows == m.cols == 2 && Wf(inv) && inv.rows == inv.cols == 2
    requires (m.cells[0][0] * m.cells[1][1] - m.cells[1][0] * m.cells[0][1]) * f == 1.0
    requires inv.cells[0][0] == m.cells[1][1] * f && inv.cells[0][1] == -m.cells[0][1] * f
    requires inv.cells[1][0] == -m.cells[1][0] * f && inv.cells[1][1] == m.cells[0][0] * f
    ensures Mul(m, inv) == Ok(Identity(2))
  {
    var a, b, c, d := m.cells[0][0], m.cells[0][1], m.cells[1][0], m.cells[1][1];
    MulTwoByTwo(m, inv);
    var p := Mul(m, inv).value;
    assert p.cells[0][0] == (a * d - c * b) * f;
    assert p.cells[1][1] == (a * d - c * b) * f;
    assert p.cells[0][1] == 0.0 && p.cells[1][0] == 0.0;
    Ext(p, Identity(2));
  }

  /** The same closed form is a left inverse. */
  lemma InverseLeftTwoByTwo(m: Mat, inv: Mat, f: real)
    requires Wf(m) && m.rows == m.cols == 2 && Wf(inv) && inv.rows == inv.cols == 2
    requires (m.cells[0][0] * m.cells[1][1] - m.cells[1][0] * m.cells[0][1]) * f == 1.0
    requires inv.cells[0][0] == m.cells[1][1] * f && inv.cells[0][1] == -m.cells[0][1] * f
    requires inv.cells[1][0] == -m.cells[1][0] * f && inv.cells[1][1] == m.cells[0][0] * f
    ensures Mul(inv, m) == Ok(Identity(2))
  {
    var a, b, c, d := m.cells[0][0], m.cells[0][1], m.cells[1][0], m.cells[1][1];
    MulTwoByTwo(inv, m);
    var q := Mul(inv, m).value;
    assert q.cells[0][0] == (a * d - c * b) * f;
    assert q.cells[1][1] == (a * d - c * b) * f;
    assert q.cells[0][1] == 0.0 && q.cells[1][0] == 0.0;
    Ext(q, Identity(2));
  }

  /** For an invertible 2x2 matrix, `reverse` succeeds and is a two-sided inverse. */
  lemma ReverseTwoByTwo(m: Mat)
    requires Wf(m) && m.rows == 2 && m.cols == 2 && IsInvertible(m)
    ensures Reverse(m).Ok?
    ensures Wf(Reverse(m).value)
    ensures Mul(m, Reverse(m).value) == Ok(Identity(2))
    ensures Mul(Reverse(m).value, m) == Ok(Identity(2))
  {
    ReverseTwoByTwoForm(m);
    DetTwoByTwo(m);
    var det := Det(m).value;
    var f := 1.0 / det;
    assert det * f == 1.0;
    InverseRightTwoByTwo(m, Reverse(m).value, f);
    InverseLeftTwoByTwo(m, Reverse(m).value, f);
  }

  // -------------------------------------------------------------- diagonals

  /** `primaryDiagonal()`: a 1 x n row holding cell (i, i) at column i. */
  function PrimaryDiagonal(m: Mat): (r: Result<Mat>)
    requires Wf(m)
    ensures r.Ok? <==> m.rows == m.cols
    ensures r.Err? ==> r.error == NotSquare
    ensures r.Ok? ==> Wf(r.value) && r.value.rows == 1 && r.value.cols == m.rows
    ensures r.Ok? ==> forall i | 0 <= i < m.rows :: Get(r.value, 0, i) == Get(m, i, i)
  {
    if m.rows != m.cols then Err(NotSquare)
    else Ok(Mat(1, m.rows, [seq(m.rows, i requires 0 <= i < m.rows => m.cells[i][i])]))
  }

  /** `secundaryDiagonal()`: a 1 x n row holding cell (k, n-1-k) at column k. */
  function SecondaryDiagonal(m: Mat): (r: Result<Mat>)
    requires Wf(m)
    ensures r.Ok? <==> m.rows == m.cols
    ensures r.Err? ==> r.error == NotSquare
    ensures r.Ok? ==> Wf(r.value) && r.value.rows == 1 && r.value.cols == m.rows
    ensures r.Ok? ==> forall k | 0 <= k < m.rows :: Get(r.value, 0, k) == Get(m, k, m.rows - 1 - k)
  {
    if m.rows != m.cols then Err(NotSquare)
    else Ok(Mat(1, m.rows, [seq(m.rows, k requires 0 <= k < m.rows => m.cells[k][m.rows - 1 - k])]))
  }

  /** Transposing keeps the primary diagonal and reverses the secondary one. */
  lemma DiagonalsOfTranspose(m: Mat)
    requires Wf(m) && m.rows == m.cols
    ensures PrimaryDiagonal(Transpose(m)) == PrimaryDiagonal(m)
    ensures var s, t := SecondaryDiagonal(m).value, SecondaryDiagonal(Transpose(m)).value;
      forall k | 0 <= k < m.rows :: t.cells[0][k] == s.cells[0][m.rows - 1 - k]
  {
    var p, q := PrimaryDiagonal(Transpose(m)).value, PrimaryDiagonal(m).value;
    assert p.cells[0] == q.cells[0];
    assert p.cells == q.cells;
  }
}
