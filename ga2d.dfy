/** The 2-D geometric algebra: 3 x 3 homogeneous transforms, points and
    vectors. All three are value types; a member that updates one in place
    is modelled as a function returning the updated value. A rotation is
    given by its cosine and sine, (c, s), instead of by an angle. */
module GA2D {
  import Spec = MatrixSpec
  import CivilMatrix

  // ------------------------------------------------------------ Matrix2D

  /** `Matrix2D`: `items[i][j]` is field `aij`. */
  datatype Matrix2D = Matrix2D(
    a00: real, a01: real, a02: real,
    a10: real, a11: real, a12: real,
    a20: real, a21: real, a22: real)

  /** `items[i][j]`. */
  function Item(m: Matrix2D, i: nat, j: nat): real
    requires i < 3 && j < 3
  {
    if i == 0 then (if j == 0 then m.a00 else if j == 1 then m.a01 else m.a02)
    else if i == 1 then (if j == 0 then m.a10 else if j == 1 then m.a11 else m.a12)
    else (if j == 0 then m.a20 else if j == 1 then m.a21 else m.a22)
  }

  /** `M_IDENTITY`. */
  const Identity: Matrix2D := Matrix2D(1.0, 0.0, 0.0, 0.0, 1.0, 0.0, 0.0, 0.0, 1.0)

  /** `M_NULL`. */
  const Null: Matrix2D := Matrix2D(0.0, 0.0, 0.0, 0.0, 0.0, 0.0, 0.0, 0.0, 0.0)

  /** Row i of m times column j of n. */
  function Dot3(m: Matrix2D, n: Matrix2D, i: nat, j: nat): real
    requires i < 3 && j < 3
  {
    Item(m, i, 0) * Item(n, 0, j) + Item(m, i, 1) * Item(n, 1, j) + Item(m, i, 2) * Item(n, 2, j)
  }

  /** The first k terms of `Dot3`, as the innermost loop of `operator*` accumulates them. */
  function PartialDot(m: Matrix2D, n: Matrix2D, i: nat, j: nat, k: nat): real
    requires i < 3 && j < 3 && k <= 3
  {
    if k == 0 then 0.0 else PartialDot(m, n, i, j, k - 1) + Item(m, i, k - 1) * Item(n, k - 1, j)
  }

  lemma PartialDotFull(m: Matrix2D, n: Matrix2D, i: nat, j: nat)
    requires i < 3 && j < 3
    ensures PartialDot(m, n, i, j, 3) == Dot3(m, n, i, j)
  {
    assert PartialDot(m, n, i, j, 1) == Item(m, i, 0) * Item(n, 0, j);
  }

  /** The row-by-column product, cell by cell. */
  function Mul(m: Matrix2D, n: Matrix2D): (r: Matrix2D)
    ensures Affine(m) && Affine(n) ==> Affine(r)
  {
    Matrix2D(
      Dot3(m, n, 0, 0), Dot3(m, n, 0, 1), Dot3(m, n, 0, 2),
      Dot3(m, n, 1, 0), Dot3(m, n, 1, 1), Dot3(m, n, 1, 2),
      Dot3(m, n, 2, 0), Dot3(m, n, 2, 1), Dot3(m, n, 2, 2))
  }

  /** The matrix held in a 3 x 3 buffer. */
  function FromItems(a: array2<real>): (m: Matrix2D)
    reads a
    requires a.Length0 == 3 && a.Length1 == 3
    ensures forall i, j | 0 <= i < 3 && 0 <= j < 3 :: Item(m, i, j) == a[i, j]
  {
    Matrix2D(a[0, 0], a[0, 1], a[0, 2], a[1, 0], a[1, 1], a[1, 2], a[2, 0], a[2, 1], a[2, 2])
  }

  /** `operator*(mat1, mat2)`: the triple loop writing `res.items`. */
  method Product(mat1: Matrix2D, mat2: Matrix2D) returns (res: Matrix2D)
    ensures forall i, j | 0 <= i < 3 && 0 <= j < 3 ::
      Item(res, i, j) == Item(mat1, i, 0) * Item(mat2, 0, j) + Item(mat1, i, 1) * Item(mat2, 1, j)
                         + Item(mat1, i, 2) * Item(mat2, 2, j)
    ensures res == Mul(mat1, mat2)
  {
    var items := new real[3, 3];
    for i := 0 to 3
      invariant forall r, c | 0 <= r < i && 0 <= c < 3 :: items[r, c] == Dot3(mat1, mat2, r, c)
    {
      for j := 0 to 3
        invariant forall r, c | (0 <= r < i && 0 <= c < 3) || (r == i && 0 <= c < j) ::
          items[r, c] == Dot3(mat1, mat2, r, c)
      {
        var dblItem := 0.0;
        for k := 0 to 3
          invariant dblItem == PartialDot(mat1, mat2, i, j, k)
        {
          dblItem := dblItem + Item(mat1, i, k) * Item(mat2, k, j);
        }
        PartialDotFull(mat1, mat2, i, j);
        items[i, j] := dblItem;
      }
    }
    res := FromItems(items);
  }

  /** (x + y + z) w, distributed. */
  lemma DistribRight(x: real, y: real, z: real, w: real)
    ensures (x + y + z) * w == x * w + y * w + z * w
  {
  }

  /** w (x + y + z), distributed. */
  lemma DistribLeft(w: real, x: real, y: real, z: real)
    ensures w * (x + y + z) == w * x + w * y + w * z
  {
  }

  /** One cell of (ab)c against the same cell of a(bc), over the reals:
      both are the sum of the nine products a_l b_lk c_k. */
  lemma {:induction false} SumOfProductsAssoc(a0: real, a1: real, a2: real,
    b00: real, b01: real, b02: real, b10: real, b11: real, b12: real, b20: real, b21: real, b22: real,
    c0: real, c1: real, c2: real)
    ensures (a0 * b00 + a1 * b10 + a2 * b20) * c0 + (a0 * b01 + a1 * b11 + a2 * b21) * c1
          + (a0 * b02 + a1 * b12 + a2 * b22) * c2
         == a0 * (b00 * c0 + b01 * c1 + b02 * c2) + a1 * (b10 * c0 + b11 * c1 + b12 * c2)
          + a2 * (b20 * c0 + b21 * c1 + b22 * c2)
  {
    DistribRight(a0 * b00, a1 * b10, a2 * b20, c0);
    DistribRight(a0 * b01, a1 * b11, a2 * b21, c1);
    DistribRight(a0 * b02, a1 * b12, a2 * b22, c2);
    DistribLeft(a0, b00 * c0, b01 * c1, b02 * c2);
    DistribLeft(a1, b10 * c0, b11 * c1, b12 * c2);
    DistribLeft(a2, b20 * c0, b21 * c1, b22 * c2);
  }

  /** One cell of (ab)c against the same cell of a(bc): (a0, a1, a2) is a
      row of a, (c0, c1, c2) a column of c, ab_k the cells of that row of
      ab and bc_l the cells of that column of bc. */
  lemma CellAssoc(a0: real, a1: real, a2: real, b: Matrix2D, c0: real, c1: real, c2: real,
    ab0: real, ab1: real, ab2: real, bc0: real, bc1: real, bc2: real)
    requires ab0 == a0 * Item(b, 0, 0) + a1 * Item(b, 1, 0) + a2 * Item(b, 2, 0)
    requires ab1 == a0 * Item(b, 0, 1) + a1 * Item(b, 1, 1) + a2 * Item(b, 2, 1)
    requires ab2 == a0 * Item(b, 0, 2) + a1 * Item(b, 1, 2) + a2 * Item(b, 2, 2)
    requires bc0 == Item(b, 0, 0) * c0 + Item(b, 0, 1) * c1 + Item(b, 0, 2) * c2
    requires bc1 == Item(b, 1, 0) * c0 + Item(b, 1, 1) * c1 + Item(b, 1, 2) * c2
    requires bc2 == Item(b, 2, 0) * c0 + Item(b, 2, 1) * c1 + Item(b, 2, 2) * c2
    ensures ab0 * c0 + ab1 * c1 + ab2 * c2 == a0 * bc0 + a1 * bc1 + a2 * bc2
  {
    assert ab0 * c0 == (a0 * Item(b, 0, 0) + a1 * Item(b, 1, 0) + a2 * Item(b, 2, 0)) * c0;
    assert ab1 * c1 == (a0 * Item(b, 0, 1) + a1 * Item(b, 1, 1) + a2 * Item(b, 2, 1)) * c1;
    assert ab2 * c2 == (a0 * Item(b, 0, 2) + a1 * Item(b, 1, 2) + a2 * Item(b, 2, 2)) * c2;
    assert a0 * bc0 == a0 * (Item(b, 0, 0) * c0 + Item(b, 0, 1) * c1 + Item(b, 0, 2) * c2);
    assert a1 * bc1 == a1 * (Item(b, 1, 0) * c0 + Item(b, 1, 1) * c1 + Item(b, 1, 2) * c2);
    assert a2 * bc2 == a2 * (Item(b, 2, 0) * c0 + Item(b, 2, 1) * c1 + Item(b, 2, 2) * c2);
    SumOfProductsAssoc(a0, a1, a2, Item(b, 0, 0), Item(b, 0, 1), Item(b, 0, 2), Item(b, 1, 0), Item(b, 1, 1), Item(b, 1, 2), Item(b, 2, 0), Item(b, 2, 1), Item(b, 2, 2), c0, c1, c2);
  }


  // Associativity, one cell at a time.

  lemma MulAssoc00(a: Matrix2D, b: Matrix2D, c: Matrix2D)
    ensures Mul(Mul(a, b), c).a00 == Mul(a, Mul(b, c)).a00
  {
    var ab, bc := Mul(a, b), Mul(b, c);
    CellAssoc(a.a00, a.a01, a.a02, b, c.a00, c.a10, c.a20, ab.a00, ab.a01, ab.a02, bc.a00, bc.a10, bc.a20);
  }

  lemma MulAssoc01(a: Matrix2D, b: Matrix2D, c: Matrix2D)
    ensures Mul(Mul(a, b), c).a01 == Mul(a, Mul(b, c)).a01
  {
    var ab, bc := Mul(a, b), Mul(b, c);
    CellAssoc(a.a00, a.a01, a.a02, b, c.a01, c.a11, c.a21, ab.a00, ab.a01, ab.a02, bc.a01, bc.a11, bc.a21);
  }

  lemma MulAssoc02(a: Matrix2D, b: Matrix2D, c: Matrix2D)
    ensures Mul(Mul(a, b), c).a02 == Mul(a, Mul(b, c)).a02
  {
    var ab, bc := Mul(a, b), Mul(b, c);
    CellAssoc(a.a00, a.a01, a.a02, b, c.a02, c.a12, c.a22, ab.a00, ab.a01, ab.a02, bc.a02, bc.a12, bc.a22);
  }

  lemma MulAssoc10(a: Matrix2D, b: Matrix2D, c: Matrix2D)
    ensures Mul(Mul(a, b), c).a10 == Mul(a, Mul(b, c)).a10
  {
    var ab, bc := Mul(a, b), Mul(b, c);
    CellAssoc(a.a10, a.a11, a.a12, b, c.a00, c.a10, c.a20, ab.a10, ab.a11, ab.a12, bc.a00, bc.a10, bc.a20);
  }

  lemma MulAssoc11(a: Matrix2D, b: Matrix2D, c: Matrix2D)
    ensures Mul(Mul(a, b), c).a11 == Mul(a, Mul(b, c)).a11
  {
    var ab, bc := Mul(a, b), Mul(b, c);
    CellAssoc(a.a10, a.a11, a.a12, b, c.a01, c.a11, c.a21, ab.a10, ab.a11, ab.a12, bc.a01, bc.a11, bc.a21);
  }

  lemma MulAssoc12(a: Matrix2D, b: Matrix2D, c: Matrix2D)
    ensures Mul(Mul(a, b), c).a12 == Mul(a, Mul(b, c)).a12
  {
    var ab, bc := Mul(a, b), Mul(b, c);
    CellAssoc(a.a10, a.a11, a.a12, b, c.a02, c.a12, c.a22, ab.a10, ab.a11, ab.a12, bc.a02, bc.a12, bc.a22);
  }

  lemma MulAssoc20(a: Matrix2D, b: Matrix2D, c: Matrix2D)
    ensures Mul(Mul(a, b), c).a20 == Mul(a, Mul(b, c)).a20
  {
    var ab, bc := Mul(a, b), Mul(b, c);
    CellAssoc(a.a20, a.a21, a.a22, b, c.a00, c.a10, c.a20, ab.a20, ab.a21, ab.a22, bc.a00, bc.a10, bc.a20);
  }

  lemma MulAssoc21(a: Matrix2D, b: Matrix2D, c: Matrix2D)
    ensures Mul(Mul(a, b), c).a21 == Mul(a, Mul(b, c)).a21
  {
    var ab, bc := Mul(a, b), Mul(b, c);
    CellAssoc(a.a20, a.a21, a.a22, b, c.a01, c.a11, c.a21, ab.a20, ab.a21, ab.a22, bc.a01, bc.a11, bc.a21);
  }

  lemma MulAssoc22(a: Matrix2D, b: Matrix2D, c: Matrix2D)
    ensures Mul(Mul(a, b), c).a22 == Mul(a, Mul(b, c)).a22
  {
    var ab, bc := Mul(a, b), Mul(b, c);
    CellAssoc(a.a20, a.a21, a.a22, b, c.a02, c.a12, c.a22, ab.a20, ab.a21, ab.a22, bc.a02, bc.a12, bc.a22);
  }

  /** The product is associative. */
  lemma MulAssoc(a: Matrix2D, b: Matrix2D, c: Matrix2D)
    ensures Mul(Mul(a, b), c) == Mul(a, Mul(b, c))
  {
    MulAssoc00(a, b, c);
    MulAssoc01(a, b, c);
    MulAssoc02(a, b, c);
    MulAssoc10(a, b, c);
    MulAssoc11(a, b, c);
    MulAssoc12(a, b, c);
    MulAssoc20(a, b, c);
    MulAssoc21(a, b, c);
    MulAssoc22(a, b, c);
  }

  /** `M_IDENTITY` is a unit on both sides and `M_NULL` absorbs. */
  lemma MulIdentity(m: Matrix2D)
    ensures Mul(Identity, m) == m && Mul(m, Identity) == m
    ensures Mul(Null, m) == Null && Mul(m, Null) == Null
  {
  }

  /** Bottom row [0, 0, 1]: the matrix is an affine map of the plane. */
  predicate Affine(m: Matrix2D)
  {
    m.a20 == 0.0 && m.a21 == 0.0 && m.a22 == 1.0
  }

  /** Affine maps are closed under the product. */
  lemma AffineMul(m: Matrix2D, n: Matrix2D)
    requires Affine(m) && Affine(n)
    ensures Affine(Mul(m, n))
  {
  }

  // ----------------------------------------------------------- factories

  /** `translation(x, y)`: `M_IDENTITY` with `items[0][2] = x`, `items[1][2] = y`. */
  function Translation(x: real, y: real): (m: Matrix2D)
    ensures Affine(m)
  {
    Identity.(a02 := x, a12 := y)
  }

  /** Consecutive translations add up. */
  lemma TranslationCompose(a: real, b: real, c: real, d: real)
    ensures Mul(Translation(a, b), Translation(c, d)) == Translation(a + c, b + d)
  {
  }

  /** `translation(x, y) * translation(-x, -y)` is the identity, in both orders. */
  lemma TranslationInverse(x: real, y: real)
    ensures Mul(Translation(x, y), Translation(-x, -y)) == Identity
    ensures Mul(Translation(-x, -y), Translation(x, y)) == Identity
  {
    TranslationCompose(x, y, -x, -y);
    TranslationCompose(-x, -y, x, y);
  }

  /** `rotation(ang)` with c = cos(ang) and s = sin(ang). */
  function Rotation(c: real, s: real): (m: Matrix2D)
    ensures Affine(m)
  {
    Identity.(a00 := c, a01 := -s, a10 := s, a11 := c)
  }

  /** With c^2 + s^2 = 1, `rotation(-ang)` (cosine c, sine -s) undoes `rotation(ang)`. */
  lemma RotationInverse(c: real, s: real)
    requires c * c + s * s == 1.0
    ensures Mul(Rotation(c, -s), Rotation(c, s)) == Identity
    ensures Mul(Rotation(c, s), Rotation(c, -s)) == Identity
  {
    assert c * c + -s * -s == 1.0 && -s * -s == s * s;
    assert c * -s + s * c == 0.0 && -s * c + c * s == 0.0;
  }

  /** `rotation(ang, xRef, yRef)`: translate, rotate, translate back. */
  function RotationAbout(c: real, s: real, xRef: real, yRef: real): (m: Matrix2D)
    ensures Affine(m)
  {
    Mul(Mul(Translation(xRef, yRef), Rotation(c, s)), Translation(-xRef, -yRef))
  }

  /** `scale(xFactor, yFactor)` as written: `items[1][1] = xFactor` and
      `items[2][2] = yFactor`, so `items[0][0]` stays 1. */
  function ScaleAsWritten(xFactor: real, yFactor: real): (m: Matrix2D)
    ensures m.a00 == 1.0
    ensures Affine(m) <==> yFactor == 1.0
  {
    Identity.(a11 := xFactor, a22 := yFactor)
  }

  /** `scale(xFactor, yFactor, xRef, yRef)` as written: translate, the
      as-written scale, translate back. Its homogeneous row ends in `yFactor`,
      so it is an affine matrix only when `yFactor` is 1. */
  function ScaleAboutAsWritten(xFactor: real, yFactor: real, xRef: real, yRef: real): (m: Matrix2D)
    ensures m.a20 == 0.0 && m.a21 == 0.0 && m.a22 == yFactor
    ensures Affine(m) <==> yFactor == 1.0
  {
    Mul(Mul(Translation(xRef, yRef), ScaleAsWritten(xFactor, yFactor)), Translation(-xRef, -yRef))
  }

  /** The as-written scale leaves x alone and scales y by `xFactor`; the
      reference-point form built on it sends its own reference point to
      `yFactor` times that point, so it stays put only when `yFactor` is 1
      (or the point is the origin). */
  lemma ScaleAsWrittenMisplaced(xFactor: real, yFactor: real, xRef: real, yRef: real, p: Point2D)
    ensures Transform(p, ScaleAsWritten(xFactor, yFactor)) == Point2D(p.x, xFactor * p.y)
    ensures Transform(Point2D(xRef, yRef), ScaleAboutAsWritten(xFactor, yFactor, xRef, yRef))
      == Point2D(yFactor * xRef, yFactor * yRef)
  {
    var ts := Mul(Translation(xRef, yRef), ScaleAsWritten(xFactor, yFactor));
    assert ts == Matrix2D(1.0, 0.0, xRef * yFactor, 0.0, xFactor, yRef * yFactor, 0.0, 0.0, yFactor);
    TransformMul(Point2D(xRef, yRef), ts, Translation(-xRef, -yRef));
    TransformTranslation(Point2D(xRef, yRef), -xRef, -yRef);
  }

  /** `scale(xFactor, yFactor)` as evidently intended: the factors on `items[0][0]` and `items[1][1]`. */
  function Scale(xFactor: real, yFactor: real): (m: Matrix2D)
    ensures Affine(m)
  {
    Identity.(a00 := xFactor, a11 := yFactor)
  }

  /** The corrected scale multiplies each coordinate by its own factor. */
  lemma ScaleScales(xFactor: real, yFactor: real, p: Point2D)
    ensures Transform(p, Scale(xFactor, yFactor)) == Point2D(xFactor * p.x, yFactor * p.y)
  {
  }

  /** `scale(xFactor, yFactor, xRef, yRef)` as evidently intended: translate,
      the corrected scale, translate back. */
  function ScaleAbout(xFactor: real, yFactor: real, xRef: real, yRef: real): (m: Matrix2D)
    ensures Affine(m)
  {
    Mul(Mul(Translation(xRef, yRef), Scale(xFactor, yFactor)), Translation(-xRef, -yRef))
  }

  /** The reference point of a (corrected) scale stays where it is, and
      every other point moves away from it by the factors. */
  lemma ScaleAboutFixesReference(xFactor: real, yFactor: real, xRef: real, yRef: real, p: Point2D)
    ensures Transform(Point2D(xRef, yRef), ScaleAbout(xFactor, yFactor, xRef, yRef)) == Point2D(xRef, yRef)
    ensures Transform(p, ScaleAbout(xFactor, yFactor, xRef, yRef))
         == Point2D(xRef + xFactor * (p.x - xRef), yRef + yFactor * (p.y - yRef))
  {
    var m := ScaleAbout(xFactor, yFactor, xRef, yRef);
    assert m == Matrix2D(xFactor, 0.0, xRef - xFactor * xRef, 0.0, yFactor, yRef - yFactor * yRef, 0.0, 0.0, 1.0);
  }

  /** `operator Matrix<double>()`: a 3 x 3 bounded matrix filled with `setItem`. */
  method ToMatrix(m: Matrix2D) returns (mat: CivilMatrix.Matrix)
    ensures fresh(mat) && fresh(mat.items) && mat.Valid()
    ensures mat.View().rows == 3 && mat.View().cols == 3
    ensures forall i, j | 0 <= i < 3 && 0 <= j < 3 :: mat.View().cells[i][j] == Item(m, i, j)
  {
    mat := new CivilMatrix.Matrix(3, 3);
    for i := 0 to 3
      invariant fresh(mat) && fresh(mat.items) && mat.Valid() && mat.rowCount == 3 && mat.colCount == 3
      invariant forall r, c | 0 <= r < i && 0 <= c < 3 :: mat.items[r, c] == Item(m, r, c)
    {
      for j := 0 to 3
        invariant fresh(mat) && fresh(mat.items) && mat.Valid() && mat.rowCount == 3 && mat.colCount == 3
        invariant forall r, c | (0 <= r < i && 0 <= c < 3) || (r == i && 0 <= c < j) :: mat.items[r, c] == Item(m, r, c)
      {
        var _ := mat.SetItem(i, j, Item(m, i, j));
      }
    }
  }

  // ------------------------------------------------------------- Point2D

  datatype Point2D = Point2D(x: real, y: real)

  /** `quadrant()`: 1 to 4, counter-clockwise from x > 0, y > 0; a point on
      an axis counts as lying on the `<= 0` side. */
  function Quadrant(p: Point2D): (q: int)
    ensures 1 <= q <= 4
    ensures q <= 2 <==> p.y > 0.0
    ensures (q == 1 || q == 4) <==> p.x > 0.0
  {
    if p.y > 0.0 then (if p.x <= 0.0 then 2 else 1)
    else (if p.x <= 0.0 then 3 else 4)
  }

  /** `transform(mat)`: the point as the translation column of `M_IDENTITY`,
      multiplied on the left by `mat`, read back from that column. */
  function Transform(p: Point2D, mat: Matrix2D): (r: Point2D)
    ensures r == Point2D(mat.a00 * p.x + mat.a01 * p.y + mat.a02, mat.a10 * p.x + mat.a11 * p.y + mat.a12)
  {
    var mPnt := Mul(mat, Identity.(a02 := p.x, a12 := p.y));
    Point2D(mPnt.a02, mPnt.a12)
  }

  /** `translation(3, 4)` maps (1, 1) to (4, 5). */
  lemma TranslationExample()
    ensures Transform(Point2D(1.0, 1.0), Translation(3.0, 4.0)) == Point2D(4.0, 5.0)
  {
    TransformTranslation(Point2D(1.0, 1.0), 3.0, 4.0);
  }

  /** A translation adds its offsets. */
  lemma TransformTranslation(p: Point2D, a: real, b: real)
    ensures Transform(p, Translation(a, b)) == Point2D(p.x + a, p.y + b)
  {
  }

  /** Transforming by a product applies the right factor first, provided
      that factor is affine. */
  lemma TransformMul(p: Point2D, m: Matrix2D, n: Matrix2D)
    requires Affine(n)
    ensures Transform(p, Mul(m, n)) == Transform(Transform(p, n), m)
  {
    var mn, q := Mul(m, n), Transform(p, n);
    AffineRow(m.a00, m.a01, m.a02, n, p.x, p.y, mn.a00, mn.a01, mn.a02, q.x, q.y);
    AffineRow(m.a10, m.a11, m.a12, n, p.x, p.y, mn.a10, mn.a11, mn.a12, q.x, q.y);
    assert Transform(p, mn) == Point2D(mn.a00 * p.x + mn.a01 * p.y + mn.a02, mn.a10 * p.x + mn.a11 * p.y + mn.a12);
    assert Transform(q, m) == Point2D(m.a00 * q.x + m.a01 * q.y + m.a02, m.a10 * q.x + m.a11 * q.y + m.a12);
  }

  /** A row (r0, r1, r2) of the left factor, applied through an affine right
      factor n: (u0, u1, u2) is that row of the product and (qx, qy) the
      point (x, y) transformed by n. */
  lemma AffineRow(r0: real, r1: real, r2: real, n: Matrix2D, x: real, y: real,
    u0: real, u1: real, u2: real, qx: real, qy: real)
    requires Affine(n)
    requires u0 == r0 * n.a00 + r1 * n.a10 + r2 * n.a20
    requires u1 == r0 * n.a01 + r1 * n.a11 + r2 * n.a21
    requires u2 == r0 * n.a02 + r1 * n.a12 + r2 * n.a22
    requires qx == n.a00 * x + n.a01 * y + n.a02 && qy == n.a10 * x + n.a11 * y + n.a12
    ensures u0 * x + u1 * y + u2 == r0 * qx + r1 * qy + r2
  {
    assert u0 * x == (r0 * n.a00 + r1 * n.a10) * x;
    assert u1 * y == (r0 * n.a01 + r1 * n.a11) * y;
    assert r0 * qx == r0 * (n.a00 * x + n.a01 * y + n.a02);
    assert r1 * qy == r1 * (n.a10 * x + n.a11 * y + n.a12);
  }

  /** The reference point of `rotation(ang, xRef, yRef)` stays where it is. */
  lemma RotationAboutFixesReference(c: real, s: real, xRef: real, yRef: real)
    ensures Transform(Point2D(xRef, yRef), RotationAbout(c, s, xRef, yRef)) == Point2D(xRef, yRef)
  {
    var ref := Point2D(xRef, yRef);
    TransformMul(ref, Mul(Translation(xRef, yRef), Rotation(c, s)), Translation(-xRef, -yRef));
    TransformMul(Point2D(0.0, 0.0), Translation(xRef, yRef), Rotation(c, s));
  }

  /** `vectorProduct(pnt)`: the z component of the cross product. */
  function VectorProduct(p: Point2D, q: Point2D): (r: real)
    ensures p == q ==> r == 0.0
    ensures p == Point2D(0.0, 0.0) || q == Point2D(0.0, 0.0) ==> r == 0.0
  {
    p.x * q.y - q.x * p.y
  }

  /** The cross product is antisymmetric, zero for a point with itself, and
      zero against any multiple of the point. */
  lemma VectorProductAntisymmetric(p: Point2D, q: Point2D, t: real)
    ensures VectorProduct(p, q) == -VectorProduct(q, p)
    ensures VectorProduct(p, p) == 0.0
    ensures VectorProduct(p, TimesScalar(p, t)) == 0.0
  {
    assert p.x * (p.y * t) == (p.x * t) * p.y;
  }

  /** `pnt1 + pnt2`, undone by `-`. */
  function Plus(p: Point2D, q: Point2D): (r: Point2D)
    ensures Minus(r, q) == p && Minus(r, p) == q
  {
    Point2D(p.x + q.x, p.y + q.y)
  }

  /** `pnt + value`, undone by `- value`. */
  function PlusScalar(p: Point2D, value: real): (r: Point2D)
    ensures MinusScalar(r, value) == p
  {
    Point2D(p.x + value, p.y + value)
  }

  /** `pnt1 - pnt2`: the offset that takes `pnt2` to `pnt1`. */
  function Minus(p: Point2D, q: Point2D): (r: Point2D)
    ensures r.x + q.x == p.x && r.y + q.y == p.y
  {
    Point2D(p.x - q.x, p.y - q.y)
  }

  /** `pnt - value`: the point that `+ value` takes back to `pnt`. */
  function MinusScalar(p: Point2D, value: real): (r: Point2D)
    ensures r.x + value == p.x && r.y + value == p.y
  {
    Point2D(p.x - value, p.y - value)
  }

  /** `pnt1 * pnt2`, coordinate by coordinate, undone by `/` for non-zero coordinates. */
  function Times(p: Point2D, q: Point2D): (r: Point2D)
    ensures q.x != 0.0 && q.y != 0.0 ==> Div(r, q) == p
  {
    Point2D(p.x * q.x, p.y * q.y)
  }

  /** `pnt * value`, undone by `/ value` for a non-zero value. */
  function TimesScalar(p: Point2D, value: real): (r: Point2D)
    ensures value != 0.0 ==> DivScalar(r, value) == p
  {
    Point2D(p.x * value, p.y * value)
  }

  /** `operator*(value, pnt)` forwards to `operator*(pnt, value)`. */
  function ScalarTimes(value: real, p: Point2D): (r: Point2D)
    ensures r == Point2D(value * p.x, value * p.y)
  {
    TimesScalar(p, value)
  }

  /** `pnt1 / pnt2`, coordinate by coordinate. */
  function Div(p: Point2D, q: Point2D): (r: Point2D)
    requires q.x != 0.0 && q.y != 0.0
    ensures r.x * q.x == p.x && r.y * q.y == p.y
  {
    Point2D(p.x / q.x, p.y / q.y)
  }

  /** `pnt / value`. */
  function DivScalar(p: Point2D, value: real): (r: Point2D)
    requires value != 0.0
    ensures r.x * value == p.x && r.y * value == p.y
  {
    Point2D(p.x / value, p.y / value)
  }

  /** `operator/(value, pnt)` forwards to `operator/(pnt, value)`: it divides the point by the value. */
  function ScalarDiv(value: real, p: Point2D): (r: Point2D)
    requires value != 0.0
    ensures r.x * value == p.x && r.y * value == p.y
  {
    DivScalar(p, value)
  }

  /** The point operators undo each other and `+` commutes. */
  lemma PointOperatorsInverse(p: Point2D, q: Point2D, v: real)
    ensures Minus(Plus(p, q), q) == p && Plus(Minus(p, q), q) == p
    ensures MinusScalar(PlusScalar(p, v), v) == p
    ensures Plus(p, q) == Plus(q, p)
    ensures Minus(p, p) == Point2D(0.0, 0.0)
    ensures v != 0.0 ==> DivScalar(TimesScalar(p, v), v) == p
    ensures q.x != 0.0 && q.y != 0.0 ==> Div(Times(p, q), q) == p
  {
  }

  // ----------------------------------------------------------- sign, side

  /** `sign(num)`: `(0 < num) - (num < 0)`. */
  function Sign(num: real): (r: int)
    ensures r == 1 || r == 0 || r == -1
    ensures r == 1 <==> num > 0.0
    ensures r == -1 <==> num < 0.0
  {
    (if 0.0 < num then 1 else 0) - (if num < 0.0 then 1 else 0)
  }

  /** The sign of a negated number is the negated sign. */
  lemma SignNeg(num: real)
    ensures Sign(-num) == -Sign(num)
  {
  }

  /** `SideEnum`: `sLeft = 1`, `sOver = 0`, `sRight = -1`. */
  datatype Side = Left | Over | Right

  /** The cast `(SideEnum)` of a sign. */
  function SideOf(sign: int): (s: Side)
    requires sign == 1 || sign == 0 || sign == -1
    ensures s == Left <==> sign == 1
    ensures s == Right <==> sign == -1
  {
    if sign == 1 then Left else if sign == 0 then Over else Right
  }

  function Opposite(s: Side): Side
  {
    match s
    case Left => Right
    case Over => Over
    case Right => Left
  }

  // ------------------------------------------------------------ Vector2D

  /** `Vector2D`: from `pnt1` to `pnt2`. The anonymous union makes `x1`,
      `y1`, `x2`, `y2` the coordinates of the two points. */
  datatype Vector2D = Vector2D(pnt1: Point2D, pnt2: Point2D)

  /** `Vector2D(x1, y1, x2, y2)`. */
  function FromCoords(x1: real, y1: real, x2: real, y2: real): Vector2D
  {
    Vector2D(Point2D(x1, y1), Point2D(x2, y2))
  }

  /** The displacement `pnt2 - pnt1`. */
  function Delta(v: Vector2D): Point2D
  {
    Minus(v.pnt2, v.pnt1)
  }

  /** `transform(mat)`: both points transformed. */
  function TransformVector(v: Vector2D, mat: Matrix2D): (r: Vector2D)
    ensures r.pnt1 == Transform(v.pnt1, mat) && r.pnt2 == Transform(v.pnt2, mat)
  {
    Vector2D(Transform(v.pnt1, mat), Transform(v.pnt2, mat))
  }

  /** `reverse()`: the same points, swapped. */
  function Reverse(v: Vector2D): (r: Vector2D)
    ensures Delta(r) == Minus(Point2D(0.0, 0.0), Delta(v))
  {
    FromCoords(v.pnt2.x, v.pnt2.y, v.pnt1.x, v.pnt1.y)
  }

  /** `midPoint()`: `(pnt2 + pnt1) / 2`, which lies as far from `pnt1` as from `pnt2`. */
  function MidPoint(v: Vector2D): (m: Point2D)
    ensures Minus(m, v.pnt1) == Minus(v.pnt2, m)
  {
    DivScalar(Plus(v.pnt2, v.pnt1), 2.0)
  }

  /** Reversing twice gives back the vector, and reversing keeps the midpoint. */
  lemma ReverseInvolution(v: Vector2D)
    ensures Reverse(Reverse(v)) == v
    ensures MidPoint(Reverse(v)) == MidPoint(v)
  {
  }

  /** `side(pnt)`: the sign of `(pnt2 - pnt1) x (pnt - pnt1)`; `Left` is counter-clockwise. */
  function SideOfPoint(v: Vector2D, p: Point2D): (s: Side)
    ensures s == Left <==> VectorProduct(Delta(v), Minus(p, v.pnt1)) > 0.0
    ensures s == Right <==> VectorProduct(Delta(v), Minus(p, v.pnt1)) < 0.0
  {
    SideOf(Sign(VectorProduct(Minus(v.pnt2, v.pnt1), Minus(p, v.pnt1))))
  }

  /** Both end points lie on the vector's line. */
  lemma SideOfEndpoints(v: Vector2D)
    ensures SideOfPoint(v, v.pnt1) == Over
    ensures SideOfPoint(v, v.pnt2) == Over
  {
    VectorProductAntisymmetric(Delta(v), Delta(v), 1.0);
  }

  /** Reversing the vector swaps left and right. */
  lemma SideOfReverse(v: Vector2D, p: Point2D)
    ensures SideOfPoint(Reverse(v), p) == Opposite(SideOfPoint(v, p))
  {
    var u, w := Delta(v), Minus(p, v.pnt1);
    assert VectorProduct(Delta(Reverse(v)), Minus(p, v.pnt2)) == -VectorProduct(u, w) by {
      assert Minus(p, v.pnt2) == Minus(w, u);
      assert VectorProduct(Minus(Point2D(0.0, 0.0), u), Minus(w, u))
          == -(u.x * w.y - w.x * u.y) + (u.x * u.y - u.x * u.y);
    }
  }

  /** `moveTo(pnt)`: translate the vector so that `pnt1` lands on `pnt`;
      the displacement is kept. */
  function MoveTo(v: Vector2D, p: Point2D): (r: Vector2D)
    ensures r.pnt1 == p && Delta(r) == Delta(v)
  {
    var d := Minus(p, v.pnt1);
    TransformTranslation(v.pnt1, d.x, d.y);
    TransformTranslation(v.pnt2, d.x, d.y);
    TransformVector(v, Translation(d.x, d.y))
  }

  /** `moveTo(x, y)`. */
  function MoveToXY(v: Vector2D, x: real, y: real): (r: Vector2D)
    ensures r == MoveTo(v, Point2D(x, y))
  {
    var d := Point2D(x - v.pnt1.x, y - v.pnt1.y);
    TransformVector(v, Translation(d.x, d.y))
  }

  /** `vtr1 + vtr2`: `vtr2` moved to the head of `vtr1`; the sum runs from
      the tail of `vtr1` and its displacement is the sum of the two. */
  function VectorPlus(v1: Vector2D, v2: Vector2D): (r: Vector2D)
    ensures r.pnt1 == v1.pnt1 && Delta(r) == Plus(Delta(v1), Delta(v2))
  {
    var v := MoveTo(v2, v1.pnt2);
    Vector2D(v1.pnt1, v.pnt2)
  }

  /** `vtr1 - vtr2`: from the head of `vtr2` to the head of `vtr1`. */
  function VectorMinus(v1: Vector2D, v2: Vector2D): (r: Vector2D)
    ensures r.pnt1 == v2.pnt2 && Plus(v2.pnt2, Delta(r)) == v1.pnt2
  {
    Vector2D(v2.pnt2, v1.pnt2)
  }

  /** For two vectors from the same tail, `vtr2 + (vtr1 - vtr2)` is `vtr1`. */
  lemma VectorMinusCompletes(v1: Vector2D, v2: Vector2D)
    requires v1.pnt1 == v2.pnt1
    ensures VectorPlus(v2, VectorMinus(v1, v2)) == v1
  {
  }
}
