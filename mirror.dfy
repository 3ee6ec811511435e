/** `Matrix2D::mirror`: the reflection across the line through two points,
    built as the conjugation chain T R F R' T' of the reflection F about the
    x-axis. The distance between the points, which the source computes with
    `sqrt`, is a parameter `d` with d >= 0 and d^2 = dx^2 + dy^2; the angle the
    source computes with `acos` is represented by its cosine and sine. */
module GA2DMirror {
  import opened Errors
  import opened GA2D

  /** `_mat`: `M_IDENTITY` with `items[1][1] = -1`, the reflection about the x-axis. */
  const Flip: Matrix2D := Identity.(a11 := -1.0)

  /** `translation(tx, ty) * rotation(ang) * _mat * rotation(-ang) * translation(-tx, -ty)`,
      multiplied left to right as the successive `*=` do, with (c, s) the
      cosine and sine of `ang`. */
  function Chain(tx: real, ty: real, c: real, s: real): (m: Matrix2D)
    ensures Affine(m)
  {
    AffineMul(Translation(tx, ty), Rotation(c, s));
    AffineMul(Mul(Translation(tx, ty), Rotation(c, s)), Flip);
    AffineMul(Mul(Mul(Translation(tx, ty), Rotation(c, s)), Flip), Rotation(c, -s));
    AffineMul(Mul(Mul(Mul(Translation(tx, ty), Rotation(c, s)), Flip), Rotation(c, -s)), Translation(-tx, -ty));
    Mul(Mul(Mul(Mul(Translation(tx, ty), Rotation(c, s)), Flip), Rotation(c, -s)), Translation(-tx, -ty))
  }

  /** The reflection with axis direction (c, s) through (tx, ty), in closed
      form: linear part [[c^2 - s^2, 2cs], [2cs, s^2 - c^2]] and the offset
      that keeps (tx, ty) in place. */
  function Reflection(tx: real, ty: real, c: real, s: real): Matrix2D
  {
    var a, b := c * c - s * s, 2.0 * c * s;
    Matrix2D(a, b, tx - a * tx - b * ty, b, -a, ty - b * tx + a * ty, 0.0, 0.0, 1.0)
  }

  /** The chain multiplies out to the closed form, for any (c, s). */
  lemma ChainClosedForm(tx: real, ty: real, c: real, s: real)
    ensures Chain(tx, ty, c, s) == Reflection(tx, ty, c, s)
  {
    var a, b := c * c - s * s, 2.0 * c * s;
    var tr := Mul(Translation(tx, ty), Rotation(c, s));
    assert tr == Matrix2D(c, -s, tx, s, c, ty, 0.0, 0.0, 1.0);
    var trf := Mul(tr, Flip);
    assert trf == Matrix2D(c, s, tx, s, -c, ty, 0.0, 0.0, 1.0);
    var trfr := Mul(trf, Rotation(c, -s));
    assert trfr == Matrix2D(a, b, tx, b, -a, ty, 0.0, 0.0, 1.0);
    assert Mul(trfr, Translation(-tx, -ty)) == Reflection(tx, ty, c, s);
  }

  /** (c^2 - s^2)^2 + (2cs)^2 = (c^2 + s^2)^2. */
  lemma {:induction false} SquaresOfDoubleAngle(c: real, s: real)
    ensures (c * c - s * s) * (c * c - s * s) + (2.0 * c * s) * (2.0 * c * s) == (c * c + s * s) * (c * c + s * s)
  {
    var p, q := c * c, s * s;
    assert (2.0 * c * s) * (2.0 * c * s) == 4.0 * (p * q);
    assert (p - q) * (p - q) == p * p - 2.0 * (p * q) + q * q;
    assert (p + q) * (p + q) == p * p + 2.0 * (p * q) + q * q;
  }

  /** With c^2 + s^2 = 1 the chain is an involution: mirroring twice is the identity. */
  lemma ChainInvolution(tx: real, ty: real, c: real, s: real)
    requires c * c + s * s == 1.0
    ensures Mul(Chain(tx, ty, c, s), Chain(tx, ty, c, s)) == Identity
  {
    ReflectionInvolution(tx, ty, c, s);
    ChainClosedForm(tx, ty, c, s);
  }

  /** The closed form squares to the identity when (c, s) is a unit vector. */
  lemma ReflectionInvolution(tx: real, ty: real, c: real, s: real)
    requires c * c + s * s == 1.0
    ensures Mul(Reflection(tx, ty, c, s), Reflection(tx, ty, c, s)) == Identity
  {
    var a, b := c * c - s * s, 2.0 * c * s;
    SquaresOfDoubleAngle(c, s);
    MulEqual(c * c + s * s, 1.0, c * c + s * s, 1.0);
    var e, f := tx - a * tx - b * ty, ty - b * tx + a * ty;
    assert a * e + b * f + e == (1.0 - (a * a + b * b)) * tx;
    assert b * e - a * f + f == (1.0 - (a * a + b * b)) * ty;
    SymmetricSquare(a, b, e, f);
  }

  /** [[a, b, e], [b, -a, f], [0, 0, 1]] squares to the identity when
      a^2 + b^2 = 1 and (e, f) is fixed by the linear part negated. */
  lemma SymmetricSquare(a: real, b: real, e: real, f: real)
    requires a * a + b * b == 1.0
    requires a * e + b * f + e == 0.0 && b * e - a * f + f == 0.0
    ensures Mul(Matrix2D(a, b, e, b, -a, f, 0.0, 0.0, 1.0), Matrix2D(a, b, e, b, -a, f, 0.0, 0.0, 1.0)) == Identity
  {
  }

  /** With c^2 + s^2 = 1 every point (px, py) = (tx, ty) + k (c, s) of the
      line through (tx, ty) with direction (c, s) is a fixed point of the chain. */
  lemma ChainFixesLine(tx: real, ty: real, c: real, s: real, k: real, px: real, py: real)
    requires c * c + s * s == 1.0
    requires px == tx + k * c && py == ty + k * s
    ensures Transform(Point2D(px, py), Chain(tx, ty, c, s)) == Point2D(px, py)
  {
    var a, b := c * c - s * s, 2.0 * c * s;
    LineFixed(tx, ty, c, s, k, px, py, a, b);
    ChainClosedForm(tx, ty, c, s);
  }

  /** The closed form's entries applied to a point of the line give the point back. */
  lemma LineFixed(tx: real, ty: real, c: real, s: real, k: real, px: real, py: real, a: real, b: real)
    requires c * c + s * s == 1.0
    requires px == tx + k * c && py == ty + k * s
    requires a == c * c - s * s && b == 2.0 * c * s
    ensures a * px + b * py + (tx - a * tx - b * ty) == px
    ensures b * px + -a * py + (ty - b * tx + a * ty) == py
  {
    var u, v := px - tx, py - ty;
    assert a * px + b * py + (tx - a * tx - b * ty) == tx + (a * u + b * v);
    assert b * px + -a * py + (ty - b * tx + a * ty) == ty + (b * u - a * v);
    MulEqual(a, a, u, k * c);
    MulEqual(b, b, v, k * s);
    MulEqual(b, b, u, k * c);
    MulEqual(a, a, v, k * s);
    assert a * (k * c) + b * (k * s) == (k * c) * (c * c + s * s);
    assert b * (k * c) - a * (k * s) == (k * s) * (c * c + s * s);
    MulEqual(k * c, k * c, c * c + s * s, 1.0);
    MulEqual(k * s, k * s, c * c + s * s, 1.0);
  }

  /** The cosine and sine of `angleAxeX(x, y)` as written: the angle is
      `acos(x / d)`, in [0, pi], plus 180 degrees when y < 0, and 0 when d = 0.
      Adding 180 degrees negates both cosine and sine, so for y < 0 the
      direction is (-x / d, y / d). */
  function AxisDirectionAsWritten(x: real, y: real, d: real): (u: Point2D)
    requires d >= 0.0 && d * d == x * x + y * y
    ensures d > 0.0 ==> u.x * u.x + u.y * u.y == 1.0
    ensures d > 0.0 && y >= 0.0 ==> u.x * d == x && u.y * d == y
    ensures d > 0.0 && y < 0.0 ==> u.x * d == -x && u.y * d == y
  {
    if d == 0.0 then Point2D(1.0, 0.0)
    else if y < 0.0 then
      assert (-x) * (-x) == x * x;
      UnitDirection(-x, y, d);
      Point2D(-x / d, y / d)
    else
      UnitDirection(x, y, d);
      Point2D(x / d, y / d)
  }

  /** The direction of (x, y) as evidently intended: (x / d, y / d), so that
      the angle's cosine and sine point along (x, y). */
  function AxisDirection(x: real, y: real, d: real): (u: Point2D)
    requires d > 0.0 && d * d == x * x + y * y
    ensures u.x * u.x + u.y * u.y == 1.0
    ensures u.x * d == x && u.y * d == y
  {
    UnitDirection(x, y, d);
    Point2D(x / d, y / d)
  }

  /** (x / d, y / d) is a unit vector when d^2 = x^2 + y^2. */
  lemma UnitDirection(x: real, y: real, d: real)
    requires d > 0.0 && d * d == x * x + y * y
    ensures (x / d) * (x / d) + (y / d) * (y / d) == 1.0
    ensures (x / d) * d == x && (y / d) * d == y
  {
    assert (x / d) * d == x && (y / d) * d == y;
    Unit(x, y, d, x / d, y / d);
  }

  /** p d = x and q d = y with d^2 = x^2 + y^2, d > 0: (p, q) is a unit vector. */
  lemma Unit(x: real, y: real, d: real, p: real, q: real)
    requires d > 0.0 && d * d == x * x + y * y && p * d == x && q * d == y
    ensures p * p + q * q == 1.0
  {
    MulEqual(p * d, x, p * d, x);
    MulEqual(q * d, y, q * d, y);
    assert (p * d) * (p * d) == (p * p) * (d * d);
    assert (q * d) * (q * d) == (q * q) * (d * d);
    Square(d);
    SumOfParts(p * p, q * q, d * d, x * x, y * y);
  }

  /** Equals multiplied by equals are equal. */
  lemma MulEqual(a: real, b: real, c: real, e: real)
    requires a == b && c == e
    ensures a * c == b * e
  {
  }

  /** Shares a t = x and b t = y of a non-zero whole t = x + y add up to one. */
  lemma SumOfParts(a: real, b: real, t: real, x: real, y: real)
    requires t != 0.0 && a * t == x && b * t == y && t == x + y
    ensures a + b == 1.0
  {
    assert (a + b) * t == a * t + b * t;
    assert (a + b - 1.0) * t == 0.0;
  }

  /** `dblInt`: the y-intercept of the line through the two points. */
  function Intercept(x1: real, y1: real, x2: real, y2: real): (b: real)
    requires x2 - x1 != 0.0
    ensures (b - y1) * (x2 - x1) == (0.0 - x1) * (y2 - y1)
    ensures (b - y2) * (x2 - x1) == (0.0 - x2) * (y2 - y1)
  {
    var m := (y2 - y1) / (x2 - x1);
    assert m * (x2 - x1) == y2 - y1;
    assert (-m * x1) * (x2 - x1) == (0.0 - x1) * (m * (x2 - x1));
    assert (y1 - m * x1 - y2) * (x2 - x1) == (0.0 - x2) * (m * (x2 - x1));
    y1 - m * x1
  }

  /** d, given with d >= 0 and d^2 = dx^2 + dy^2, is 0 exactly when the points coincide. */
  lemma DistanceZero(x1: real, y1: real, x2: real, y2: real, d: real)
    requires d >= 0.0 && d * d == (x2 - x1) * (x2 - x1) + (y2 - y1) * (y2 - y1)
    ensures d == 0.0 <==> x1 == x2 && y1 == y2
  {
    var dx, dy := x2 - x1, y2 - y1;
    Square(dx);
    Square(dy);
    Square(d);
    if d == 0.0 {
      MulEqual(d, 0.0, d, 0.0);
    }
    if dx == 0.0 && dy == 0.0 {
      MulEqual(dx, 0.0, dx, 0.0);
      MulEqual(dy, 0.0, dy, 0.0);
    }
  }

  /** A square is never negative, and is zero only for zero. */
  lemma Square(x: real)
    ensures x * x >= 0.0
    ensures x * x == 0.0 ==> x == 0.0
  {
    if x != 0.0 {
      assert x * x / x == x;
    }
  }

  /** `mirror(x1, y1, x2, y2)` as written: the angle of the non-vertical
      branch is `pnt.angleAxeX()`. */
  function MirrorAsWritten(x1: real, y1: real, x2: real, y2: real, d: real): (r: Result<Matrix2D>)
    requires d >= 0.0 && d * d == (x2 - x1) * (x2 - x1) + (y2 - y1) * (y2 - y1)
    ensures r.Err? <==> x1 == x2 && y1 == y2
    ensures r.Err? ==> r.error == InvalidMirrorArgs
    ensures r.Ok? ==> Affine(r.value)
  {
    DistanceZero(x1, y1, x2, y2, d);
    if d == 0.0 then Err(InvalidMirrorArgs)
    else if x2 - x1 == 0.0 then Ok(Chain(x1, 0.0, 0.0, 1.0))
    else
      var u := AxisDirectionAsWritten(x2 - x1, y2 - y1, d);
      Ok(Chain(0.0, Intercept(x1, y1, x2, y2), u.x, u.y))
  }

  /** `mirror(x1, y1, x2, y2)` as evidently intended, with the axis
      direction of the line (the corrected half of the `angleAxeX` finding;
      the lemmas about `MirrorOf` below are about this corrected mirror): the
      vertical branch rotates by exactly 90 degrees (c = 0, s = 1) about
      (x1, 0); the other branch rotates by the direction of the line about
      its y-intercept. */
  function MirrorOf(x1: real, y1: real, x2: real, y2: real, d: real): (r: Result<Matrix2D>)
    requires d >= 0.0 && d * d == (x2 - x1) * (x2 - x1) + (y2 - y1) * (y2 - y1)
    ensures r.Err? <==> x1 == x2 && y1 == y2
    ensures r.Err? ==> r.error == InvalidMirrorArgs
    ensures r.Ok? ==> Affine(r.value)
  {
    DistanceZero(x1, y1, x2, y2, d);
    if d == 0.0 then Err(InvalidMirrorArgs)
    else if x2 - x1 == 0.0 then Ok(Chain(x1, 0.0, 0.0, 1.0))
    else
      var u := AxisDirection(x2 - x1, y2 - y1, d);
      Ok(Chain(0.0, Intercept(x1, y1, x2, y2), u.x, u.y))
  }

  /** `Matrix2D::mirror` as written: the error check, then `mat` built by
      successive `*=`, with the angle `pnt.angleAxeX()`. */
  method Mirror(x1: real, y1: real, x2: real, y2: real, d: real) returns (r: Result<Matrix2D>)
    requires d >= 0.0 && d * d == (x2 - x1) * (x2 - x1) + (y2 - y1) * (y2 - y1)
    ensures r.Err? <==> x1 == x2 && y1 == y2
    ensures r.Err? ==> r.error == InvalidMirrorArgs
    ensures r == MirrorAsWritten(x1, y1, x2, y2, d)
  {
    DistanceZero(x1, y1, x2, y2, d);
    if d == 0.0 {
      return Err(InvalidMirrorArgs);
    }
    var mat := Identity;
    var flip := Identity;
    flip := flip.(a11 := -1.0);
    var pnt := Point2D(x2 - x1, y2 - y1);
    if pnt.x == 0.0 {
      mat := Translation(x1, 0.0);
      mat := Product(mat, Rotation(0.0, 1.0));
      mat := Product(mat, flip);
      mat := Product(mat, Rotation(0.0, -1.0));
      mat := Product(mat, Translation(-x1, 0.0));
    } else {
      var dblInt := y1 - ((y2 - y1) / (x2 - x1)) * x1;
      var u := AxisDirectionAsWritten(pnt.x, pnt.y, d);
      mat := Translation(0.0, dblInt);
      mat := Product(mat, Rotation(u.x, u.y));
      mat := Product(mat, flip);
      mat := Product(mat, Rotation(u.x, -u.y));
      mat := Product(mat, Translation(0.0, -dblInt));
    }
    return Ok(mat);
  }

  /** Corrected mirror: mirroring twice gives back every point, the result is an involution. */
  lemma MirrorInvolution(x1: real, y1: real, x2: real, y2: real, d: real)
    requires d >= 0.0 && d * d == (x2 - x1) * (x2 - x1) + (y2 - y1) * (y2 - y1)
    requires MirrorOf(x1, y1, x2, y2, d).Ok?
    ensures Mul(MirrorOf(x1, y1, x2, y2, d).value, MirrorOf(x1, y1, x2, y2, d).value) == Identity
  {
    if x2 - x1 == 0.0 {
      ChainInvolution(x1, 0.0, 0.0, 1.0);
    } else {
      var u := AxisDirection(x2 - x1, y2 - y1, d);
      ChainInvolution(0.0, Intercept(x1, y1, x2, y2), u.x, u.y);
    }
  }

  /** A vertical mirror line x = x1 maps (x, y) to (2 x1 - x, y); this
      branch is the same in the as-written and the corrected mirror. */
  lemma MirrorVertical(x1: real, y1: real, y2: real, d: real, p: Point2D)
    requires y1 != y2
    requires d >= 0.0 && d * d == (x1 - x1) * (x1 - x1) + (y2 - y1) * (y2 - y1)
    ensures MirrorOf(x1, y1, x1, y2, d).Ok?
    ensures Transform(p, MirrorOf(x1, y1, x1, y2, d).value) == Point2D(2.0 * x1 - p.x, p.y)
  {
    ChainClosedForm(x1, 0.0, 0.0, 1.0);
  }

  /** Corrected mirror: in the non-vertical branch the y-intercept (0, dblInt) stays where it is. */
  lemma MirrorFixesIntercept(x1: real, y1: real, x2: real, y2: real, d: real)
    requires x1 != x2
    requires d >= 0.0 && d * d == (x2 - x1) * (x2 - x1) + (y2 - y1) * (y2 - y1)
    ensures MirrorOf(x1, y1, x2, y2, d).Ok?
    ensures Transform(Point2D(0.0, Intercept(x1, y1, x2, y2)), MirrorOf(x1, y1, x2, y2, d).value)
         == Point2D(0.0, Intercept(x1, y1, x2, y2))
  {
    DistanceZero(x1, y1, x2, y2, d);
    var u := AxisDirection(x2 - x1, y2 - y1, d);
    MirrorOfForm(x1, y1, x2, y2, d);
    ChainFixesLine(0.0, Intercept(x1, y1, x2, y2), u.x, u.y, 0.0, 0.0, Intercept(x1, y1, x2, y2));
  }

  /** Corrected mirror: both points that define the line are fixed points. */
  lemma MirrorFixesEndpoints(x1: real, y1: real, x2: real, y2: real, d: real)
    requires d >= 0.0 && d * d == (x2 - x1) * (x2 - x1) + (y2 - y1) * (y2 - y1)
    requires MirrorOf(x1, y1, x2, y2, d).Ok?
    ensures Transform(Point2D(x1, y1), MirrorOf(x1, y1, x2, y2, d).value) == Point2D(x1, y1)
    ensures Transform(Point2D(x2, y2), MirrorOf(x1, y1, x2, y2, d).value) == Point2D(x2, y2)
  {
    if x2 - x1 == 0.0 {
      MirrorVertical(x1, y1, y2, d, Point2D(x1, y1));
      MirrorVertical(x1, y1, y2, d, Point2D(x2, y2));
    } else {
      MirrorFixesLinePoint(x1, y1, x2, y2, d, x1, y1);
      MirrorFixesLinePoint(x1, y1, x2, y2, d, x2, y2);
    }
  }

  /** Corrected mirror: a point of a non-vertical line is a fixed point. */
  lemma MirrorFixesLinePoint(x1: real, y1: real, x2: real, y2: real, d: real, x: real, y: real)
    requires x1 != x2
    requires d >= 0.0 && d * d == (x2 - x1) * (x2 - x1) + (y2 - y1) * (y2 - y1)
    requires (x == x1 && y == y1) || (x == x2 && y == y2)
    ensures MirrorOf(x1, y1, x2, y2, d).Ok?
    ensures Transform(Point2D(x, y), MirrorOf(x1, y1, x2, y2, d).value) == Point2D(x, y)
  {
    DistanceZero(x1, y1, x2, y2, d);
    var u := AxisDirection(x2 - x1, y2 - y1, d);
    OnLine(x1, y1, x2, y2, d, x, y);
    ChainFixesLine(0.0, Intercept(x1, y1, x2, y2), u.x, u.y, x * d / (x2 - x1), x, y);
    MirrorOfForm(x1, y1, x2, y2, d);
  }

  /** Corrected mirror: in the non-vertical branch it is the chain about
      the y-intercept with the direction of the line. */
  lemma MirrorOfForm(x1: real, y1: real, x2: real, y2: real, d: real)
    requires x1 != x2
    requires d >= 0.0 && d * d == (x2 - x1) * (x2 - x1) + (y2 - y1) * (y2 - y1)
    ensures d > 0.0
    ensures MirrorOf(x1, y1, x2, y2, d)
         == Ok(Chain(0.0, Intercept(x1, y1, x2, y2), AxisDirection(x2 - x1, y2 - y1, d).x,
                     AxisDirection(x2 - x1, y2 - y1, d).y))
  {
    DistanceZero(x1, y1, x2, y2, d);
  }

  /** A point (x, y) of the non-vertical line is the intercept plus
      (x d / dx) times the unit direction. */
  lemma OnLine(x1: real, y1: real, x2: real, y2: real, d: real, x: real, y: real)
    requires x1 != x2
    requires d > 0.0 && d * d == (x2 - x1) * (x2 - x1) + (y2 - y1) * (y2 - y1)
    requires (x == x1 && y == y1) || (x == x2 && y == y2)
    ensures var u, k := AxisDirection(x2 - x1, y2 - y1, d), x * d / (x2 - x1);
      0.0 + k * u.x == x && Intercept(x1, y1, x2, y2) + k * u.y == y
  {
    var dx, dy := x2 - x1, y2 - y1;
    var u := AxisDirection(dx, dy, d);
    var m := dy / dx;
    Stretch(x, d, dx, u.x, dx, 1.0);
    Stretch(x, d, dx, u.y, dy, m);
    assert y2 - m * x2 == y1 - m * x1 by {
      assert m * dx == dy;
    }
  }

  /** With k = x d / dx, a component v of the unit direction (v d = w) and
      w = m dx, k v is m x. */
  lemma Stretch(x: real, d: real, dx: real, v: real, w: real, m: real)
    requires d != 0.0 && dx != 0.0 && v * d == w && w == m * dx
    ensures (x * d / dx) * v == m * x
  {
    var k := x * d / dx;
    assert k * dx == x * d;
    assert (k * v) * d == k * (v * d);
    MulEqual(k, k, v * d, w);
    MulEqual(k, k, w, m * dx);
    assert k * (m * dx) == m * (k * dx);
    MulEqual(m, m, k * dx, x * d);
    assert m * (x * d) == (m * x) * d;
    CancelFactor(k * v, m * x, d);
  }

  /** A non-zero factor cancels: a t = b t forces a = b. */
  lemma CancelFactor(a: real, b: real, t: real)
    requires t != 0.0 && a * t == b * t
    ensures a == b
  {
    assert (a - b) * t == 0.0;
  }


  /** In the non-vertical branch the as-written mirror is the chain about
      the y-intercept with the direction `angleAxeX` yields. */
  lemma MirrorAsWrittenForm(x1: real, y1: real, x2: real, y2: real, d: real)
    requires x1 != x2
    requires d >= 0.0 && d * d == (x2 - x1) * (x2 - x1) + (y2 - y1) * (y2 - y1)
    ensures MirrorAsWritten(x1, y1, x2, y2, d)
         == Ok(Chain(0.0, Intercept(x1, y1, x2, y2), AxisDirectionAsWritten(x2 - x1, y2 - y1, d).x,
                     AxisDirectionAsWritten(x2 - x1, y2 - y1, d).y))
  {
    DistanceZero(x1, y1, x2, y2, d);
  }

  /** As written, a line through the origin that descends to the right gets
      the direction (-x2 / d, y2 / d): the reflection about the line through
      the origin with that direction, not with (x2 / d, y2 / d). */
  lemma MirrorAsWrittenThroughOrigin(x2: real, y2: real, d: real)
    requires x2 != 0.0 && y2 < 0.0
    requires d >= 0.0 && d * d == (x2 - 0.0) * (x2 - 0.0) + (y2 - 0.0) * (y2 - 0.0)
    ensures d > 0.0
    ensures MirrorAsWritten(0.0, 0.0, x2, y2, d) == Ok(Reflection(0.0, 0.0, -x2 / d, y2 / d))
  {
    DistanceZero(0.0, 0.0, x2, y2, d);
    MirrorAsWrittenForm(0.0, 0.0, x2, y2, d);
    ChainClosedForm(0.0, 0.0, -x2 / d, y2 / d);
  }

  /** As written, a line with y2 < y1 gets the direction rotated by 180
      degrees in `angleAxeX`; when it is not vertical either, the mirror no
      longer fixes the second point. The line through (0, 0) and (3, -4),
      d = 5: `angleAxeX` yields the direction (-3/5, -4/5), so by
      `MirrorAsWrittenThroughOrigin` the as-written mirror is the reflection
      below, and it sends (3, -4) to (-117/25, 44/25), where the corrected
      mirror leaves it in place (`MirrorFixesEndpoints`). */
  lemma MirrorAsWrittenMissesEndpoint()
    ensures AxisDirectionAsWritten(3.0, -4.0, 5.0) == Point2D(-3.0 / 5.0, -4.0 / 5.0)
    ensures Transform(Point2D(3.0, -4.0), Reflection(0.0, 0.0, -3.0 / 5.0, -4.0 / 5.0)) == Point2D(-4.68, 1.76)
  {
  }

  /** Where the as-written direction is right (y2 >= y1), and on a vertical
      line, the as-written mirror and the corrected one agree. */
  lemma MirrorAsWrittenAgrees(x1: real, y1: real, x2: real, y2: real, d: real)
    requires d >= 0.0 && d * d == (x2 - x1) * (x2 - x1) + (y2 - y1) * (y2 - y1)
    requires y2 >= y1 || x1 == x2
    ensures MirrorAsWritten(x1, y1, x2, y2, d) == MirrorOf(x1, y1, x2, y2, d)
  {
  }

  /** The as-written mirror is an involution too: `angleAxeX` still yields
      a unit direction, only not the direction of the line. */
  lemma MirrorAsWrittenInvolution(x1: real, y1: real, x2: real, y2: real, d: real)
    requires d >= 0.0 && d * d == (x2 - x1) * (x2 - x1) + (y2 - y1) * (y2 - y1)
    requires MirrorAsWritten(x1, y1, x2, y2, d).Ok?
    ensures Mul(MirrorAsWritten(x1, y1, x2, y2, d).value, MirrorAsWritten(x1, y1, x2, y2, d).value) == Identity
  {
    if x2 - x1 == 0.0 {
      ChainInvolution(x1, 0.0, 0.0, 1.0);
    } else {
      var u := AxisDirectionAsWritten(x2 - x1, y2 - y1, d);
      ChainInvolution(0.0, Intercept(x1, y1, x2, y2), u.x, u.y);
    }
  }

  /** As written, in the non-vertical branch the y-intercept (0, dblInt)
      still stays where it is: the chain is centred on it, whatever the
      direction. */
  lemma MirrorAsWrittenFixesIntercept(x1: real, y1: real, x2: real, y2: real, d: real)
    requires x1 != x2
    requires d >= 0.0 && d * d == (x2 - x1) * (x2 - x1) + (y2 - y1) * (y2 - y1)
    ensures MirrorAsWritten(x1, y1, x2, y2, d).Ok?
    ensures Transform(Point2D(0.0, Intercept(x1, y1, x2, y2)), MirrorAsWritten(x1, y1, x2, y2, d).value)
         == Point2D(0.0, Intercept(x1, y1, x2, y2))
  {
    DistanceZero(x1, y1, x2, y2, d);
    var u := AxisDirectionAsWritten(x2 - x1, y2 - y1, d);
    MirrorAsWrittenForm(x1, y1, x2, y2, d);
    ChainFixesLine(0.0, Intercept(x1, y1, x2, y2), u.x, u.y, 0.0, 0.0, Intercept(x1, y1, x2, y2));
  }
}
