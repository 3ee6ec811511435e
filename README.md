# Civil GA2D in Dafny

A model of the 2-D geometry kernel of the Civil library, with proofs about it.
The kernel has five parts:

- **Range** (`CivilRange`): a scalar kept between template bounds. Only its
  assignment checks the bounds.
- **DynArray** (`CivilDynArray`): a resizable two-dimensional buffer. Resizing
  keeps the cells the old and new shapes share.
- **Matrix** (`MatrixSpec`, `CivilMatrix`): the bounded matrix.
  - It is a fixed 20 x 20 buffer with a live row count and column count.
  - Cells are read and written with index checks.
  - Rows and columns can be removed.
  - It offers null and identity matrices, the transpose, the determinant by
    Laplace expansion along the first row, the cofactor matrix, invertibility,
    the inverse, the primary and secondary diagonals, and element-wise and
    row-by-column arithmetic.
  - `MatrixSpec` states each operation on matrix values, errors included.
  - `CivilMatrix.Matrix` is the class over the buffer. Its methods are proved
    equal to those specifications.
- **GA2D** (`GA2D`, `GA2DMirror`): 3 x 3 homogeneous transforms, points and
  vectors of the plane.
  - Transforms: translation, rotation, scaling, their product, and the
    reflection across a line through two points (`mirror`).
  - Points: the quadrant, the coordinate-wise operators, the cross product,
    and transformation by a matrix.
  - Vectors: reversing, the midpoint, the side of a point, moving a vector,
    and vector sum and difference.
- **Angle** (`AngleSpec`, `CivilAngle`): an angle held twice.
  - It is held as radians and as turns, degrees, minutes and seconds. Each
    form is recomputed from the other when it changes.
  - It offers arithmetic, comparisons, the degree figure of `format`, and the
    recogniser `validateString`. That recogniser accepts degree-minute-second
    literals and splits them into turns and degrees.

Modelling choices:

- Matrix errors raised with `RAISE` are values of `Errors.ErrorCode`, returned
  in a `Result` or an `Outcome`.
- Square roots, sines and cosines are parameters tied to their defining
  equations, because Dafny has no such functions:
  - a distance `d` comes with `d >= 0` and `d * d` equal to the sum of squares;
  - a rotation is given by its cosine `c` and sine `s`, with `c * c + s * s == 1`
    where it matters.
- `M_PI` is the literal `3.14159265358979323846`. Arithmetic is over the
  reals.

## Model

| member | source | states |
|---|---|---|
| CivilRange.Range.constructor | UtilsLibrary/CivilRange.h:23-25 | the bounds come from the template and the value is stored unchecked, even outside [min, max] |
| CivilRange.Range.Assign | UtilsLibrary/CivilRange.h:42-48 | fails with RangeError exactly when the value lies outside [min, max], keeping the old value; otherwise the value is stored, read back by the conversion, and in bounds |
| CivilRange.Range.Get | UtilsLibrary/CivilRange.h:38-41 | the conversion returns the stored value, which lies in [min, max] whenever the range holds an in-bounds value; after a successful Assign it reads back the assigned value (Assign's ensures) |
| CivilRange.UncheckedConstruction | UtilsLibrary/CivilRange.h:23-25 | a Range<0, 59> built from 75 holds 75 and is out of bounds: only assignment enforces the bounds |
| CivilDynArray.DynArray.Empty | UtilsLibrary/CivilDynArray.h:22-25 | a new buffer with zero rows and zero columns |
| CivilDynArray.DynArray.constructor | UtilsLibrary/CivilDynArray.h:26-34 | a new buffer with exactly the requested row and column counts |
| CivilDynArray.DynArray.Copy | UtilsLibrary/CivilDynArray.h:35-41 | a new buffer with the source's counts and every cell equal to the source's |
| CivilDynArray.DynArray.SetItem | UtilsLibrary/CivilDynArray.h:124-127 | the written cell reads back the value and every other cell keeps its value |
| CivilDynArray.DynArray.GetItem | UtilsLibrary/CivilDynArray.h:120-123 | reads the cell at an in-range (row, col) without a bounds check; the ensures of SetItem, SetDims, Copy and Assign fix what it reads back |
| CivilDynArray.DynArray.SetDims | UtilsLibrary/CivilDynArray.h:69-106 | the counts become the requested ones; same dimensions change nothing; every cell inside both the old and the new shape keeps its value |
| CivilDynArray.DynArray.Assign | UtilsLibrary/CivilDynArray.h:129-138 | after assignment the buffer has the other buffer's counts and all of its cell values |
| MatrixSpec.Ext | MathLibrary/CivilMatrix.h:85-94 | a matrix is determined by its counts and its live cells |
| MatrixSpec.Get | MathLibrary/CivilMatrix.h:133-142 | getItem succeeds exactly inside the live row and column counts and otherwise raises InvalidIndex |
| MatrixSpec.SetCell | MathLibrary/CivilMatrix.h:144-154 | writing a cell keeps the shape |
| MatrixSpec.GetAfterSet | MathLibrary/CivilMatrix.h:133-154 | getItem after setItem returns the written value at that cell and the old result (value or InvalidIndex) everywhere else |
| MatrixSpec.Null | MathLibrary/CivilMatrix.h:199-209 | the null matrix has the requested shape |
| MatrixSpec.Identity | MathLibrary/CivilMatrix.h:210-220 | the identity of size n is n x n |
| MatrixSpec.Transpose | MathLibrary/CivilMatrix.h:247-257 | the transpose swaps the row and column counts |
| MatrixSpec.TransposeInvolution | MathLibrary/CivilMatrix.h:247-257 | transposing twice gives back the matrix |
| MatrixSpec.DropRow | MathLibrary/CivilMatrix.h:156-177 | one row fewer; rows above the removed one stay, rows below move up by one |
| MatrixSpec.DropCol | MathLibrary/CivilMatrix.h:178-197 | one column fewer; columns left of the removed one stay, the others move left by one |
| MatrixSpec.RemoveRow | MathLibrary/CivilMatrix.h:156-177 | removeRow succeeds exactly for an in-range row of a matrix with at least two rows; an out-of-range row raises InvalidIndex before the last-row check; a success has one row fewer and the same columns |
| MatrixSpec.RemoveCol | MathLibrary/CivilMatrix.h:178-197 | removeCol succeeds exactly for an in-range column of a matrix with at least two columns; an out-of-range column raises InvalidIndex first; a success has one column fewer and the same rows |
| MatrixSpec.Minor | MathLibrary/CivilMatrix.h:222-245 | the minor of (i, j) is one row and one column smaller |
| MatrixSpec.RemoveRowCol | MathLibrary/CivilMatrix.h:236-240 | removing row r and then column c of a copy succeeds exactly when both indices are in range and there are at least two rows and two columns; the result is the minor |
| MatrixSpec.RemoveRowShifts | MathLibrary/CivilMatrix.h:156-177 | removeRow of an in-range row of a matrix with at least two rows succeeds, drops that row and shifts the rest up |
| MatrixSpec.RemoveColShifts | MathLibrary/CivilMatrix.h:178-197 | removeCol of an in-range column of a matrix with at least two columns succeeds, drops that column and shifts the rest left |
| MatrixSpec.Det | MathLibrary/CivilMatrix.h:488-514 | calcDet of any shape raises only InvalidIndex or CantRemoveDim (never succeeds silently on a bad read) |
| MatrixSpec.TermAt | MathLibrary/CivilMatrix.h:502-505 | one term of the expansion raises only InvalidIndex or CantRemoveDim |
| MatrixSpec.Laplace | MathLibrary/CivilMatrix.h:499-508 | a prefix of the expansion loop raises only InvalidIndex or CantRemoveDim |
| MatrixSpec.LaplaceStep | MathLibrary/CivilMatrix.h:500-508 | each pass of the expansion loop adds that column's signed term to the running sum |
| MatrixSpec.LaplaceStepErr | MathLibrary/CivilMatrix.h:500-508 | a term that raises makes the expansion raise the same error |
| MatrixSpec.LaplaceErrPersists | MathLibrary/CivilMatrix.h:500-508 | once the expansion raises, every longer prefix raises the same error |
| MatrixSpec.DetSquareOk | MathLibrary/CivilMatrix.h:488-514 | the determinant of every non-empty square matrix is computed without raising |
| MatrixSpec.LaplaceSquareOk | MathLibrary/CivilMatrix.h:500-508 | on a square matrix of size 3 or more no prefix of the expansion raises |
| MatrixSpec.MinorOfIdentity | MathLibrary/CivilMatrix.h:210-220 | dropping the first row and column of the identity leaves the identity one size smaller |
| MatrixSpec.DetIdentity | MathLibrary/CivilMatrix.h:488-521 | det(identity(n)) == 1 for every n >= 1 |
| MatrixSpec.LaplaceIdentity | MathLibrary/CivilMatrix.h:500-508 | every non-empty prefix of the identity's expansion sums to 1 |
| MatrixSpec.MinorKeepsZeroRow | MathLibrary/CivilMatrix.h:502-505 | an all-zero row below row 0 stays all-zero, one row up, in every minor along row 0 |
| MatrixSpec.DetZeroRow | MathLibrary/CivilMatrix.h:488-514 | a square matrix with an all-zero row has determinant 0 |
| MatrixSpec.LaplaceZeroRow | MathLibrary/CivilMatrix.h:500-508 | with an all-zero row, every prefix of the expansion sums to 0 |
| MatrixSpec.ZeroRowNotInvertible | MathLibrary/CivilMatrix.h:259-262 | a square matrix with an all-zero row is not invertible |
| MatrixSpec.IsInvertible | MathLibrary/CivilMatrix.h:259-262 | an invertible matrix is square and non-empty, and its determinant exists and is non-zero |
| MatrixSpec.Cofactors | MathLibrary/CivilMatrix.h:222-245 | cofats succeeds exactly on a square matrix larger than 1x1, raises NotSquare on any other shape, and a success has the matrix's shape |
| MatrixSpec.Cofactor | MathLibrary/CivilMatrix.h:234-242 | the cell cofats writes: the signed determinant of the minor; for a 2x2 matrix it is the opposite cell with sign (-1)^(i+j) |
| MatrixSpec.MulScalar | MathLibrary/CivilMatrix.h:426-440 | the product with a scalar keeps the shape |
| MatrixSpec.AddScalar | MathLibrary/CivilMatrix.h:337-351 | the sum with a scalar keeps the shape |
| MatrixSpec.SubScalar | MathLibrary/CivilMatrix.h:379-393 | the difference with a scalar keeps the shape |
| MatrixSpec.AddSubScalarInverse | MathLibrary/CivilMatrix.h:337-393 | adding and then subtracting the same scalar gives back the matrix |
| MatrixSpec.Reverse | MathLibrary/CivilMatrix.h:263-269 | reverse succeeds exactly on an invertible matrix larger than 1x1, raises only NotInvertible or CantRemoveDim, and a success has the matrix's shape |
| MatrixSpec.ReverseOk | MathLibrary/CivilMatrix.h:263-269 | for an invertible matrix whose cofactors exist, the determinant is non-zero and reverse is the transposed cofactor matrix times 1/det |
| MatrixSpec.ReverseOneByOne | MathLibrary/CivilMatrix.h:222-245 | an invertible 1x1 matrix has no inverse: cofats raises CantRemoveDim while removing a row |
| MatrixSpec.Add | MathLibrary/CivilMatrix.h:323-336 | the sum succeeds exactly on equal shapes, raises Incompatible otherwise, and keeps the shape |
| MatrixSpec.Sub | MathLibrary/CivilMatrix.h:365-378 | the difference succeeds exactly on equal shapes, raises Incompatible otherwise, and keeps the shape |
| MatrixSpec.AddSubInverse | MathLibrary/CivilMatrix.h:323-378 | addition succeeds exactly on equal shapes and is commutative; subtracting the added matrix gives back the first |
| MatrixSpec.AddNull | MathLibrary/CivilMatrix.h:199-209 | adding the null matrix of the same shape changes nothing |
| MatrixSpec.Dot | MathLibrary/CivilMatrix.h:415-418 | the running sum of the inner loop is 0 when the row of mat1 or the column of mat2 is zero over the terms summed |
| MatrixSpec.Mul | MathLibrary/CivilMatrix.h:407-425 | the product succeeds whenever mat1 has no more columns than mat2 has rows, raises only InvalidIndex, and a success is mat1.rows x mat2.cols |
| MatrixSpec.DotIdentityRight | MathLibrary/CivilMatrix.h:415-418 | a prefix of row i times column j of the identity picks cell (i, j) once k passes j, and 0 before |
| MatrixSpec.DotIdentityLeft | MathLibrary/CivilMatrix.h:415-418 | a prefix of row i of the identity times column j picks cell (i, j) once k passes i, and 0 before |
| MatrixSpec.MulIdentity | MathLibrary/CivilMatrix.h:407-425 | the identity of matching size is a unit of the product on both sides |
| MatrixSpec.DetTwoByTwo | MathLibrary/CivilMatrix.h:497-498 | the 2-row determinant is a00 a11 - a10 a01 |
| MatrixSpec.ReverseTwoByTwoForm | MathLibrary/CivilMatrix.h:263-269 | the inverse of an invertible 2x2 matrix is 1/det times [[a11, -a01], [-a10, a00]] |
| MatrixSpec.MulTwoByTwo | MathLibrary/CivilMatrix.h:407-425 | the product of two 2x2 matrices is 2x2 with each cell a two-term row-by-column sum |
| MatrixSpec.InverseRightTwoByTwo | MathLibrary/CivilMatrix.h:407-425 | the closed-form inverse is a right inverse |
| MatrixSpec.InverseLeftTwoByTwo | MathLibrary/CivilMatrix.h:407-425 | the closed-form inverse is a left inverse |
| MatrixSpec.ReverseTwoByTwo | MathLibrary/CivilMatrix.h:263-269 | for every invertible 2x2 matrix, reverse succeeds and is a two-sided inverse under the product |
| MatrixSpec.DiagonalsOfTranspose | MathLibrary/CivilMatrix.h:271-300 | transposing keeps the primary diagonal and reverses the secondary diagonal |
| MatrixSpec.PrimaryDiagonal | MathLibrary/CivilMatrix.h:271-283 | NotSquare exactly on a non-square matrix; otherwise a 1 x n row whose column i reads cell (i, i) |
| MatrixSpec.SecondaryDiagonal | MathLibrary/CivilMatrix.h:284-300 | NotSquare exactly on a non-square matrix; otherwise a 1 x n row whose column k reads cell (k, n-1-k) |
| CivilMatrix.Matrix.Empty | MathLibrary/CivilMatrix.h:54-58 | a new matrix with no live rows or columns |
| CivilMatrix.Matrix.constructor | MathLibrary/CivilMatrix.h:59-65 | a new matrix with exactly the requested counts |
| CivilMatrix.Matrix.Copy | MathLibrary/CivilMatrix.h:66-74 | the copy has the counts and the whole buffer of the original, so the same matrix value (the constructor goes through operator=, lines 303-321) |
| CivilMatrix.Matrix.SetDims | MathLibrary/CivilMatrix.h:120-131 | Overflow exactly beyond the 20 x 20 capacity, changing nothing; otherwise the new counts over the unchanged buffer |
| CivilMatrix.Matrix.GetItem | MathLibrary/CivilMatrix.h:133-142 | InvalidIndex exactly outside the live counts; otherwise the buffer cell, as the specification's Get |
| CivilMatrix.Matrix.SetItem | MathLibrary/CivilMatrix.h:144-154 | InvalidIndex exactly outside the live counts, changing nothing; otherwise the matrix value becomes SetCell and no other buffer cell changes |
| CivilMatrix.Matrix.RemoveRow | MathLibrary/CivilMatrix.h:156-177 | raises exactly when the specification does (InvalidIndex, then CantRemoveDim), changing nothing; otherwise the value is the specification's result with one row fewer |
| CivilMatrix.Matrix.RemoveCol | MathLibrary/CivilMatrix.h:178-197 | raises exactly when the specification does, changing nothing; otherwise the value is the specification's result with one column fewer |
| CivilMatrix.Matrix.Null | MathLibrary/CivilMatrix.h:199-209 | a new matrix whose value is the null matrix of that shape |
| CivilMatrix.Matrix.Identity | MathLibrary/CivilMatrix.h:210-220 | a new matrix whose value is the identity of that size |
| CivilMatrix.Matrix.Transposed | MathLibrary/CivilMatrix.h:247-257 | a new matrix whose value is the transpose |
| CivilMatrix.Matrix.Without | MathLibrary/CivilMatrix.h:236-240 | a copy with row and column removed, raising exactly when the specification's RemoveRowCol does |
| CivilMatrix.Matrix.CalcDetOf | MathLibrary/CivilMatrix.h:488-514 | the private calcDet(mat) computes the specification's determinant, error included |
| CivilMatrix.Matrix.LaplaceSum | MathLibrary/CivilMatrix.h:499-508 | the default branch's loop computes the full expansion along row 0 |
| CivilMatrix.Matrix.ExpansionTerm | MathLibrary/CivilMatrix.h:502-505 | one loop pass computes the signed term of column i, or its error |
| CivilMatrix.Matrix.CalcDet | MathLibrary/CivilMatrix.h:518-521 | calcDet() is the determinant of the matrix's value |
| CivilMatrix.Matrix.Invertible | MathLibrary/CivilMatrix.h:259-262 | true exactly for a square matrix with a non-zero determinant |
| CivilMatrix.Matrix.CofactorAt | MathLibrary/CivilMatrix.h:234-242 | raises CantRemoveDim exactly on a 1x1 matrix; otherwise the signed determinant of the minor |
| CivilMatrix.Matrix.Cofats | MathLibrary/CivilMatrix.h:222-245 | NotSquare unless square and CantRemoveDim for 1x1; otherwise a new matrix whose value is the cofactor matrix |
| CivilMatrix.Matrix.Reverse | MathLibrary/CivilMatrix.h:263-269 | NotInvertible unless invertible; otherwise a new matrix whose value is the specification's inverse (two-sided for 2x2, by ReverseTwoByTwo) |
| CivilMatrix.Matrix.ScaledTranspose | MathLibrary/CivilMatrix.h:268 | the transposed matrix times the factor |
| CivilMatrix.Matrix.PrimaryDiagonal | MathLibrary/CivilMatrix.h:271-283 | NotSquare unless square; otherwise a single row holding cell (i, i) at column i |
| CivilMatrix.Matrix.SecundaryDiagonal | MathLibrary/CivilMatrix.h:284-300 | NotSquare unless square; otherwise a single row holding cell (k, n-1-k) at column k |
| CivilMatrix.Matrix.Add | MathLibrary/CivilMatrix.h:323-336 | Incompatible exactly when the shapes differ; otherwise a new matrix whose value is the cell-wise sum |
| CivilMatrix.Matrix.Sub | MathLibrary/CivilMatrix.h:365-378 | Incompatible exactly when the shapes differ; otherwise a new matrix whose value is the cell-wise difference |
| CivilMatrix.Matrix.DotProduct | MathLibrary/CivilMatrix.h:413-418 | the inner loop reads past mat2's rows, raising InvalidIndex, exactly when mat1 has more columns than mat2 has rows; otherwise it sums row i times column j |
| CivilMatrix.Matrix.Mul | MathLibrary/CivilMatrix.h:407-425 | InvalidIndex exactly when the specification's product raises; otherwise a new mat1.rows x mat2.cols matrix equal to the specification's product |
| CivilMatrix.Matrix.MulRow | MathLibrary/CivilMatrix.h:410-419 | one outer pass fills row i with the row-by-column sums or raises, leaving the other rows alone |
| CivilMatrix.Matrix.AddScalar | MathLibrary/CivilMatrix.h:337-351 | a new matrix whose value is the element-wise sum with the scalar |
| CivilMatrix.Matrix.SubScalar | MathLibrary/CivilMatrix.h:379-393 | a new matrix whose value is the element-wise difference with the scalar |
| CivilMatrix.Matrix.MulScalar | MathLibrary/CivilMatrix.h:426-440 | a new matrix whose value is the element-wise product with the scalar |
| GA2D.PartialDotFull | MathLibrary/CivilGA2D.h:93-94 | the innermost loop's running sum over all three terms is the row-by-column product |
| GA2D.Mul | MathLibrary/CivilGA2D.h:82-100 | the product of two affine transforms is affine |
| GA2D.FromItems | MathLibrary/CivilGA2D.h:34-35 | the 3 x 3 item array read as a Matrix2D, cell by cell |
| GA2D.Product | MathLibrary/CivilGA2D.h:82-100 | the triple loop's result holds the row-by-column sum in every cell, and so equals the product |
| GA2D.MulAssoc | MathLibrary/CivilGA2D.h:82-106 | the product of transforms is associative, so the chained *= of mirror composes as written |
| GA2D.MulIdentity | MathLibrary/CivilGA2D.cpp:11-13 | M_IDENTITY is a two-sided unit and M_NULL a two-sided absorbing element of the product |
| GA2D.AffineMul | MathLibrary/CivilGA2D.h:82-100 | products of transforms with bottom row [0, 0, 1] keep that row |
| GA2D.Translation | MathLibrary/CivilGA2D.h:37-46 | a translation is an affine transform |
| GA2D.TranslationCompose | MathLibrary/CivilGA2D.h:37-46 | consecutive translations add their offsets |
| GA2D.TranslationInverse | MathLibrary/CivilGA2D.h:37-46 | translation(x, y) and translation(-x, -y) undo each other in both orders |
| GA2D.Rotation | MathLibrary/CivilGA2D.h:47-61 | a rotation is an affine transform |
| GA2D.RotationInverse | MathLibrary/CivilGA2D.h:47-61 | for a unit (cos, sin), rotation(-ang) undoes rotation(ang) in both orders |
| GA2D.RotationAbout | MathLibrary/CivilGA2D.h:62-65 | the rotation about a reference point is affine |
| GA2D.RotationAboutFixesReference | MathLibrary/CivilGA2D.h:62-65 | the reference point of a rotation is a fixed point |
| GA2D.ScaleAsWritten | MathLibrary/CivilGA2D.h:66-75 | as written, the scale leaves items[0][0] at 1 and is affine only when yFactor is 1 |
| GA2D.ScaleAboutAsWritten | MathLibrary/CivilGA2D.h:76-79 | as written, the scale about a reference point has homogeneous row [0, 0, yFactor], so it is affine only when yFactor is 1 |
| GA2D.ScaleAsWrittenMisplaced | MathLibrary/CivilGA2D.h:66-79 | as written, the scale leaves x alone and multiplies y by xFactor, and the scale about a reference point sends that point to yFactor times itself instead of fixing it |
| GA2D.Scale | MathLibrary/CivilGA2D.h:66-75 | the corrected scale is affine |
| GA2D.ScaleScales | MathLibrary/CivilGA2D.h:66-75 | the corrected scale multiplies x by xFactor and y by yFactor |
| GA2D.ScaleAbout | MathLibrary/CivilGA2D.h:76-79 | corrected (built on the corrected Scale): the scale about a reference point is affine |
| GA2D.ScaleAboutFixesReference | MathLibrary/CivilGA2D.h:76-79 | corrected: the reference point is fixed and every point moves away from it by the factors |
| GA2D.ToMatrix | MathLibrary/CivilGA2D.h:115-125 | the conversion yields a valid 3x3 bounded matrix holding the same items |
| GA2D.Quadrant | MathLibrary/CivilGA2D.h:147-163 | a quadrant 1 to 4; 1 or 2 exactly when y > 0; 1 or 4 exactly when x > 0, so points on an axis go counter-clockwise |
| GA2D.Transform | MathLibrary/CivilGA2D.h:183-194 | multiplying the point's homogeneous column gives the affine image (a00 x + a01 y + a02, a10 x + a11 y + a12) |
| GA2D.TranslationExample | MathLibrary/CivilGA2D.h:183-194 | translation(3, 4) takes (1, 1) to (4, 5) |
| GA2D.TransformTranslation | MathLibrary/CivilGA2D.h:37-46 | transforming by a translation adds its offsets |
| GA2D.TransformMul | MathLibrary/CivilGA2D.h:183-194 | transforming by m * n is transforming by n then by m, for affine n |
| GA2D.VectorProduct | MathLibrary/CivilGA2D.h:224-227 | the cross product of a point with itself, or with the origin, is 0 |
| GA2D.VectorProductAntisymmetric | MathLibrary/CivilGA2D.h:224-227 | the cross product is antisymmetric and vanishes for a point with itself or a multiple of itself |
| GA2D.Plus | MathLibrary/CivilGA2D.h:229-232 | subtracting either operand from the sum gives back the other |
| GA2D.PlusScalar | MathLibrary/CivilGA2D.h:233-236 | subtracting the value again gives back the point |
| GA2D.Minus | MathLibrary/CivilGA2D.h:255-258 | the difference is the offset that takes pnt2 to pnt1 |
| GA2D.MinusScalar | MathLibrary/CivilGA2D.h:259-262 | adding the value again gives back the point |
| GA2D.Times | MathLibrary/CivilGA2D.h:281-284 | dividing by a point with non-zero coordinates gives back the point |
| GA2D.TimesScalar | MathLibrary/CivilGA2D.h:285-288 | dividing by a non-zero value gives back the point |
| GA2D.Div | MathLibrary/CivilGA2D.h:307-310 | each coordinate of the quotient times the divisor's coordinate is the dividend's |
| GA2D.DivScalar | MathLibrary/CivilGA2D.h:311-314 | each coordinate of the quotient times the value is the point's |
| GA2D.ScalarTimes | MathLibrary/CivilGA2D.h:289-292 | the scalar-left product forwards to the point-left product: each coordinate times the value |
| GA2D.ScalarDiv | MathLibrary/CivilGA2D.h:315-318 | the scalar-left quotient forwards to the point-left quotient: the point divided by the value, not the value by the point |
| GA2D.PointOperatorsInverse | MathLibrary/CivilGA2D.h:229-314 | + and - undo each other with points and with scalars, + commutes, p - p is the origin, and / undoes * for non-zero divisors |
| GA2D.Sign | MathLibrary/CivilGA2D.h:343-346 | sign is 1, 0 or -1, with 1 exactly for positive and -1 exactly for negative numbers |
| GA2D.SignNeg | MathLibrary/CivilGA2D.h:343-346 | the sign of a negated number is the negated sign |
| GA2D.SideOf | MathLibrary/CivilGA2D.h:335-340 | the cast maps 1 to sLeft, -1 to sRight and 0 to sOver |
| GA2D.TransformVector | MathLibrary/CivilGA2D.h:383-392 | both end points are transformed |
| GA2D.Reverse | MathLibrary/CivilGA2D.h:394-397 | the reversed vector has the opposite displacement |
| GA2D.MidPoint | MathLibrary/CivilGA2D.h:399-402 | the midpoint lies as far from pnt1 as pnt2 lies from it |
| GA2D.ReverseInvolution | MathLibrary/CivilGA2D.h:394-402 | reversing twice gives back the vector, and reversing keeps the midpoint |
| GA2D.SideOfPoint | MathLibrary/CivilGA2D.h:404-407 | Left exactly when the cross product of the displacement and the offset of the point is positive, Right exactly when it is negative |
| GA2D.SideOfEndpoints | MathLibrary/CivilGA2D.h:404-407 | both end points are Over the vector |
| GA2D.SideOfReverse | MathLibrary/CivilGA2D.h:394-407 | reversing the vector swaps Left and Right and keeps Over |
| GA2D.MoveTo | MathLibrary/CivilGA2D.h:409-415 | moving puts pnt1 on the point and keeps the displacement |
| GA2D.MoveToXY | MathLibrary/CivilGA2D.h:416-422 | moving to (x, y) is moving to the point (x, y) |
| GA2D.VectorPlus | MathLibrary/CivilGA2D.h:424-432 | the sum starts at vtr1's tail and its displacement is the sum of both displacements |
| GA2D.VectorMinus | MathLibrary/CivilGA2D.h:434-437 | the difference starts at the head of vtr2 and its displacement reaches the head of vtr1 |
| GA2D.VectorMinusCompletes | MathLibrary/CivilGA2D.h:424-437 | for two vectors with the same tail, vtr2 + (vtr1 - vtr2) is vtr1 |
| GA2DMirror.Chain | MathLibrary/CivilGA2D.cpp:49-53 | the chain translation * rotation * flip * rotation back * translation back is affine |
| GA2DMirror.ChainClosedForm | MathLibrary/CivilGA2D.cpp:49-53 | the chain multiplies out to the reflection [[c²-s², 2cs, e], [2cs, s²-c², f], [0, 0, 1]] |
| GA2DMirror.ChainInvolution | MathLibrary/CivilGA2D.cpp:49-53 | for a unit direction, the chain is its own inverse |
| GA2DMirror.ReflectionInvolution | MathLibrary/CivilGA2D.cpp:49-53 | the closed-form reflection squares to the identity for a unit direction |
| GA2DMirror.ChainFixesLine | MathLibrary/CivilGA2D.cpp:49-53 | every point on the line through (tx, ty) with direction (c, s) is a fixed point |
| GA2DMirror.AxisDirectionAsWritten | MathLibrary/CivilGA2D.h:200-218 | as written, (cos, sin) of angleAxeX(x, y) is a unit vector for d > 0; it scales back to (x, y) when y >= 0 and to (-x, y) when y < 0 |
| GA2DMirror.AxisDirection | MathLibrary/CivilGA2D.h:200-215 | corrected: (cos, sin) of the direction of (x, y), a unit vector that scales back to (x, y) |
| GA2DMirror.UnitDirection | MathLibrary/CivilGA2D.h:200-215 | (x/d, y/d) is a unit vector that scales back to (x, y) |
| GA2DMirror.DistanceZero | MathLibrary/CivilGA2D.cpp:18-19 | dist is 0 exactly when the two points coincide |
| GA2DMirror.Intercept | MathLibrary/CivilGA2D.cpp:43-44 | dblInt is the y at x = 0 of the line through both points: (0, dblInt) is collinear with each of them |
| GA2DMirror.MirrorAsWritten | MathLibrary/CivilGA2D.cpp:15-57 | as written: InvalidMirrorArgs exactly for coinciding points; otherwise an affine transform |
| GA2DMirror.MirrorOf | MathLibrary/CivilGA2D.cpp:15-57 | corrected (direction of the line instead of angleAxeX): InvalidMirrorArgs exactly for coinciding points; otherwise an affine transform |
| GA2DMirror.Mirror | MathLibrary/CivilGA2D.cpp:15-57 | the method's *= chain, with the angle from angleAxeX as written, raises exactly for coinciding points and otherwise yields MirrorAsWritten |
| GA2DMirror.MirrorInvolution | MathLibrary/CivilGA2D.cpp:15-57 | corrected mirror: mirroring twice is the identity |
| GA2DMirror.MirrorVertical | MathLibrary/CivilGA2D.cpp:30-40 | in the vertical branch, which the as-written and corrected mirrors share, across the vertical line x = x1, (x, y) goes to (2 x1 - x, y) |
| GA2DMirror.MirrorFixesIntercept | MathLibrary/CivilGA2D.cpp:41-54 | corrected mirror: the y-intercept (0, dblInt) of a non-vertical line is fixed |
| GA2DMirror.MirrorFixesEndpoints | MathLibrary/CivilGA2D.cpp:15-57 | corrected mirror: both points that define the mirror line are fixed points of the mirror |
| GA2DMirror.MirrorFixesLinePoint | MathLibrary/CivilGA2D.cpp:41-54 | corrected mirror: for a non-vertical line, a defining point is a fixed point |
| GA2DMirror.MirrorOfForm | MathLibrary/CivilGA2D.cpp:41-54 | corrected mirror: the non-vertical branch is the chain about (0, dblInt) with the line's unit direction |
| GA2DMirror.OnLine | MathLibrary/CivilGA2D.cpp:43-44 | each defining point is the intercept plus a multiple of the unit direction |
| GA2DMirror.MirrorAsWrittenForm | MathLibrary/CivilGA2D.cpp:41-54 | as written, the non-vertical branch is the chain with the direction angleAxeX returns |
| GA2DMirror.MirrorAsWrittenThroughOrigin | MathLibrary/CivilGA2D.h:213-214 | as written, for a line through the origin with y2 < 0 the reflection's direction is (-x2/d, y2/d), not (x2/d, y2/d) |
| GA2DMirror.MirrorAsWrittenMissesEndpoint | MathLibrary/CivilGA2D.h:213-214 | as written, the line through (0, 0) and (3, -4) moves its own point (3, -4) to (-4.68, 1.76) |
| GA2DMirror.MirrorAsWrittenAgrees | MathLibrary/CivilGA2D.cpp:15-57 | where y2 >= y1, and on a vertical line, the as-written and corrected mirrors coincide |
| GA2DMirror.MirrorAsWrittenInvolution | MathLibrary/CivilGA2D.cpp:15-57 | as written, mirroring twice is still the identity, since angleAxeX yields a unit direction |
| GA2DMirror.MirrorAsWrittenFixesIntercept | MathLibrary/CivilGA2D.cpp:41-54 | as written, the y-intercept (0, dblInt) of a non-vertical line is still fixed |
| AngleSpec.Abs | CivilAngle.cpp:47-58 | the absolute value is non-negative and equals x or -x |
| AngleSpec.RadiansOf | CivilAngle.cpp:33-39 | calcRadians of fields with no minutes or seconds is the whole-degree count, a turn counting 360 degrees, times π/180 |
| AngleSpec.FieldsOf | CivilAngle.cpp:41-61 | calcDegrees yields non-negative turns, degrees in [-360, 359], and minutes and seconds in [0, 59] |
| AngleSpec.FoldedBounds | CivilAngle.cpp:46-52 | the turns are the whole turns in the decimal degrees, and the folded value lies strictly inside one turn and reconstructs D with the sign of D |
| AngleSpec.TruncationBound | CivilAngle.cpp:57-60 | degrees, minutes and seconds fall less than one second of arc below the folded value |
| AngleSpec.RoundTripNonNegative | CivilAngle.cpp:33-61 | for r >= 0, calcRadians after calcDegrees returns r less under one second of arc |
| AngleSpec.RoundTripNegative | CivilAngle.cpp:33-61 | for r < 0, calcRadians after calcDegrees returns r plus 4π per whole turn, less the truncation; the turns are zero exactly above -360 degrees |
| AngleSpec.NegativeRoundTripFails | CivilAngle.cpp:33-61 | -400 degrees becomes 1 turn and -40 degrees, which calcRadians reads as +320 degrees |
| AngleSpec.FieldsOfRadiansOf | CivilAngle.cpp:33-61 | calcDegrees after calcRadians gives back fields in normal form: turns >= 0, degrees -359 to 359 with negative degrees only when turns is 0, minutes and seconds 0 to 59 |
| AngleSpec.ConstantRadians | CivilAngle.cpp:20-24 | ANGLE_45, ANGLE_90, ANGLE_180 and ANGLE_360 are π/4, π/2, π and 2π radians |
| AngleSpec.FormatDegreesAsWritten | MathLibrary/CivilAngle.h:127 | as written, the figure equals the corrected one for positive degrees and is its negation for zero degrees |
| AngleSpec.FormatAngle360AsWritten | MathLibrary/CivilAngle.h:127 | as written, ANGLE_360 (2π radians) prints -360 degrees |
| AngleSpec.FormatDegrees | MathLibrary/CivilAngle.h:127 | corrected: for non-negative turns and degrees inside one turn, the figure's magnitude splits back into the turns (div 360) and the degrees (mod 360), with the degrees' sign |
| AngleSpec.FormatDegreesOfRadians | MathLibrary/CivilAngle.h:127 | the corrected degree figure of an angle r >= 0 is the floor of its decimal degrees, and ANGLE_360 prints 360 |
| AngleSpec.FormatAgreement | MathLibrary/CivilAngle.h:127 | the as-written and corrected figures differ exactly when degrees is 0 and turns is not |
| AngleSpec.ToShort | CivilAngle.cpp:90-96 | the short int value of an integer: in [-32768, 32767], congruent mod 65536, and unchanged when it fits |
| AngleSpec.FoldDegreesAsWritten | CivilAngle.cpp:93-96 | as written, the fold is narrowed to a short; without turns it is the narrowed count, and for a non-negative count it is the narrowed count less its whole turns |
| AngleSpec.FoldNegativeAsWritten | CivilAngle.cpp:93-96 | as written, -400° gives 1 turn and -760 degrees, -760° gives -1480 degrees, and -20000° gives -39800, narrowed to 25736 |
| AngleSpec.ParsedTurns | CivilAngle.cpp:91 | the turns are the whole turns in the absolute degree count |
| AngleSpec.FoldDegrees | CivilAngle.cpp:93-96 | the corrected fold lies strictly inside one turn, has the count's sign, and with the turns reconstructs the count |
| AngleSpec.FoldAgreement | CivilAngle.cpp:93-96 | the as-written and corrected folds agree for counts above -360 |
| AngleSpec.FoldFormatsBack | CivilAngle.cpp:93-96 | the corrected fold's fields print the parsed count again |
| AngleSpec.ZeroAngle | CivilAngle.cpp:33-61 | the zero angle is zero in both forms |
| CivilAngle.Angle.constructor | MathLibrary/CivilAngle.h:44 | a default angle is zero in every member |
| CivilAngle.Angle.FromRadians | MathLibrary/CivilAngle.h:45-49 | stores the radians and the fields calcDegrees derives from them |
| CivilAngle.Angle.FromFields | MathLibrary/CivilAngle.h:50-57 | stores the fields unchecked and the radians calcRadians derives from them |
| CivilAngle.Angle.CalcRadians | CivilAngle.cpp:33-39 | the radians become those the fields denote; the fields stay |
| CivilAngle.Angle.CalcDegrees | CivilAngle.cpp:41-61 | the fields become those of the radians; the radians stay |
| CivilAngle.Angle.SetTurns | MathLibrary/CivilAngle.h:74-84 | only the turns change; the radians follow unless the value was already stored |
| CivilAngle.Angle.SetDegrees | MathLibrary/CivilAngle.h:85-95 | only the degrees change; the radians follow unless the value was already stored |
| CivilAngle.Angle.SetMinutes | MathLibrary/CivilAngle.h:96-106 | only the minutes change; the radians follow unless the value was already stored |
| CivilAngle.Angle.SetSeconds | MathLibrary/CivilAngle.h:107-117 | only the seconds change; the radians follow unless the value was already stored |
| CivilAngle.Angle.Plus | MathLibrary/CivilAngle.h:142-145 | a new angle of the summed radians, with its fields derived |
| CivilAngle.Angle.PlusReal | MathLibrary/CivilAngle.h:146-153 | a new angle of the radians plus the number, with its fields derived |
| CivilAngle.Angle.Minus | MathLibrary/CivilAngle.h:167-170 | a new angle of the radians' difference, with its fields derived |
| CivilAngle.Angle.MinusReal | MathLibrary/CivilAngle.h:171-174 | a new angle of the radians less the number |
| CivilAngle.Angle.RealMinus | MathLibrary/CivilAngle.h:175-178 | a new angle of the number less the radians |
| CivilAngle.Angle.Assign | MathLibrary/CivilAngle.h:154-165 | every member takes the other angle's value |
| CivilAngle.Angle.AddAssign | MathLibrary/CivilAngle.h:154-159 | the radians grow by the other angle's (also for the same angle) and the fields follow |
| CivilAngle.Angle.AddAssignReal | MathLibrary/CivilAngle.h:160-165 | the radians grow by the number and the fields follow |
| CivilAngle.Angle.SubAssign | MathLibrary/CivilAngle.h:179-184 | the radians shrink by the other angle's (also for the same angle) and the fields follow |
| CivilAngle.Angle.SubAssignReal | MathLibrary/CivilAngle.h:185-190 | the radians shrink by the number and the fields follow |
| CivilAngle.Angle.Equal | MathLibrary/CivilAngle.h:192-195 | == compares the radians and is reflexive |
| CivilAngle.Angle.NotEqual | MathLibrary/CivilAngle.h:196-199 | != is exactly the negation of == |
| CivilAngle.Angle.Greater | MathLibrary/CivilAngle.h:200-203 | > implies != |
| CivilAngle.Angle.GreaterEq | MathLibrary/CivilAngle.h:204-207 | >= is exactly > or == |
| CivilAngle.Angle.Less | MathLibrary/CivilAngle.h:208-211 | < is exactly the negation of >= |
| CivilAngle.Angle.LessEq | MathLibrary/CivilAngle.h:212-215 | <= is exactly < or == |
| CivilAngle.ComparisonsTotal | MathLibrary/CivilAngle.h:192-215 | exactly one of <, == and > holds; != negates ==, <= and >= are their disjunctions, and > is < flipped |
| CivilAngle.EqualIgnoresFields | MathLibrary/CivilAngle.h:192-195 | angles with equal radians compare equal even when their fields differ |
| CivilAngle.PlusCommutesMinusCancels | MathLibrary/CivilAngle.h:142-178 | a + b and b + a agree in every member, and a - a is the zero angle |
| CivilAngle.DigitRun | CivilAngle.cpp:26 | the digit run at the head of a string is all digits and is followed by a non-digit or the end |
| CivilAngle.OptionalGroup | CivilAngle.cpp:26 | an optional minutes or seconds group reads a value of at most 59 and consumes input, or nothing |
| CivilAngle.Parse | CivilAngle.cpp:26 | a recognised literal's minutes and seconds lie in [0, 59] |
| CivilAngle.ParseUnsigned | CivilAngle.cpp:26 | the unsigned part of a recognised literal has bounded groups |
| CivilAngle.ParseMarks | CivilAngle.cpp:26 | the marks after the degree symbol give bounded groups |
| CivilAngle.NatDigits | CivilAngle.cpp:26 | a count renders as a non-empty run of digits |
| CivilAngle.DigitsValue | CivilAngle.cpp:83-90 | atoi of a digit run: its last digit is the value mod 10, and a run of zeros is 0 |
| CivilAngle.RenderBody | CivilAngle.cpp:26 | the unsigned part of a rendered literal starts with a digit |
| CivilAngle.DigitsValueOfNatDigits | CivilAngle.cpp:83-90 | atoi of the digits of n is n |
| CivilAngle.DigitRunOfDigits | CivilAngle.cpp:26 | the digit run of digits followed by a non-digit is exactly those digits |
| CivilAngle.GroupOfDigits | CivilAngle.cpp:26 | a one- or two-digit group of value at most 59 with its mark is read back |
| CivilAngle.SecondsNotMinutes | CivilAngle.cpp:26 | a seconds group is not taken for a minutes group |
| CivilAngle.ParseRenderMarks | CivilAngle.cpp:26 | rendered minutes and seconds marks are read back |
| CivilAngle.ParseRender | CivilAngle.cpp:26 | every literal in the grammar's form is recognised with exactly its groups |
| CivilAngle.ParseRenderBody | CivilAngle.cpp:26 | the unsigned part of a rendered literal is recognised with its groups |
| CivilAngle.ParseOfBody | CivilAngle.cpp:26 | digits, the degree symbol and marks parse to the digits' value with the marks' groups |
| CivilAngle.ParseRejects | CivilAngle.cpp:26 | the empty string, a bare count, a bare sign and a minutes group of 60 are refused |
| CivilAngle.ParseNeedsSymbol | CivilAngle.cpp:26 | no literal without the degree symbol is recognised |
| CivilAngle.AngleScratch.constructor | CivilAngle.cpp:27-31 | the static scratch fields start at zero |
| CivilAngle.AngleScratch.ValidateString | CivilAngle.cpp:63-103 | true exactly for literals in the grammar, changing nothing when false; otherwise absent groups read 0 and the count splits into whole turns and a remainder folded towards zero |
| CivilAngle.ValidateExample | CivilAngle.cpp:63-103 | with the corrected fold, the literal -760° 7" is accepted as 2 turns, -40 degrees, 0 minutes and 7 seconds (as written the source stores -1480 degrees, see FoldNegativeAsWritten) |

## Left out

- `sqrt`, `sin`, `cos` and `acos` are not computed. Distances, cosines and sines are parameters tied to their defining equations.
- `Point2D::dist`, `versor`, `angleAxeX`, `angleBetween`, `Vector2D::getModule` and `setModule` are not modelled as values, because they need those functions. `angleAxeX` appears only as the direction of the mirror axis: `AxisDirectionAsWritten` as written, `AxisDirection` corrected.
- Floating-point rounding is not modelled: all arithmetic is exact over the reals.
- `M_PI` is the decimal literal of the C macro, not the real π.
- `Angle::format` in radians mode, and the `sprintf_s` text of degrees mode, are not modelled. Only the whole-degree figure of degrees mode is (`FormatDegrees`).
- The string form produced by `format` is not modelled, so there is no round trip from format back to the recogniser.
- `std::regex` is not modelled. The recogniser `Parse` implements the grammar of the pattern at CivilAngle.cpp:26.
- The degree symbol of that pattern is a parameter `sym`. It is any character the grammar can tell apart from digits, the sign and the marks.
- `atoi` beyond the range of `int` is undefined in the source. The model wraps the exact value to 16 bits (`ToShort`), which is the same as `atoi` within `int`.
- The `short int` narrowing of `calcDegrees` turns and degrees is not modelled, so angles of more than 32767 turns are out of scope.
- CivilAngle.Angle.Equal and the other comparison predicates read the radians field directly. The getters `getTurns` and the like are field reads.
- `operator double` is the `radians` field.
- `operator+(double, Angle)` shares `PlusReal`, since it forwards to it.
- GA2D.Div, GA2D.DivScalar and GA2D.ScalarDiv require non-zero divisors. The source divides doubles and yields infinities or NaN there, which the real-number model has no value for.
- CivilAngle.AngleScratch.ValidateString applies the corrected fold of the degree count, not the as-written one (see Findings). The as-written fold is `FoldDegreesAsWritten`.
- The static `m_*Valid` fields are written and never read by the source. They are the fields of `AngleScratch`.
- The `Matrix(_type *values, rows, cols)` constructor is not modelled. It copies `rows + cols` items with `memcpy`, so its effect depends on the memory layout.
- `operator/` on matrices is not modelled. Neither are the compound assignments `+=`, `-=`, `*=` and `/=`, nor the scalar-on-the-left forwarding operators. Each is a composition of modelled operations with assignment.
- `operator/(mat, value)` calls unqualified `getRowCount()` from a friend function, which does not compile.
- MatrixSpec.Add and CivilMatrix.Matrix.Add read the loop bounds of `operator+(mat1, mat2)` as mat1's counts. The source loops to unqualified `getRowCount()` and `getColCount()` inside a friend function (CivilMatrix.h:331-332), which does not compile, the same defect as `operator/`.
- MatrixSpec.IsInvertible, MatrixSpec.Reverse, CivilMatrix.Matrix.Invertible and CivilMatrix.Matrix.Reverse call the determinant from `invertible() const` and `reverse() const` (CivilMatrix.h:259-268). The source's `calcDet()` is not const (CivilMatrix.h:518), so these calls do not compile once instantiated. The model reads them as the determinant of the matrix's value.
- `Matrix::operator=` is the buffer copy inside `CivilMatrix.Matrix.Copy`.
- The `MATRIX_DYNAMIC` configuration of `Matrix` is not modelled. Only the fixed-buffer configuration is.
- `DynArray` is modelled on its own, with its `malloc`/`realloc`/`free` mechanics replaced by a fresh array.
- The `DynArray` destructor is not modelled, because memory is managed by Dafny.
- Cells that a `DynArray` resize adds hold unspecified values, as freshly allocated memory does.
- The `Range`-typed row and column parameters of `Matrix` and `DynArray` are plain naturals. A `Range` argument is never checked on construction (see `UncheckedConstruction`).
- Matrix constructors require counts within the 20 x 20 buffer. `Matrix(rows, cols)` (CivilMatrix.h:59-64) only stores the counts, but the later `setItem`, `null` and `identity` check indices against those counts alone and would write outside the buffer.
- `CivilError.h` is replaced by the `Errors.ErrorCode` datatype. `RAISE` becomes an `Err`/`Fail` result.
- The self-recursive `Point2D` scalar-on-the-left `+` and `-` (CivilGA2D.h:237-240, 263-266) call themselves forever and are not modelled.
- `Point2D::transform` heap-allocates its result with `new`. The model returns a value.
- The `operator Matrix<double, 3, 3>` branch of `MATRIX_DYNAMIC` returns nothing and is not modelled.

## Findings

| source | as written | input that shows it | evidently intended | confidence | as-written member | corrected member |
|---|---|---|---|---|---|---|
| MathLibrary/CivilGA2D.h:66-75 | `scale` writes the factors to `items[1][1]` and `items[2][2]` | any point (x, y): it maps to (x, xFactor·y), and the homogeneous weight becomes yFactor | `items[0][0] = xFactor`, `items[1][1] = yFactor`, mapping (x, y) to (xFactor·x, yFactor·y) | not executed | GA2D.ScaleAsWrittenMisplaced | GA2D.ScaleScales |
| MathLibrary/CivilGA2D.h:213-214 | `angleAxeX` adds 180° to `acos(x/d)` when y < 0, so for y2 < y1 `mirror` (CivilGA2D.cpp:41-54) reflects across the axis direction (-x/d, y/d) instead of (x/d, y/d) | mirror through (0, 0) and (3, -4), d = 5: the point (3, -4) on the line maps to (-4.68, 1.76) | the direction angle of (x, y) is -acos(x/d) for y < 0, so every point of the line is fixed | not executed | GA2DMirror.MirrorAsWrittenMissesEndpoint | GA2DMirror.MirrorFixesEndpoints |
| CivilAngle.cpp:93-96 | for a negative count with whole turns, `m_degreesValid = intDeg - m_turnsValid * 360` moves away from zero | the literal -400° gives 1 turn and -760 degrees | fold towards zero by the count's sign: -400° gives 1 turn and -40 degrees | not executed | AngleSpec.FoldNegativeAsWritten | AngleSpec.FoldDegrees |
| MathLibrary/CivilAngle.h:127 | `format` signs the turns by `m_degrees > 0`, so zero degrees subtract the turns | ANGLE_360 (1 turn, 0 degrees) prints -360 | sign by `m_degrees >= 0`: ANGLE_360 prints 360, and every angle r >= 0 prints the floor of its decimal degrees | not executed | AngleSpec.FormatAngle360AsWritten | AngleSpec.FormatDegreesOfRadians |

The round trip of `calcDegrees` and `calcRadians` for negative angles of at
least one turn is also off: -400 degrees comes back as +320 degrees. The
turns are stored without a sign while the degrees carry it, so
`calcRadians` adds the turns with the wrong sign. No local change to either
function restores the round trip without changing the fields' meaning.
`AngleSpec.RoundTripNegative` and `AngleSpec.NegativeRoundTripFails` state
this behaviour as written.
