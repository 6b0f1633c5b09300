# Dense integer matrices: a verified model

This project models the `Matrix` class of the `com.neumma` matrix demo: a dense
integer matrix with a name, fixed dimensions and a row-major grid of cells; the
shape-compatibility check; elementwise addition and textbook multiplication, each
returning a fresh result matrix named `"<a>+<b>"` / `"<a>*<b>"` or failing with an
incompatible-size error; the cached display width `cellSize`; and cell get/set.

Files:

- `decimal.dfy` (module `Decimal`): the length of `String.valueOf(int)`, with the
  rendering itself, a parser proving the rendering reads back, and digit-count bounds.
- `matrix.dfy` (module `Matrices`): the `Matrix` datatype and its well-formedness
  predicate, the constructor, `GetCell`/`SetCell`, `Compatible`, the display-width
  refresh, and the pure `Add`/`Multiply` returning `Result<Matrix>`.
- `matrix_loops.dfy` (module `MatrixLoops`): the nested loops of `Matrix.java`, writing one
  cell at a time into a freshly constructed (randomly filled) result matrix, each
  proved equal to the pure operation whatever the random fill was.
- `matrix_laws.dfy` (module `MatrixLaws`): how the check decides the outcome,
  commutativity of addition, identity and distributivity of the product, when Java's
  32-bit arithmetic agrees with the unbounded model, and the demo driver's scenarios.

Modelling decisions:

- The exception `IncompatibleMatrixSizeException` becomes `Err(DimensionError(message,
  op, first, second))`. It holds the Java class's message text, the operation, and each
  operand's name, height and width. An error never carries a result matrix.
- `Matrix` is an immutable value. `Add` and `Multiply` take their operands by value,
  so the operands cannot change. This models `Matrix.java`, where only `result.setCell`
  writes during an operation.
- The getters `getHeight`, `getWidth` and `getName` are the datatype's fields.
- The random fill is a parameter. `draws` holds the values the generator returned, and
  the constructor requires them to lie in `[-20, 20]`, which is the range
  `RandomGenerator.getRandomInteger` promises.
- Dimensions: the Java class never checks them. `new int[0][w]` is legal in Java, so a
  dimension may be 0. A negative dimension makes Java throw, so the constructor's
  precondition excludes it. A matrix with no cells keeps `Integer.MIN_VALUE` as its
  display width after a refresh, and `IsDisplayWidth` states that case too.
- The model follows what `Matrix.java` does, including where a reader might expect otherwise:
  - The three-argument constructor also fills the matrix randomly; it does not
    zero-fill. The result matrices of `add`/`multiply` therefore start random and are
    overwritten, as `AddLoops`/`MultiplyLoops` model.
  - A zero dimension is accepted rather than refused.
  - The multiplication accumulator is a plain 32-bit `int`, not a wider type.

## Model

| member | source | states |
|---|---|---|
| `Decimal.DigitCountBounds` | src/main/java/com/neumma/Matrix.java:75 | the digit count d of a magnitude n satisfies 10^(d-1) <= n < 10^d (0 has one digit) |
| `Decimal.DigitCountUnique` | src/main/java/com/neumma/Matrix.java:75 | any k with 10^(k-1) <= n < 10^k is the digit count, so the width of a rendering is determined by the value's magnitude |
| `Decimal.IntToStringLength` | src/main/java/com/neumma/Matrix.java:75 | the decimal rendering of a value (minus sign plus digits) has exactly `DecimalLength` characters |
| `Decimal.IntToStringRoundTrip` | src/main/java/com/neumma/Matrix.java:75 | the rendering is an optionally signed run of digits that parses back to the original value |
| `Decimal.DecimalLengthBound` | src/main/java/com/neumma/Matrix.java:38-40 | a value with magnitude below 10^k renders in at most k characters, plus one for a minus sign |
| `Matrices.InitialCellSize` | src/main/java/com/neumma/Matrix.java:38-40 | the constructor's width, the longer of the renderings of -20 and 20, is 3 and is at least the width of every value in [-20, 20] |
| `Matrices.New` | src/main/java/com/neumma/Matrix.java:31-40 | a fresh matrix has the requested shape and name, cells drawn from [-20, 20], and a display width of 3 that bounds the width of every cell |
| `Matrices.Compatible` | src/main/java/com/neumma/Matrix.java:119-129 | addition passes exactly when heights and widths agree, so both operands have the same positions; multiplication passes exactly when `a.width == b.height`, so every row of `a` is as long as every column of `b` |
| `Matrices.FlattenLength` | src/main/java/com/neumma/Matrix.java:221-223 | a grid of `width`-long rows laid out row after row has `height * width` entries |
| `Matrices.FlattenAt` | src/main/java/com/neumma/Matrix.java:221-223 | in that layout, cell (y, x) sits at offset `y * width + x`, which is in range |
| `Matrices.GetCell` | src/main/java/com/neumma/Matrix.java:221-223 | reading (y, x) returns the entry at offset `y * width + x` of the row-major layout of the cells, which is in range for every in-bounds position |
| `Matrices.SetCell` | src/main/java/com/neumma/Matrix.java:204-206 | after a write, reading the written cell gives the new value; every other cell, the shape, the name and the cached width are unchanged |
| `Matrices.GridFoldIsMax` | src/main/java/com/neumma/Matrix.java:71-78 | the row-major maximum search ends at least at its start value and at least at every cell's width, and equals the start value or some cell's width |
| `Matrices.CellSizeOfIsDisplayWidth` | src/main/java/com/neumma/Matrix.java:70-81 | the width stored by the refresh is the longest rendering of any cell (some cell attains it), or `Integer.MIN_VALUE` when there are no cells |
| `Matrices.DisplayWidthUnique` | src/main/java/com/neumma/Matrix.java:70-81 | at most one width is the display width of a grid, so any computation meeting the characterisation gives the same value |
| `Matrices.UpdateCellSize` | src/main/java/com/neumma/Matrix.java:70-81 | the refresh changes only the cached width, which becomes the display width of the cells |
| `Matrices.Add` | src/main/java/com/neumma/Matrix.java:173-196 | fails exactly when heights or widths differ, with the addition message and both operand shapes; otherwise the result has `a`'s shape, name `a.name+"+"+b.name`, each cell the sum of the operands' cells, and a refreshed display width |
| `Matrices.Multiply` | src/main/java/com/neumma/Matrix.java:137-165 | fails exactly when `a.width != b.height`, with the multiplication message and both shapes; otherwise the result is `a.height x b.width`, named `a.name+"*"+b.name`, with each cell (y,x) the sum over i of `a[y][i]*b[i][x]` and a refreshed display width |
| `MatrixLoops.ComputeCellSize` | src/main/java/com/neumma/Matrix.java:70-81 | the nested loop starting from `Integer.MIN_VALUE` returns the longest rendering of any cell |
| `MatrixLoops.AddLoops` | src/main/java/com/neumma/Matrix.java:173-196 | checking, constructing a randomly filled result, writing every cell and refreshing the width gives exactly `Add`, whatever the random fill |
| `MatrixLoops.CellProduct` | src/main/java/com/neumma/Matrix.java:154-157 | the accumulator loop over the inner index returns the dot product of row y and column x |
| `MatrixLoops.MultiplyLoops` | src/main/java/com/neumma/Matrix.java:137-165 | the triple loop writing into a randomly filled result gives exactly `Multiply`, whatever the random fill |
| `MatrixLaws.CompatibilityDecidesOutcome` | src/main/java/com/neumma/Matrix.java:119-129 | addition succeeds exactly when the addition check passes, multiplication exactly when the multiplication check passes, and the addition check is symmetric |
| `MatrixLaws.AdditionCompatibleIffSamePositions` | src/main/java/com/neumma/Matrix.java:124-126 | for operands with at least one cell, the addition check passes exactly when every position of one operand is a position of the other |
| `MatrixLaws.MultiplicationCompatibilityAsymmetric` | src/main/java/com/neumma/Matrix.java:121-123 | the multiplication check is not symmetric: 2x3 by 3x3 passes, 3x3 by 2x3 fails |
| `MatrixLaws.AddCommutes` | src/main/java/com/neumma/Matrix.java:187-193 | `a+b` and `b+a` have the same cells and display width |
| `MatrixLaws.DotUnit` | src/main/java/com/neumma/Matrix.java:155-157 | the accumulated sum against a unit vector selects one entry |
| `MatrixLaws.DotAddRight` | src/main/java/com/neumma/Matrix.java:155-157 | the accumulated sum is linear in the column: u.(v+w) = u.v + u.w |
| `MatrixLaws.MultiplyByIdentityRight` | src/main/java/com/neumma/Matrix.java:152-160 | multiplying by an identity matrix on the right succeeds and reproduces the cells |
| `MatrixLaws.MultiplyByIdentityLeft` | src/main/java/com/neumma/Matrix.java:152-160 | multiplying by an identity matrix on the left succeeds and reproduces the cells |
| `MatrixLaws.MultiplyDistributesOverAdd` | src/main/java/com/neumma/Matrix.java:152-160 | for B, C of equal shape and A with as many columns as B has rows, A*(B+C) and A*B + A*C both succeed and have the same cells |
| `MatrixLaws.ProductOfDefaultRange` | src/main/java/com/neumma/Matrix.java:156 | the product of two values in [-20, 20] lies in [-400, 400] |
| `MatrixLaws.DotOfDefaultRangeBound` | src/main/java/com/neumma/Matrix.java:154-157 | a sum of k products of such values lies in [-400k, 400k] |
| `MatrixLaws.AddOfDefaultRangeFitsInt32` | src/main/java/com/neumma/Matrix.java:189 | sums of two randomly filled matrices lie in [-40, 40], so Java's `int` addition does not wrap |
| `MatrixLaws.MultiplyOfDefaultRangeFitsInt32` | src/main/java/com/neumma/Matrix.java:154-157 | for randomly filled operands with inner dimension at most 5368709, every product `a[y][i]*b[i][x]` and every partial sum the `int` accumulator holds fit in 32 bits |
| `MatrixLaws.DemoScenarios` | src/main/java/com/neumma/Main.java:6-45 | for any 2x3 `A`, 3x2 `B` and 2x3 `C`: `A+C` gives a 2x3 matrix named `A+C`, `A+B` fails as an addition, `A*B` gives a 2x2 matrix named `A*B`, and `A*C` fails as a multiplication |
| `MatrixLaws.DisplayWidthFollowsContent` | src/main/java/com/neumma/Matrix.java:162-193 | after an operation the width follows the content, not the fill bounds: a 1200 result gives width 4, and 1+1 gives width 1 |

## Left out

- `printMatrix`, and the verbose printing in the constructor: these write to standard
  output through `printf` formatting. The model keeps only the width they use
  (`cellSize`).
- `generateRandomValues` and `RandomGenerator`: randomness is an input. The values
  drawn are the `draws` parameter, with the generator's promised range as a
  precondition.
- `IncompatibleMatrixSizeException` prints a report to standard output when it is
  built. The model keeps only the data the report shows.
- `Main` is a demo driver. Only its four scenarios are stated, in `DemoScenarios`.
- `setName` is not modelled. It is a plain field update that no modelled operation
  uses.
- `MatrixOperation.java` is not part of this model. The `Operation` datatype has the
  two constants `Matrix.java` uses (lines 121, 124, 143 and 179). The `return false` fallback of `checkMatrixSizeCompatibility`
  therefore has no case left to cover.
- Bounds of `getCell`/`setCell` are not checked by the Java class, so they are
  preconditions. Out-of-range access throws in Java and has no counterpart here.
- Java 32-bit `int` wrap-around: cells, sums and products are mathematical integers.
  `AddOfDefaultRangeFitsInt32` and `MultiplyOfDefaultRangeFitsInt32` show that no wrap
  happens for randomly filled operands of realistic size. A result that is fed back
  into further operations can leave that range, and wrap-around for such a result is
  not modelled.
