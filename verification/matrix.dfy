/**
 The dense integer matrix of `Matrix.java`: a name, fixed dimensions, a row-major
 grid of cells and the cached display width `cellSize`. Operations are pure
 functions; a failed compatibility check is an `Err` value carrying what the
 Java class's `IncompatibleMatrixSizeException` carries.
 */
module Matrices {
  import Decimal

  /** The operation kinds the compatibility check distinguishes. */
  datatype Operation = Multiplication | Addition

  /** Bounds of the random initial fill. */
  const DefaultMin: int := -20
  const DefaultMax: int := 20

  /** Java's `Integer.MIN_VALUE`, the starting point of the display-width search. */
  const IntMinValue: int := -0x8000_0000

  const MultiplyMismatchMessage: string :=
    "Number of columns of first matrix is not equal to number of rows of second matrix."
  const AddMismatchMessage: string := "Matrices are not the same size."

  type Grid = seq<seq<int>>

  datatype Matrix = Matrix(name: string, height: int, width: int, cells: Grid, cellSize: int)

  /** Name and dimensions of an operand, as reported with a failed operation. */
  datatype Shape = Shape(name: string, height: int, width: int)

  datatype DimensionError = DimensionError(message: string, op: Operation, first: Shape, second: Shape)

  datatype Result<+T> = Ok(value: T) | Err(error: DimensionError)

  predicate IsRectangular(g: Grid, height: int, width: int) {
    && |g| == height
    && forall y :: 0 <= y < |g| ==> |g[y]| == width
  }

  /** The grid has exactly `height` rows of `width` cells each. */
  predicate Valid(m: Matrix) {
    && m.height >= 0
    && m.width >= 0
    && IsRectangular(m.cells, m.height, m.width)
  }

  predicate InBounds(m: Matrix, y: int, x: int) {
    0 <= y < m.height && 0 <= x < m.width
  }

  function ShapeOf(m: Matrix): Shape {
    Shape(m.name, m.height, m.width)
  }

  function Max(a: int, b: int): int {
    if a < b then b else a
  }

  // ----- Compatibility -----

  /**
   `checkMatrixSizeCompatibility`: addition needs equal shapes, so that both operands
   have the same positions; multiplication needs the first operand's width to equal
   the second's height, so that every row of `a` is as long as every column of `b`.
   */
  function Compatible(op: Operation, a: Matrix, b: Matrix): (r: bool)
    ensures op == Addition ==> (r <==> a.height == b.height && a.width == b.width)
    ensures op == Addition && r ==> forall y, x :: InBounds(a, y, x) <==> InBounds(b, y, x)
    ensures op == Multiplication ==> (r <==> a.width == b.height)
    ensures op == Multiplication && r && Valid(a) && Valid(b) ==>
      forall y, x :: 0 <= y < a.height && 0 <= x < b.width ==> |a.cells[y]| == |Column(b.cells, x)|
  {
    match op
    case Multiplication => a.width == b.height
    case Addition => a.width == b.width && a.height == b.height
  }

  // ----- Display width -----

  /** The Java inner loop over one row: the largest rendering width seen, starting from `acc`. */
  function RowFold(acc: int, row: seq<int>): int {
    if |row| == 0 then acc
    else Max(Decimal.DecimalLength(row[|row| - 1]), RowFold(acc, row[..|row| - 1]))
  }

  /** The Java outer loop: rows folded in order, starting from `acc`. */
  function GridFold(acc: int, g: Grid): int {
    if |g| == 0 then acc
    else RowFold(GridFold(acc, g[..|g| - 1]), g[|g| - 1])
  }

  /** What `updateCellSize` stores: the search started from `Integer.MIN_VALUE`. */
  function CellSizeOf(g: Grid): int {
    GridFold(IntMinValue, g)
  }

  predicate HasCell(g: Grid) {
    exists y :: 0 <= y < |g| && |g[y]| > 0
  }

  /**
   `size` is the display width of `g`: no cell renders wider, and some cell renders
   exactly that wide; a grid without cells keeps `Integer.MIN_VALUE`.
   */
  predicate IsDisplayWidth(g: Grid, size: int) {
    && (forall y, x :: 0 <= y < |g| && 0 <= x < |g[y]| ==> Decimal.DecimalLength(g[y][x]) <= size)
    && (HasCell(g) ==> exists y, x :: 0 <= y < |g| && 0 <= x < |g[y]| && Decimal.DecimalLength(g[y][x]) == size)
    && (!HasCell(g) ==> size == IntMinValue)
  }

  lemma {:induction false} RowFoldIsMax(acc: int, row: seq<int>)
    ensures acc <= RowFold(acc, row)
    ensures forall x :: 0 <= x < |row| ==> Decimal.DecimalLength(row[x]) <= RowFold(acc, row)
    ensures RowFold(acc, row) == acc
         || exists x :: 0 <= x < |row| && Decimal.DecimalLength(row[x]) == RowFold(acc, row)
  {
    if |row| > 0 {
      var init := row[..|row| - 1];
      RowFoldIsMax(acc, init);
      assert forall x :: 0 <= x < |init| ==> init[x] == row[x];
    }
  }

  lemma {:induction false} GridFoldIsMax(acc: int, g: Grid)
    ensures acc <= GridFold(acc, g)
    ensures forall y, x :: 0 <= y < |g| && 0 <= x < |g[y]| ==> Decimal.DecimalLength(g[y][x]) <= GridFold(acc, g)
    ensures GridFold(acc, g) == acc
         || exists y, x :: 0 <= y < |g| && 0 <= x < |g[y]| && Decimal.DecimalLength(g[y][x]) == GridFold(acc, g)
  {
    if |g| > 0 {
      var init := g[..|g| - 1];
      var last := g[|g| - 1];
      GridFoldIsMax(acc, init);
      RowFoldIsMax(GridFold(acc, init), last);
      assert forall y :: 0 <= y < |init| ==> init[y] == g[y];
      var r := GridFold(acc, g);
      if r != GridFold(acc, init) {
        var x :| 0 <= x < |last| && Decimal.DecimalLength(last[x]) == r;
        assert Decimal.DecimalLength(g[|g| - 1][x]) == r;
      } else if r != acc {
        var y, x :| 0 <= y < |init| && 0 <= x < |init[y]| && Decimal.DecimalLength(init[y][x]) == r;
        assert Decimal.DecimalLength(g[y][x]) == r;
      }
    }
  }

  /** The cached width after a bulk update is the longest rendering of any cell. */
  lemma CellSizeOfIsDisplayWidth(g: Grid)
    ensures IsDisplayWidth(g, CellSizeOf(g))
  {
    GridFoldIsMax(IntMinValue, g);
    var r := CellSizeOf(g);
    if r == IntMinValue {
      // every rendering is at least one character wide, so no cell can exist
      assert forall y :: 0 <= y < |g| && |g[y]| > 0 ==> Decimal.DecimalLength(g[y][0]) <= r;
    } else {
      var y, x :| 0 <= y < |g| && 0 <= x < |g[y]| && Decimal.DecimalLength(g[y][x]) == r;
      assert |g[y]| > 0;
    }
  }

  /** At most one width fits a grid, so any computation meeting `IsDisplayWidth` agrees with `CellSizeOf`. */
  lemma DisplayWidthUnique(g: Grid, s1: int, s2: int)
    requires IsDisplayWidth(g, s1) && IsDisplayWidth(g, s2)
    ensures s1 == s2
  {
    if HasCell(g) {
      var y1, x1 :| 0 <= y1 < |g| && 0 <= x1 < |g[y1]| && Decimal.DecimalLength(g[y1][x1]) == s1;
      var y2, x2 :| 0 <= y2 < |g| && 0 <= x2 < |g[y2]| && Decimal.DecimalLength(g[y2][x2]) == s2;
    }
  }

  /** `updateCellSize`: recompute the cached display width from the current cells. */
  function UpdateCellSize(m: Matrix): (r: Matrix)
    ensures r.name == m.name && r.height == m.height && r.width == m.width && r.cells == m.cells
    ensures IsDisplayWidth(r.cells, r.cellSize)
  {
    CellSizeOfIsDisplayWidth(m.cells);
    m.(cellSize := CellSizeOf(m.cells))
  }

  /** The display width set by the constructor: the longer rendering of the two fill bounds. */
  function InitialCellSize(): (size: int)
    ensures size == 3
    ensures forall v :: DefaultMin <= v <= DefaultMax ==> Decimal.DecimalLength(v) <= size
  {
    assert Decimal.DigitCount(20) == 2;
    forall v | DefaultMin <= v <= DefaultMax
      ensures Decimal.DecimalLength(v) <= 3
    {
      Decimal.DecimalLengthBound(v, 2);
    }
    Max(Decimal.DecimalLength(DefaultMax), Decimal.DecimalLength(DefaultMin))
  }

  // ----- Construction and cell access -----

  /** The values `RandomGenerator.getRandomInteger(DEFAULT_MIN, DEFAULT_MAX)` can return. */
  predicate InDefaultRange(g: Grid) {
    forall y, x :: 0 <= y < |g| && 0 <= x < |g[y]| ==> DefaultMin <= g[y][x] <= DefaultMax
  }

  /**
   The constructor. `draws` are the values the random generator produced, one per cell
   in row-major order; the display width is the worst case for the fill range, so it
   already bounds every cell.
   */
  function New(height: int, width: int, name: string, draws: Grid): (m: Matrix)
    requires height >= 0 && width >= 0
    requires IsRectangular(draws, height, width) && InDefaultRange(draws)
    ensures Valid(m) && m.height == height && m.width == width && m.name == name
    ensures m.cellSize == 3
    ensures forall y, x :: InBounds(m, y, x) ==> DefaultMin <= GetCell(m, y, x) <= DefaultMax
    ensures forall y, x :: InBounds(m, y, x) ==> Decimal.DecimalLength(GetCell(m, y, x)) <= m.cellSize
  {
    Matrix(name, height, width, draws, InitialCellSize())
  }

  /** The cells row after row, as one sequence. */
  function Flatten(g: Grid): seq<int> {
    if |g| == 0 then [] else Flatten(g[..|g| - 1]) + g[|g| - 1]
  }

  /** Row `y` of a grid with `rows` rows of `width` cells ends no later than the grid does. */
  lemma RowEndBound(y: nat, rows: nat, width: nat)
    requires y < rows
    ensures y * width + width == (y + 1) * width <= rows * width
  {
  }

  /** A grid of `width`-long rows flattens to `|g| * width` entries. */
  lemma {:induction false} FlattenLength(g: Grid, width: nat)
    requires IsRectangular(g, |g|, width)
    ensures |Flatten(g)| == |g| * width
  {
    var n := |g|;
    if n > 0 {
      FlattenLength(g[..n - 1], width);
      RowEndBound(n - 1, n, width);
    }
  }

  /** Row-major order: cell (y, x) of a grid of `width`-long rows sits at offset y * width + x. */
  lemma {:induction false} FlattenAt(g: Grid, width: nat, y: int, x: int)
    requires IsRectangular(g, |g|, width)
    requires 0 <= y < |g| && 0 <= x < width
    ensures y * width + x < |Flatten(g)| && Flatten(g)[y * width + x] == g[y][x]
  {
    var n := |g|;
    var prefix := g[..n - 1];
    var head := Flatten(prefix);
    FlattenLength(prefix, width);
    RowEndBound(n - 1, n, width);
    assert Flatten(g) == head + g[n - 1];
    if y < n - 1 {
      FlattenAt(prefix, width, y, x);
      assert prefix[y] == g[y];
    } else {
      assert y * width == |head|;
    }
  }

  /** `getCell(y, x)`: the cell of row `y`, column `x` in row-major order. */
  function GetCell(m: Matrix, y: int, x: int): (v: int)
    requires Valid(m) && InBounds(m, y, x)
    ensures |Flatten(m.cells)| == m.height * m.width
    ensures y * m.width + x < |Flatten(m.cells)| && v == Flatten(m.cells)[y * m.width + x]
  {
    FlattenLength(m.cells, m.width);
    FlattenAt(m.cells, m.width, y, x);
    m.cells[y][x]
  }

  /**
   `setCell`: the written cell reads back the new value; every other cell, the
   dimensions, the name and the cached display width are unchanged.
   */
  function SetCell(m: Matrix, y: int, x: int, v: int): (r: Matrix)
    requires Valid(m) && InBounds(m, y, x)
    ensures Valid(r)
    ensures r.name == m.name && r.height == m.height && r.width == m.width && r.cellSize == m.cellSize
    ensures GetCell(r, y, x) == v
    ensures forall y', x' :: InBounds(m, y', x') && (y', x') != (y, x) ==> GetCell(r, y', x') == GetCell(m, y', x')
  {
    m.(cells := m.cells[y := m.cells[y][x := v]])
  }

  // ----- Arithmetic -----

  /** Sum of `u[i] * v[i]`, accumulated from index 0 upwards. */
  function Dot(u: seq<int>, v: seq<int>): int
    requires |u| == |v|
  {
    if |u| == 0 then 0
    else Dot(u[..|u| - 1], v[..|v| - 1]) + u[|u| - 1] * v[|v| - 1]
  }

  /** Column `x` of `g`, top to bottom. */
  function Column(g: Grid, x: int): (c: seq<int>)
    requires 0 <= x
    requires forall y {:trigger g[y]} :: 0 <= y < |g| ==> x < |g[y]|
    ensures |c| == |g|
    ensures forall y :: 0 <= y < |g| ==> c[y] == g[y][x]
  {
    seq(|g|, y requires 0 <= y < |g| => g[y][x])
  }

  /** `m` is the elementwise sum of `a` and `b`: same shape, each cell the sum of the operands' cells. */
  predicate IsSumOf(m: Matrix, a: Matrix, b: Matrix)
    requires Valid(a) && Valid(b)
  {
    && Valid(m)
    && m.height == a.height == b.height && m.width == a.width == b.width
    && forall y, x :: 0 <= y < m.height && 0 <= x < m.width ==> m.cells[y][x] == a.cells[y][x] + b.cells[y][x]
  }

  /** `m` is the product of `a` and `b`: `a.height x b.width`, cell (y, x) the sum over i of `a[y][i] * b[i][x]`. */
  predicate IsProductOf(m: Matrix, a: Matrix, b: Matrix)
    requires Valid(a) && Valid(b)
  {
    && a.width == b.height
    && Valid(m)
    && m.height == a.height && m.width == b.width
    && forall y, x :: 0 <= y < m.height && 0 <= x < m.width ==> m.cells[y][x] == Dot(a.cells[y], Column(b.cells, x))
  }

  /** `add`: elementwise sum, or an addition error when the shapes differ. */
  function Add(a: Matrix, b: Matrix): (r: Result<Matrix>)
    requires Valid(a) && Valid(b)
    ensures r.Err? <==> a.height != b.height || a.width != b.width
    ensures r.Err? ==> r.error == DimensionError(AddMismatchMessage, Addition, ShapeOf(a), ShapeOf(b))
    ensures r.Ok? ==> IsSumOf(r.value, a, b)
    ensures r.Ok? ==> r.value.name == a.name + "+" + b.name && IsDisplayWidth(r.value.cells, r.value.cellSize)
  {
    if !Compatible(Addition, a, b) then
      Err(DimensionError(AddMismatchMessage, Addition, ShapeOf(a), ShapeOf(b)))
    else
      var sums := seq(a.height, y requires 0 <= y < a.height =>
        seq(a.width, x requires 0 <= x < a.width => a.cells[y][x] + b.cells[y][x]));
      Ok(UpdateCellSize(Matrix(a.name + "+" + b.name, a.height, a.width, sums, 0)))
  }

  /** `multiply`: the textbook product, or a multiplication error when the inner dimensions differ. */
  function Multiply(a: Matrix, b: Matrix): (r: Result<Matrix>)
    requires Valid(a) && Valid(b)
    ensures r.Err? <==> a.width != b.height
    ensures r.Err? ==> r.error == DimensionError(MultiplyMismatchMessage, Multiplication, ShapeOf(a), ShapeOf(b))
    ensures r.Ok? ==> IsProductOf(r.value, a, b)
    ensures r.Ok? ==> r.value.name == a.name + "*" + b.name && IsDisplayWidth(r.value.cells, r.value.cellSize)
  {
    if !Compatible(Multiplication, a, b) then
      Err(DimensionError(MultiplyMismatchMessage, Multiplication, ShapeOf(a), ShapeOf(b)))
    else
      var products := seq(a.height, y requires 0 <= y < a.height =>
        seq(b.width, x requires 0 <= x < b.width => Dot(a.cells[y], Column(b.cells, x))));
      Ok(UpdateCellSize(Matrix(a.name + "*" + b.name, a.height, b.width, products, 0)))
  }
}
