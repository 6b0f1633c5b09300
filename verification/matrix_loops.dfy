/**
 The algorithms of `Matrix.java` in their own shape: nested loops that write one result
 cell at a time into a freshly constructed (randomly filled) matrix, followed by
 the display-width refresh. Each is proved to compute the functional operation,
 whatever the random initial contents were.
 */
module MatrixLoops {
  import Decimal
  import opened Matrices

  /** `updateCellSize`: a row-major scan keeping the widest rendering seen so far. */
  method ComputeCellSize(m: Matrix) returns (size: int)
    requires Valid(m)
    ensures IsDisplayWidth(m.cells, size)
  {
    var maxCellSize := IntMinValue;
    var y := 0;
    while y < m.height
      invariant 0 <= y <= m.height
      invariant maxCellSize == GridFold(IntMinValue, m.cells[..y])
    {
      var x := 0;
      while x < m.width
        invariant 0 <= x <= m.width
        invariant maxCellSize == RowFold(GridFold(IntMinValue, m.cells[..y]), m.cells[y][..x])
      {
        var cellWidth := Decimal.DecimalLength(GetCell(m, y, x));
        assert m.cells[y][..x + 1][..x] == m.cells[y][..x];
        maxCellSize := Max(cellWidth, maxCellSize);
        x := x + 1;
      }
      assert m.cells[y][..x] == m.cells[y];
      assert m.cells[..y + 1][..y] == m.cells[..y];
      y := y + 1;
    }
    assert m.cells[..y] == m.cells;
    CellSizeOfIsDisplayWidth(m.cells);
    size := maxCellSize;
  }

  /** A matrix with the sum's name, shape, cells and display width is the one `Add` returns. */
  lemma AddMatches(a: Matrix, b: Matrix, m: Matrix)
    requires Valid(a) && Valid(b) && IsSumOf(m, a, b)
    requires m.name == a.name + "+" + b.name
    requires IsDisplayWidth(m.cells, m.cellSize)
    ensures Add(a, b) == Ok(m)
  {
    var expected := Add(a, b).value;
    assert forall y :: 0 <= y < a.height ==> m.cells[y] == expected.cells[y];
    assert m.cells == expected.cells;
    DisplayWidthUnique(m.cells, m.cellSize, expected.cellSize);
  }

  /** A matrix with the product's name, shape, cells and display width is the one `Multiply` returns. */
  lemma MultiplyMatches(a: Matrix, b: Matrix, m: Matrix)
    requires Valid(a) && Valid(b) && IsProductOf(m, a, b)
    requires m.name == a.name + "*" + b.name
    requires IsDisplayWidth(m.cells, m.cellSize)
    ensures Multiply(a, b) == Ok(m)
  {
    var expected := Multiply(a, b).value;
    assert forall y :: 0 <= y < a.height ==> m.cells[y] == expected.cells[y];
    assert m.cells == expected.cells;
    DisplayWidthUnique(m.cells, m.cellSize, expected.cellSize);
  }

  /** `add` as written: check, construct, fill cell by cell, refresh the width. */
  method AddLoops(a: Matrix, b: Matrix, draws: Grid) returns (r: Result<Matrix>)
    requires Valid(a) && Valid(b)
    requires IsRectangular(draws, a.height, a.width) && InDefaultRange(draws)
    ensures r == Add(a, b)
  {
    if !Compatible(Addition, a, b) {
      return Err(DimensionError(AddMismatchMessage, Addition, ShapeOf(a), ShapeOf(b)));
    }
    var result := New(a.height, a.width, a.name + "+" + b.name, draws);
    var y := 0;
    while y < a.height
      invariant 0 <= y <= a.height
      invariant Valid(result) && result.height == a.height && result.width == a.width
      invariant result.name == a.name + "+" + b.name
      invariant forall y', x' :: 0 <= y' < y && 0 <= x' < a.width ==>
        result.cells[y'][x'] == a.cells[y'][x'] + b.cells[y'][x']
    {
      var x := 0;
      while x < a.width
        invariant 0 <= x <= a.width
        invariant Valid(result) && result.height == a.height && result.width == a.width
        invariant result.name == a.name + "+" + b.name
        invariant forall y', x' :: 0 <= y' < y && 0 <= x' < a.width ==>
          result.cells[y'][x'] == a.cells[y'][x'] + b.cells[y'][x']
        invariant forall x' :: 0 <= x' < x ==> result.cells[y][x'] == a.cells[y][x'] + b.cells[y][x']
      {
        result := SetCell(result, y, x, GetCell(a, y, x) + GetCell(b, y, x));
        x := x + 1;
      }
      y := y + 1;
    }
    var size := ComputeCellSize(result);
    result := result.(cellSize := size);
    AddMatches(a, b, result);
    r := Ok(result);
  }

  /** The innermost loop of `multiply`: row `y` of `a` times column `x` of `b`, summed left to right. */
  method CellProduct(a: Matrix, b: Matrix, y: int, x: int) returns (sum: int)
    requires Valid(a) && Valid(b) && a.width == b.height
    requires 0 <= y < a.height && 0 <= x < b.width
    ensures sum == Dot(a.cells[y], Column(b.cells, x))
  {
    var column := Column(b.cells, x);
    sum := 0;
    var i := 0;
    while i < a.width
      invariant 0 <= i <= a.width
      invariant sum == Dot(a.cells[y][..i], column[..i])
    {
      assert a.cells[y][..i + 1][..i] == a.cells[y][..i];
      assert column[..i + 1][..i] == column[..i];
      sum := sum + GetCell(a, y, i) * GetCell(b, i, x);
      i := i + 1;
    }
    assert a.cells[y][..i] == a.cells[y];
    assert column[..i] == column;
  }

  /** `multiply` as written: an accumulator per result cell, summed over the inner index. */
  method MultiplyLoops(a: Matrix, b: Matrix, draws: Grid) returns (r: Result<Matrix>)
    requires Valid(a) && Valid(b)
    requires IsRectangular(draws, a.height, b.width) && InDefaultRange(draws)
    ensures r == Multiply(a, b)
  {
    if !Compatible(Multiplication, a, b) {
      return Err(DimensionError(MultiplyMismatchMessage, Multiplication, ShapeOf(a), ShapeOf(b)));
    }
    var result := New(a.height, b.width, a.name + "*" + b.name, draws);
    var y := 0;
    while y < a.height
      invariant 0 <= y <= a.height
      invariant Valid(result) && result.height == a.height && result.width == b.width
      invariant result.name == a.name + "*" + b.name
      invariant forall y', x' :: 0 <= y' < y && 0 <= x' < b.width ==>
        result.cells[y'][x'] == Dot(a.cells[y'], Column(b.cells, x'))
    {
      var x := 0;
      while x < b.width
        invariant 0 <= x <= b.width
        invariant Valid(result) && result.height == a.height && result.width == b.width
        invariant result.name == a.name + "*" + b.name
        invariant forall y', x' :: 0 <= y' < y && 0 <= x' < b.width ==>
          result.cells[y'][x'] == Dot(a.cells[y'], Column(b.cells, x'))
        invariant forall x' :: 0 <= x' < x ==> result.cells[y][x'] == Dot(a.cells[y], Column(b.cells, x'))
      {
        var sum := CellProduct(a, b, y, x);
        result := SetCell(result, y, x, sum);
        x := x + 1;
      }
      y := y + 1;
    }
    var size := ComputeCellSize(result);
    result := result.(cellSize := size);
    MultiplyMatches(a, b, result);
    r := Ok(result);
  }
}
