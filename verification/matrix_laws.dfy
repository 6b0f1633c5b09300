/**
 Properties relating the operations to each other and to independent definitions:
 what the compatibility check decides, the algebra of the results (commutativity
 of addition, identity and distributivity of the product), when Java's 32-bit
 arithmetic agrees with the unbounded model, and the demonstration scenarios.
 */
module MatrixLaws {
  import Decimal
  import opened Matrices

  // ----- Compatibility -----

  /** The check decides the outcome: an operation fails exactly when its check fails. */
  lemma CompatibilityDecidesOutcome(a: Matrix, b: Matrix)
    requires Valid(a) && Valid(b)
    ensures Add(a, b).Ok? <==> Compatible(Addition, a, b)
    ensures Multiply(a, b).Ok? <==> Compatible(Multiplication, a, b)
    ensures Compatible(Addition, a, b) <==> Compatible(Addition, b, a)
  {
  }

  /**
   For operands with at least one cell, addition is allowed exactly when both
   operands have the same positions.
   */
  lemma AdditionCompatibleIffSamePositions(a: Matrix, b: Matrix)
    requires a.height > 0 && a.width > 0 && b.height > 0 && b.width > 0
    ensures Compatible(Addition, a, b) <==> forall y, x :: InBounds(a, y, x) <==> InBounds(b, y, x)
  {
    if !Compatible(Addition, a, b) {
      if a.height != b.height {
        assert InBounds(a, Max(a.height, b.height) - 1, 0) != InBounds(b, Max(a.height, b.height) - 1, 0);
      } else {
        assert InBounds(a, 0, Max(a.width, b.width) - 1) != InBounds(b, 0, Max(a.width, b.width) - 1);
      }
    }
  }

  /** Multiplication compatibility is not symmetric: a 2x3 times a 3x3 works, the reverse does not. */
  lemma MultiplicationCompatibilityAsymmetric(a: Matrix, b: Matrix)
    requires a.height == 2 && a.width == 3 && b.height == 3 && b.width == 3
    ensures Compatible(Multiplication, a, b) && !Compatible(Multiplication, b, a)
  {
  }

  // ----- Vectors -----

  function VecAdd(u: seq<int>, v: seq<int>): (w: seq<int>)
    requires |u| == |v|
    ensures |w| == |u| && forall i :: 0 <= i < |w| ==> w[i] == u[i] + v[i]
  {
    seq(|u|, i requires 0 <= i < |u| => u[i] + v[i])
  }

  /** The `n`-long vector with a single 1 at index `k` (all zeros when `k >= n`). */
  function Unit(n: nat, k: nat): (e: seq<int>)
    ensures |e| == n && forall i :: 0 <= i < n ==> e[i] == (if i == k then 1 else 0)
  {
    seq(n, i => if i == k then 1 else 0)
  }

  lemma {:induction false} DotCommutes(u: seq<int>, v: seq<int>)
    requires |u| == |v|
    ensures Dot(u, v) == Dot(v, u)
  {
    if |u| > 0 {
      DotCommutes(u[..|u| - 1], v[..|v| - 1]);
    }
  }

  /** Dotting with a unit vector selects one entry. */
  lemma {:induction false} DotUnit(u: seq<int>, k: nat)
    ensures Dot(u, Unit(|u|, k)) == (if k < |u| then u[k] else 0)
  {
    var n := |u|;
    if n > 0 {
      assert Unit(n, k)[..n - 1] == Unit(n - 1, k);
      DotUnit(u[..n - 1], k);
    }
  }

  lemma {:induction false} DotAddRight(u: seq<int>, v: seq<int>, w: seq<int>)
    requires |u| == |v| == |w|
    ensures Dot(u, VecAdd(v, w)) == Dot(u, v) + Dot(u, w)
  {
    var n := |u|;
    if n > 0 {
      assert VecAdd(v, w)[..n - 1] == VecAdd(v[..n - 1], w[..n - 1]);
      DotAddRight(u[..n - 1], v[..n - 1], w[..n - 1]);
      assert u[n - 1] * (v[n - 1] + w[n - 1]) == u[n - 1] * v[n - 1] + u[n - 1] * w[n - 1];
    }
  }

  // ----- Algebra of the results -----

  /** Addition is commutative in its cells and display width (only the name tells the order). */
  lemma AddCommutes(a: Matrix, b: Matrix)
    requires Valid(a) && Valid(b) && Compatible(Addition, a, b)
    ensures Add(a, b).value.cells == Add(b, a).value.cells
    ensures Add(a, b).value.cellSize == Add(b, a).value.cellSize
  {
    var ab := Add(a, b).value;
    var ba := Add(b, a).value;
    assert forall y :: 0 <= y < a.height ==> ab.cells[y] == ba.cells[y];
    DisplayWidthUnique(ab.cells, ab.cellSize, ba.cellSize);
  }

  /** An n x n identity matrix (the display width is that of its cells). */
  function Identity(n: nat, name: string): (m: Matrix)
    ensures Valid(m) && m.height == n && m.width == n && m.name == name
    ensures forall y, x :: InBounds(m, y, x) ==> GetCell(m, y, x) == (if y == x then 1 else 0)
  {
    var cells := seq(n, y requires 0 <= y < n => Unit(n, y));
    Matrix(name, n, n, cells, CellSizeOf(cells))
  }

  /** Cell (y, x) of A * I is A's cell (y, x). */
  lemma RightIdentityCell(row: seq<int>, identity: Matrix, x: int)
    requires Valid(identity) && identity.height == identity.width == |row| && 0 <= x < identity.width
    requires forall i :: 0 <= i < identity.height ==> identity.cells[i] == Unit(identity.width, i)
    ensures Dot(row, Column(identity.cells, x)) == row[x]
  {
    assert Column(identity.cells, x) == Unit(|row|, x);
    DotUnit(row, x);
  }

  /** Cell (y, x) of I * A is A's cell (y, x). */
  lemma LeftIdentityCell(unitRow: seq<int>, column: seq<int>, y: nat)
    requires |unitRow| == |column| && y < |column| && unitRow == Unit(|column|, y)
    ensures Dot(unitRow, column) == column[y]
  {
    DotCommutes(unitRow, column);
    DotUnit(column, y);
  }

  /** Multiplying by an identity matrix on the right gives back the cells unchanged. */
  lemma MultiplyByIdentityRight(a: Matrix, name: string)
    requires Valid(a)
    ensures Multiply(a, Identity(a.width, name)).Ok?
    ensures Multiply(a, Identity(a.width, name)).value.cells == a.cells
  {
    var right := Identity(a.width, name);
    var ar := Multiply(a, right).value;
    forall y | 0 <= y < a.height
      ensures ar.cells[y] == a.cells[y]
    {
      forall x | 0 <= x < a.width
        ensures ar.cells[y][x] == a.cells[y][x]
      {
        RightIdentityCell(a.cells[y], right, x);
      }
    }
  }

  /** Multiplying by an identity matrix on the left gives back the cells unchanged. */
  lemma MultiplyByIdentityLeft(a: Matrix, name: string)
    requires Valid(a)
    ensures Multiply(Identity(a.height, name), a).Ok?
    ensures Multiply(Identity(a.height, name), a).value.cells == a.cells
  {
    var left := Identity(a.height, name);
    var la := Multiply(left, a).value;
    forall y | 0 <= y < a.height
      ensures la.cells[y] == a.cells[y]
    {
      forall x | 0 <= x < a.width
        ensures la.cells[y][x] == a.cells[y][x]
      {
        assert la.cells[y][x] == Dot(left.cells[y], Column(a.cells, x));
        LeftIdentityCell(left.cells[y], Column(a.cells, x), y);
      }
    }
  }

  /** Row times a column of B + C is row times B's column plus row times C's column. */
  lemma DistributesCell(row: seq<int>, b: Matrix, c: Matrix, bc: Matrix, x: int)
    requires Valid(b) && Valid(c) && IsSumOf(bc, b, c)
    requires |row| == b.height && 0 <= x < b.width
    ensures Dot(row, Column(bc.cells, x)) == Dot(row, Column(b.cells, x)) + Dot(row, Column(c.cells, x))
  {
    assert Column(bc.cells, x) == VecAdd(Column(b.cells, x), Column(c.cells, x));
    DotAddRight(row, Column(b.cells, x), Column(c.cells, x));
  }

  /** A*(B+C) and A*B + A*C have equal cells, once all five are known cell by cell. */
  lemma DistributedCellsEqual(a: Matrix, b: Matrix, c: Matrix, bc: Matrix, ab: Matrix, ac: Matrix, lhs: Matrix, rhs: Matrix)
    requires Valid(a) && Valid(b) && Valid(c)
    requires IsSumOf(bc, b, c) && IsProductOf(ab, a, b) && IsProductOf(ac, a, c)
    requires IsProductOf(lhs, a, bc) && IsSumOf(rhs, ab, ac)
    ensures lhs.cells == rhs.cells
  {
    forall y, x | 0 <= y < a.height && 0 <= x < b.width
      ensures lhs.cells[y][x] == rhs.cells[y][x]
    {
      DistributesCell(a.cells[y], b, c, bc, x);
    }
    assert forall y :: 0 <= y < a.height ==> lhs.cells[y] == rhs.cells[y];
  }

  /** The product distributes over the sum: A*(B+C) and A*B + A*C both succeed and have the same cells. */
  lemma MultiplyDistributesOverAdd(a: Matrix, b: Matrix, c: Matrix)
    requires Valid(a) && Valid(b) && Valid(c)
    requires Compatible(Multiplication, a, b) && Compatible(Addition, b, c)
    ensures Add(b, c).Ok? && Multiply(a, Add(b, c).value).Ok?
    ensures Multiply(a, b).Ok? && Multiply(a, c).Ok? && Add(Multiply(a, b).value, Multiply(a, c).value).Ok?
    ensures Multiply(a, Add(b, c).value).value.cells == Add(Multiply(a, b).value, Multiply(a, c).value).value.cells
  {
    var bc := Add(b, c).value;
    var ab := Multiply(a, b).value;
    var ac := Multiply(a, c).value;
    DistributedCellsEqual(a, b, c, bc, ab, ac, Multiply(a, bc).value, Add(ab, ac).value);
  }

  // ----- Agreement with Java's 32-bit int -----

  const IntMaxValue: int := 0x7FFF_FFFF

  predicate IsInt32(v: int) {
    IntMinValue <= v <= IntMaxValue
  }

  /** Largest inner dimension for which 400 times it still fits in a Java int. */
  const MaxSafeInnerDimension: int := 5_368_709

  lemma ProductOfDefaultRange(p: int, q: int)
    requires DefaultMin <= p <= DefaultMax && DefaultMin <= q <= DefaultMax
    ensures -400 <= p * q <= 400
  {
    if p >= 0 && q >= 0 {
      assert p * q <= 20 * q;
    } else if p >= 0 {
      assert p * q >= p * -20;
    } else if q >= 0 {
      assert p * q >= -20 * q;
    } else {
      assert p * q == (-p) * (-q) <= 20 * (-q);
    }
  }

  /** A sum of products of values in [-20, 20] is bounded by 400 per term. */
  lemma {:induction false} DotOfDefaultRangeBound(u: seq<int>, v: seq<int>)
    requires |u| == |v|
    requires forall i :: 0 <= i < |u| ==> DefaultMin <= u[i] <= DefaultMax
    requires forall i :: 0 <= i < |v| ==> DefaultMin <= v[i] <= DefaultMax
    ensures -400 * |u| <= Dot(u, v) <= 400 * |u|
  {
    var n := |u|;
    if n > 0 {
      DotOfDefaultRangeBound(u[..n - 1], v[..n - 1]);
      ProductOfDefaultRange(u[n - 1], v[n - 1]);
    }
  }

  /** Sums of two randomly filled matrices stay in [-40, 40], far inside a Java int. */
  lemma AddOfDefaultRangeFitsInt32(a: Matrix, b: Matrix)
    requires Valid(a) && Valid(b) && Compatible(Addition, a, b)
    requires InDefaultRange(a.cells) && InDefaultRange(b.cells)
    ensures forall y, x :: InBounds(a, y, x) ==>
      -40 <= GetCell(Add(a, b).value, y, x) <= 40 && IsInt32(GetCell(Add(a, b).value, y, x))
  {
  }

  /**
   For randomly filled operands whose inner dimension is at most `MaxSafeInnerDimension`,
   every single product and every value the Java accumulator takes (each partial sum
   over the first `k` terms) fits in a Java int, so the wrap-around the model leaves out never happens.
   */
  lemma MultiplyOfDefaultRangeFitsInt32(a: Matrix, b: Matrix)
    requires Valid(a) && Valid(b) && Compatible(Multiplication, a, b)
    requires InDefaultRange(a.cells) && InDefaultRange(b.cells)
    requires a.width <= MaxSafeInnerDimension
    ensures forall y, x, i :: 0 <= y < a.height && 0 <= x < b.width && 0 <= i < a.width ==>
      IsInt32(a.cells[y][i] * b.cells[i][x])
    ensures forall y, x, k :: 0 <= y < a.height && 0 <= x < b.width && 0 <= k <= a.width ==>
      IsInt32(Dot(a.cells[y][..k], Column(b.cells, x)[..k]))
  {
    forall y, x, i | 0 <= y < a.height && 0 <= x < b.width && 0 <= i < a.width
      ensures IsInt32(a.cells[y][i] * b.cells[i][x])
    {
      ProductOfDefaultRange(a.cells[y][i], b.cells[i][x]);
    }
    forall y, x, k | 0 <= y < a.height && 0 <= x < b.width && 0 <= k <= a.width
      ensures IsInt32(Dot(a.cells[y][..k], Column(b.cells, x)[..k]))
    {
      var column := Column(b.cells, x);
      assert forall i :: 0 <= i < k ==> column[..k][i] == b.cells[i][x];
      DotOfDefaultRangeBound(a.cells[y][..k], column[..k]);
    }
  }

  // ----- Scenarios of the demonstration driver -----

  /**
   With A and C of shape 2x3 and B of shape 3x2 (whatever their cells), A+C and A*B
   succeed with the expected names and shapes, A+B and A*C fail.
   */
  lemma DemoScenarios(a: Matrix, b: Matrix, c: Matrix)
    requires Valid(a) && Valid(b) && Valid(c)
    requires a.name == "A" && a.height == 2 && a.width == 3
    requires b.name == "B" && b.height == 3 && b.width == 2
    requires c.name == "C" && c.height == 2 && c.width == 3
    ensures Add(a, c).Ok? && Add(a, c).value.name == "A+C"
    ensures Add(a, c).value.height == 2 && Add(a, c).value.width == 3
    ensures Add(a, b).Err? && Add(a, b).error.op == Addition
    ensures Multiply(a, b).Ok? && Multiply(a, b).value.name == "A*B"
    ensures Multiply(a, b).value.height == 2 && Multiply(a, b).value.width == 2
    ensures Multiply(a, c).Err? && Multiply(a, c).error.op == Multiplication
  {
  }

  /**
   The refreshed display width follows the content, not the fill bounds: a product of
   20s over an inner dimension of 3 (1200) needs four characters, a sum 1 + 1 needs one.
   */
  lemma DisplayWidthFollowsContent()
    ensures Multiply(Matrix("P", 1, 3, [[20, 20, 20]], 3), Matrix("Q", 3, 1, [[20], [20], [20]], 3)).value.cellSize == 4
    ensures Add(Matrix("P", 1, 1, [[1]], 3), Matrix("Q", 1, 1, [[1]], 3)).value.cellSize == 1
  {
    var pq := Multiply(Matrix("P", 1, 3, [[20, 20, 20]], 3), Matrix("Q", 3, 1, [[20], [20], [20]], 3)).value;
    var u := [20, 20, 20];
    assert Column([[20], [20], [20]], 0) == u;
    assert u[..2] == [20, 20] && u[..2][..1] == [20] && u[..2][..1][..0] == [];
    assert Dot(u, u) == 1200;
    assert pq.cells[0][0] == 1200;
    assert Decimal.DecimalLength(1200) == 4;
    var s := Add(Matrix("P", 1, 1, [[1]], 3), Matrix("Q", 1, 1, [[1]], 3)).value;
    assert s.cells[0][0] == 2;
  }
}
