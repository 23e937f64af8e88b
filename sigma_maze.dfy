/**
 * The hexagon-tiled (sigma) maze: a grid of columns whose lengths and
 * vertical offsets depend on the arrangement of the cells.  The cell stored
 * at `grid[x][y]` has the position `(x, y + rowOffsets[x])`.
 */
module SigmaMaze {
  import opened Basics
  import opened Geometry

  datatype Arrangement = Rectangle | Hexagon | Triangle | Rhombus

  /** The dimensions a maze is built with, after the arrangement has fixed its height. */
  datatype Layout = Layout(width: int, height: int, arrangement: Arrangement) {
    ghost predicate Valid() {
      && width >= 1 && height >= 1
      && (arrangement == Triangle || arrangement == Hexagon ==> height == width)
    }

    /** The number of columns: `width`, or `2 * width - 1` for a hexagon. */
    function Columns(): (n: nat)
      requires Valid()
      ensures n >= width
    {
      if arrangement == Hexagon then 2 * width - 1 else width
    }

    /** The number of cells in column `x`. */
    function Rows(x: int): (r: nat)
      requires Valid() && 0 <= x < Columns()
      ensures r >= 1
      ensures arrangement == Hexagon ==> width <= r <= 2 * width - 1
    {
      match arrangement
      case Rectangle => height
      case Hexagon => Columns() - Abs(x - width + 1)
      case Triangle => x + 1
      case Rhombus => height
    }

    /** The row of the first cell of column `x`. */
    function Offset(x: int): (o: int)
      requires Valid() && 0 <= x < Columns()
      ensures 0 <= o <= x
    {
      match arrangement
      case Rectangle => x / 2
      case Hexagon => if x < width then 0 else x - width + 1
      case Triangle => 0
      case Rhombus => 0
    }

    /** True when the layout has a cell at `(x, y)`. */
    ghost predicate Contains(x: int, y: int)
      requires Valid()
    {
      0 <= x < Columns() && Offset(x) <= y < Offset(x) + Rows(x)
    }

    /** The positions of the cells, column by column. */
    ghost function Cells(): (cols: seq<seq<Position>>)
      requires Valid()
      ensures |cols| == Columns()
      ensures forall x :: 0 <= x < |cols| ==> cols[x] == Column(x, Rows(x), Offset(x))
    {
      seq(Columns(), x requires 0 <= x < Columns() => Column(x, Rows(x), Offset(x)))
    }

    /** The total number of cells in the first `k` columns. */
    ghost function RowsUpTo(k: nat): nat
      requires Valid() && k <= Columns()
    {
      if k == 0 then 0 else RowsUpTo(k - 1) + Rows(k - 1)
    }
  }

  function Abs(n: int): (r: nat)
    ensures r == n || r == -n
  {
    if n < 0 then -n else n
  }

  /**
   * Validates the dimensions and lets the arrangement fix the height:
   * both must be at least 1, and triangles and hexagons take the width as
   * their height.
   */
  function NewLayout(width: int, height: int, arrangement: Arrangement): (r: Result<Layout, MazeError>)
    ensures r.Failure? <==> width < 1 || height < 1
    ensures r.Success? ==> r.value.Valid() && r.value.width == width && r.value.arrangement == arrangement
    ensures r.Success? && (arrangement == Rectangle || arrangement == Rhombus) ==> r.value.height == height
    ensures r.Success? && (arrangement == Triangle || arrangement == Hexagon) ==> r.value.height == width
  {
    if width < 1 || height < 1 then
      Failure(ParameterError("Dimensions must be at least 1."))
    else if arrangement == Triangle || arrangement == Hexagon then
      Success(Layout(width, width, arrangement))
    else
      Success(Layout(width, height, arrangement))
  }

  /** Every cell position is enumerated, each exactly when the layout contains it. */
  lemma CellsMembership(l: Layout, p: Position)
    requires l.Valid()
    ensures p in Flatten(l.Cells()) <==> l.Contains(p.x, p.y)
  {
    var cols := l.Cells();
    FlattenMembership(cols, p);
    if l.Contains(p.x, p.y) {
      assert cols[p.x][p.y - l.Offset(p.x)] == p;
    }
  }

  /** The first `k` columns hold `RowsUpTo(k)` cells. */
  lemma {:induction false} RowsUpToIsTotal(l: Layout, k: nat)
    requires l.Valid() && k <= l.Columns()
    ensures TotalLength(l.Cells()[..k]) == l.RowsUpTo(k)
  {
    if k > 0 {
      RowsUpToIsTotal(l, k - 1);
      assert l.Cells()[..k][..k - 1] == l.Cells()[..k - 1];
    }
  }

  /** With `h` rows in every column, the first `k` columns hold `k * h` cells. */
  lemma {:induction false} RowsUpToConstant(l: Layout, k: nat)
    requires l.Valid() && k <= l.Columns()
    requires l.arrangement == Rectangle || l.arrangement == Rhombus
    ensures l.RowsUpTo(k) == k * l.height
  {
    if k > 0 {
      RowsUpToConstant(l, k - 1);
    }
  }

  /** The columns of a triangle hold 1, 2, ..., k cells. */
  lemma {:induction false} RowsUpToTriangle(l: Layout, k: nat)
    requires l.Valid() && k <= l.Columns() && l.arrangement == Triangle
    ensures 2 * l.RowsUpTo(k) == k * (k + 1)
  {
    if k > 0 {
      RowsUpToTriangle(l, k - 1);
    }
  }

  /** The left half of a hexagon: columns of width, width + 1, ... cells. */
  lemma {:induction false} RowsUpToHexagonLeft(l: Layout, k: nat)
    requires l.Valid() && l.arrangement == Hexagon && k <= l.width
    ensures 2 * l.RowsUpTo(k) == 2 * k * l.width + k * (k - 1)
  {
    if k > 0 {
      var w := l.width;
      RowsUpToHexagonLeft(l, k - 1);
      assert l.Rows(k - 1) == w + k - 1;
      assert 2 * (k - 1) * w + 2 * w == 2 * k * w;
      assert (k - 1) * (k - 2) + 2 * (k - 1) == k * (k - 1);
    }
  }

  /** The right half of a hexagon: columns shrink by one cell from `2 * width - 2` down. */
  lemma {:induction false} RowsUpToHexagonRight(l: Layout, j: nat)
    requires l.Valid() && l.arrangement == Hexagon && j < l.width
    ensures 2 * l.RowsUpTo(l.width + j) == HexagonRightSum(l.width, j)
  {
    var w := l.width;
    if j == 0 {
      RowsUpToHexagonLeft(l, w);
      HexagonRightStart(w);
    } else {
      RowsUpToHexagonRight(l, j - 1);
      assert l.Rows(w + j - 1) == 2 * w - 2 - (j - 1);
      HexagonRightStep(w, j);
    }
  }

  /** Twice the cells in the first `width + j` columns of a hexagon. */
  ghost function HexagonRightSum(w: int, j: int): int {
    3 * w * w - w + 2 * j * (2 * w - 2) - j * (j - 1)
  }

  lemma HexagonRightStart(w: int)
    ensures 2 * w * w + w * (w - 1) == HexagonRightSum(w, 0)
  {
  }

  lemma HexagonRightStep(w: int, j: int)
    ensures HexagonRightSum(w, j - 1) + 2 * (2 * w - 2 - (j - 1)) == HexagonRightSum(w, j)
  {
  }

  lemma HexagonTotal(w: int)
    ensures HexagonRightSum(w, w - 1) == 2 * (3 * w * w - 3 * w + 1)
  {
  }

  /** The number of cells of each arrangement, in closed form. */
  ghost function ClosedCount(l: Layout): int
    requires l.Valid()
  {
    match l.arrangement
    case Rectangle => l.width * l.height
    case Rhombus => l.width * l.height
    case Triangle => l.width * (l.width + 1) / 2
    case Hexagon => 3 * l.width * l.width - 3 * l.width + 1
  }

  lemma Halve(a: int, b: int)
    requires 2 * a == b
    ensures a == b / 2
  {
  }

  /** The columns' row counts add up to the closed-form number of cells. */
  lemma RowsClosedForm(l: Layout)
    requires l.Valid()
    ensures l.RowsUpTo(l.Columns()) == ClosedCount(l)
  {
    var w := l.width;
    match l.arrangement {
      case Rectangle => RowsUpToConstant(l, l.Columns());
      case Rhombus => RowsUpToConstant(l, l.Columns());
      case Triangle =>
        RowsUpToTriangle(l, w);
        Halve(l.RowsUpTo(w), w * (w + 1));
      case Hexagon =>
        RowsUpToHexagonRight(l, w - 1);
        assert w + (w - 1) == l.Columns();
        HexagonTotal(w);
    }
  }

  /** All columns together hold the closed-form number of cells. */
  lemma CellCountClosedForm(l: Layout)
    requires l.Valid()
    ensures l.RowsUpTo(l.Columns()) == ClosedCount(l)
    ensures |Flatten(l.Cells())| == ClosedCount(l)
  {
    RowsClosedForm(l);
    RowsUpToIsTotal(l, l.Columns());
    assert l.Cells()[..l.Columns()] == l.Cells();
    FlattenLength(l.Cells());
  }

  class SigmaMaze {
    const layout: Layout
    /** The row of the first cell of each column. */
    const rowOffsets: array<int>
    /** The cells of each column, from the first row down. */
    const grid: array<array<Position>>
    ghost const Repr: set<object>

    ghost predicate Valid()
      reads this, Repr
    {
      && layout.Valid()
      && grid in Repr && rowOffsets in Repr
      && grid.Length == layout.Columns() && rowOffsets.Length == grid.Length
      && (forall x :: 0 <= x < grid.Length ==> grid[x] in Repr)
      && (forall x :: 0 <= x < grid.Length ==> rowOffsets[x] == layout.Offset(x) && grid[x].Length == layout.Rows(x))
      && (forall x, y :: 0 <= x < grid.Length && 0 <= y < grid[x].Length ==> grid[x][y] == Position(x, y + rowOffsets[x]))
    }

    /** Builds every column of `layout` and records its offset. */
    constructor (layout: Layout)
      requires layout.Valid()
      ensures Valid() && this.layout == layout
    {
      var n := layout.Columns();
      var offsets := new int[n];
      var columns: seq<array<Position>> := [];
      for x := 0 to n
        invariant |columns| == x
        invariant forall i :: 0 <= i < x ==> offsets[i] == layout.Offset(i) && columns[i].Length == layout.Rows(i)
        invariant forall i, y :: 0 <= i < x && 0 <= y < columns[i].Length ==> columns[i][y] == Position(i, y + offsets[i])
      {
        offsets[x] := layout.Offset(x);
        var off := offsets[x];
        var column := new Position[layout.Rows(x)](y => Position(x, y + off));
        columns := columns + [column];
      }
      this.layout := layout;
      rowOffsets := offsets;
      var g := new array<Position>[n](x requires 0 <= x < |columns| => columns[x]);
      grid := g;
      Repr := {g as object, offsets as object} + set x | 0 <= x < |columns| :: columns[x] as object;
    }

    /** Builds a maze, failing as the constructor throws on dimensions below 1. */
    static method New(width: int, height: int, arrangement: Arrangement) returns (r: Result<SigmaMaze, MazeError>)
      ensures r.Failure? <==> width < 1 || height < 1
      ensures r.Success? ==> r.value.Valid() && Success(r.value.layout) == NewLayout(width, height, arrangement)
    {
      var l := NewLayout(width, height, arrangement);
      if l.Failure? {
        return Failure(l.error);
      }
      var m := new SigmaMaze(l.value);
      return Success(m);
    }

    /** The cell at `(x, y)`, or none outside the maze. */
    function CellAt(x: int, y: int): (r: Option<Position>)
      reads this, Repr
      requires Valid()
      ensures r.Some? <==> layout.Contains(x, y)
      ensures r.Some? ==> r.value == Position(x, y)
    {
      if x < 0 || x >= grid.Length then None
      else
        var actualY := y - rowOffsets[x];
        if actualY < 0 || actualY >= grid[x].Length then None
        else Some(grid[x][actualY])
    }

    /** Looking up the position of a stored cell finds that cell. */
    lemma CellAtRoundTrip(x: int, y: int)
      requires Valid() && 0 <= x < grid.Length && 0 <= y < grid[x].Length
      ensures CellAt(grid[x][y].x, grid[x][y].y) == Some(grid[x][y])
    {
    }

    /** A random column, then a random cell of that column. */
    method GetRandomCell() returns (p: Position)
      requires Valid()
      ensures layout.Contains(p.x, p.y) && CellAt(p.x, p.y) == Some(p)
    {
      var x :| 0 <= x < grid.Length;
      var y :| 0 <= y < grid[x].Length;
      p := grid[x][y];
    }

    /** The number of cells, summed column by column. */
    method GetCellCount() returns (count: nat)
      requires Valid()
      ensures count == ClosedCount(layout)
      ensures count == |Flatten(layout.Cells())|
    {
      count := 0;
      for x := 0 to grid.Length
        invariant count == layout.RowsUpTo(x)
      {
        count := count + grid[x].Length;
      }
      CellCountClosedForm(layout);
    }

    /** Every cell, column by column and from the first row down in each column. */
    method GetAllCells() returns (cells: seq<Position>)
      requires Valid()
      ensures cells == Flatten(layout.Cells())
    {
      ghost var cols := layout.Cells();
      cells := [];
      for x := 0 to grid.Length
        invariant cells == Flatten(cols[..x])
      {
        cells := AppendColumn(cells, grid[x]);
        assert grid[x][..] == cols[x];
        FlattenStep(cols, x);
      }
      assert cols[..grid.Length] == cols;
    }

    /** Calls `visit` on every cell in the order of `GetAllCells`, threading its state. */
    method ForEachCell<S>(visit: (S, Position) -> S, s0: S) returns (s: S)
      requires Valid()
      ensures s == Fold(visit, s0, Flatten(layout.Cells()))
    {
      ghost var cols := layout.Cells();
      s := s0;
      for x := 0 to grid.Length
        invariant s == Fold(visit, s0, Flatten(cols[..x]))
      {
        s := VisitColumn(visit, s, grid[x]);
        assert grid[x][..] == cols[x];
        FlattenStep(cols, x);
        FoldConcat(visit, s0, Flatten(cols[..x]), cols[x]);
      }
      assert cols[..grid.Length] == cols;
    }

    /**
     * The cell an opening designates: x is resolved against the columns,
     * then y against the rows of column x and shifted by its offset.  An
     * explicit x outside the columns indexes the arrays out of bounds.
     */
    function GetOpeningCell(o: Opening): (r: Result<Option<Position>, MazeError>)
      reads this, Repr
      requires Valid()
      ensures r.Failure? <==> o.x.Index? && !(0 <= o.x.i < layout.Columns())
      ensures r.Success? ==> r.value.Some? ==> layout.Contains(r.value.value.x, r.value.value.y)
      ensures r.Success? ==> r.value.Some? ==> r.value.value.x == Resolve(o.x, layout.Columns())
      ensures r.Success? ==>
        var x := Resolve(o.x, layout.Columns());
        r.value == CellAt(x, Resolve(o.y, layout.Rows(x)) + layout.Offset(x))
    {
      var x := Resolve(o.x, grid.Length);
      if x < 0 || x >= grid.Length then Failure(IndexOutOfBounds(x))
      else Success(CellAt(x, Resolve(o.y, grid[x].Length) + rowOffsets[x]))
    }

    /** An opening given by symbolic places on both axes always designates a cell. */
    lemma SymbolicOpeningHits(o: Opening)
      requires Valid() && !o.x.Index? && !o.y.Index?
      ensures GetOpeningCell(o).Success? && GetOpeningCell(o).value.Some?
    {
      var x := Resolve(o.x, grid.Length);
      assert 0 <= Resolve(o.y, grid[x].Length) < layout.Rows(x);
    }
  }
}
