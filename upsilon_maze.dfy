/**
 * The square-and-octagon (upsilon) maze: a plain grid of `width` columns of
 * `height` cells, where the cell stored at `grid[x][y]` has the position `(x, y)`.
 */
module UpsilonMaze {
  import opened Basics
  import opened Geometry

  /** The positions of a `width` by `height` grid, column by column. */
  ghost function GridCells(width: nat, height: nat): (cols: seq<seq<Position>>)
    ensures |cols| == width
    ensures forall x :: 0 <= x < width ==> cols[x] == Column(x, height, 0)
  {
    seq(width, x => Column(x, height, 0))
  }

  /** Dropping the last column of a grid leaves the grid one column narrower. */
  lemma GridStep(width: nat, height: nat)
    requires width > 0
    ensures Flatten(GridCells(width, height)) == Flatten(GridCells(width - 1, height)) + Column(width - 1, height, 0)
  {
    assert GridCells(width, height)[..width - 1] == GridCells(width - 1, height);
  }

  /** The enumeration of a grid has `width * height` cells. */
  lemma {:induction false} GridLength(width: nat, height: nat)
    ensures |Flatten(GridCells(width, height))| == width * height
  {
    if width > 0 {
      GridLength(width - 1, height);
      GridStep(width, height);
      MulStep(width, height);
    }
  }

  /** The cell at `(x, y)` comes at index `x * height + y` of the enumeration. */
  lemma {:induction false} GridIndexAt(width: nat, height: nat, x: nat, y: nat)
    requires x < width && y < height
    ensures x * height + y < width * height == |Flatten(GridCells(width, height))|
    ensures Flatten(GridCells(width, height))[x * height + y] == Position(x, y)
  {
    GridLength(width, height);
    GridLength(width - 1, height);
    GridStep(width, height);
    MulStep(width, height);
    if x < width - 1 {
      GridIndexAt(width - 1, height, x, y);
    }
  }

  lemma MulStep(k: int, h: int)
    ensures k * h == (k - 1) * h + h
  {
  }

  /** The index of the cell at `(x, y)` in a column-major enumeration with `height` rows. */
  function IndexOf(x: int, y: int, height: int): int {
    x * height + y
  }

  /** The enumeration of the whole grid has `width * height` cells, `(x, y)` at index `x * height + y`. */
  lemma GridIndex(width: nat, height: nat)
    ensures |Flatten(GridCells(width, height))| == width * height
    ensures forall x, y {:trigger IndexOf(x, y, height)} :: 0 <= x < width && 0 <= y < height ==>
      IndexOf(x, y, height) < width * height && Flatten(GridCells(width, height))[IndexOf(x, y, height)] == Position(x, y)
  {
    GridLength(width, height);
    forall x, y | 0 <= x < width && 0 <= y < height
      ensures IndexOf(x, y, height) < width * height && Flatten(GridCells(width, height))[IndexOf(x, y, height)] == Position(x, y)
    {
      GridIndexAt(width, height, x, y);
    }
  }

  class UpsilonMaze {
    const width: int
    const height: int
    /** The cells of each column, from the first row down. */
    const grid: array<array<Position>>
    ghost const Repr: set<object>

    ghost predicate Valid()
      reads this, Repr
    {
      && width >= 1 && height >= 1
      && grid in Repr && grid.Length == width
      && (forall x :: 0 <= x < width ==> grid[x] in Repr && grid[x].Length == height)
      && (forall x, y :: 0 <= x < width && 0 <= y < height ==> grid[x][y] == Position(x, y))
    }

    /** Builds the `width` columns of `height` cells each. */
    constructor (width: int, height: int)
      requires width >= 1 && height >= 1
      ensures Valid() && this.width == width && this.height == height
    {
      var columns: seq<array<Position>> := [];
      for x := 0 to width
        invariant |columns| == x
        invariant forall i :: 0 <= i < x ==> columns[i].Length == height
        invariant forall i, y :: 0 <= i < x && 0 <= y < height ==> columns[i][y] == Position(i, y)
      {
        var column := new Position[height](y => Position(x, y));
        columns := columns + [column];
      }
      this.width := width;
      this.height := height;
      var g := new array<Position>[width](x requires 0 <= x < |columns| => columns[x]);
      grid := g;
      Repr := {g as object} + set x | 0 <= x < |columns| :: columns[x] as object;
    }

    /** Builds a maze, failing as the constructor throws on dimensions below 1. */
    static method New(width: int, height: int) returns (r: Result<UpsilonMaze, MazeError>)
      ensures r.Failure? <==> width < 1 || height < 1
      ensures r.Success? ==> r.value.Valid() && r.value.width == width && r.value.height == height
    {
      if width < 1 || height < 1 {
        return Failure(ParameterError("Dimensions must be at least 1."));
      }
      var m := new UpsilonMaze(width, height);
      return Success(m);
    }

    /** The cell at `(x, y)`, or none outside the grid. */
    function CellAt(x: int, y: int): (r: Option<Position>)
      reads this, Repr
      requires Valid()
      ensures r.Some? <==> 0 <= x < width && 0 <= y < height
      ensures r.Some? ==> r.value == Position(x, y)
    {
      if x < 0 || x >= width || y < 0 || y >= height then None
      else Some(grid[x][y])
    }

    /** Looking up the position of a stored cell finds that cell. */
    lemma CellAtRoundTrip(x: int, y: int)
      requires Valid() && 0 <= x < width && 0 <= y < height
      ensures CellAt(grid[x][y].x, grid[x][y].y) == Some(grid[x][y])
    {
    }

    /** A random column and a random row. */
    method GetRandomCell() returns (p: Position)
      requires Valid()
      ensures CellAt(p.x, p.y) == Some(p)
    {
      var x :| 0 <= x < width;
      var y :| 0 <= y < height;
      p := grid[x][y];
    }

    /** The number of cells: as many as the enumeration of every cell holds. */
    function GetCellCount(): (c: int)
      reads this, Repr
      requires Valid()
      ensures c == |Flatten(GridCells(width, height))|
      ensures c >= 1
    {
      GridIndex(width, height);
      width * height
    }

    /** Every cell, column by column and from the first row down in each column. */
    method GetAllCells() returns (cells: seq<Position>)
      requires Valid()
      ensures cells == Flatten(GridCells(width, height))
      ensures |cells| == GetCellCount()
      ensures forall x, y {:trigger IndexOf(x, y, height)} :: 0 <= x < width && 0 <= y < height ==>
        cells[IndexOf(x, y, height)] == Position(x, y)
    {
      ghost var cols := GridCells(width, height);
      cells := [];
      for x := 0 to width
        invariant cells == Flatten(cols[..x])
      {
        cells := AppendColumn(cells, grid[x]);
        assert grid[x][..] == cols[x];
        FlattenStep(cols, x);
      }
      assert cols[..width] == cols;
      GridIndex(width, height);
    }

    /** Calls `visit` on every cell in the order of `GetAllCells`, threading its state. */
    method ForEachCell<S>(visit: (S, Position) -> S, s0: S) returns (s: S)
      requires Valid()
      ensures s == Fold(visit, s0, Flatten(GridCells(width, height)))
    {
      ghost var cols := GridCells(width, height);
      s := s0;
      for x := 0 to width
        invariant s == Fold(visit, s0, Flatten(cols[..x]))
      {
        s := VisitColumn(visit, s, grid[x]);
        assert grid[x][..] == cols[x];
        FlattenStep(cols, x);
        FoldConcat(visit, s0, Flatten(cols[..x]), cols[x]);
      }
      assert cols[..width] == cols;
    }

    /**
     * The cell an opening designates: each axis is resolved on its own and
     * a position outside the grid designates no cell.
     */
    function GetOpeningCell(o: Opening): (r: Option<Position>)
      reads this, Repr
      requires Valid()
      ensures r.Some? <==> 0 <= Resolve(o.x, width) < width && 0 <= Resolve(o.y, height) < height
      ensures r.Some? ==> r.value == Position(Resolve(o.x, width), Resolve(o.y, height))
    {
      CellAt(Resolve(o.x, width), Resolve(o.y, height))
    }

    /** An opening given by symbolic places on both axes always designates a cell. */
    lemma SymbolicOpeningHits(o: Opening)
      requires Valid() && !o.x.Index? && !o.y.Index?
      ensures GetOpeningCell(o).Some?
    {
    }
  }
}
