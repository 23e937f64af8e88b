/**
 * Positions, symbolic opening coordinates and the column-major enumeration
 * shared by the grid mazes.
 */
module Geometry {

  /** A cell position: column `x`, row `y`. Cells are identified by their position. */
  datatype Position = Position(x: int, y: int) {
    function Plus(d: Position): Position {
      Position(x + d.x, y + d.y)
    }
  }

  /** One axis of an opening: a symbolic place on the axis or an explicit index. */
  datatype AxisPos = Start | Center | End | Index(i: int)

  /** An opening gives one axis position for x and one for y. */
  datatype Opening = Opening(x: AxisPos, y: AxisPos)

  /** Resolves one axis of an opening against an axis of `size` cells. */
  function Resolve(a: AxisPos, size: int): (r: int)
    ensures a.Index? ==> r == a.i
    ensures !a.Index? && size >= 1 ==> 0 <= r < size
    ensures a.Start? ==> r == 0
    ensures a.End? ==> r + 1 == size
    ensures a.Center? && size >= 0 ==> 0 <= 2 * r <= size && size < 2 * r + 2
  {
    match a
    case Start => 0
    case Center => size / 2
    case End => size - 1
    case Index(i) => i
  }

  /** The cells `Position(x, offset) .. Position(x, offset + rows - 1)` of one column. */
  function Column(x: int, rows: nat, offset: int): (c: seq<Position>)
    ensures |c| == rows
    ensures forall j :: 0 <= j < rows ==> c[j] == Position(x, j + offset)
  {
    seq(rows, j => Position(x, j + offset))
  }

  /** Concatenates the columns in order: column-major, then row order. */
  function Flatten<T>(cols: seq<seq<T>>): seq<T> {
    if |cols| == 0 then [] else Flatten(cols[..|cols| - 1]) + cols[|cols| - 1]
  }

  /** Total number of elements in all columns. */
  function TotalLength<T>(cols: seq<seq<T>>): nat {
    if |cols| == 0 then 0 else TotalLength(cols[..|cols| - 1]) + |cols[|cols| - 1]|
  }

  lemma {:induction false} FlattenLength<T>(cols: seq<seq<T>>)
    ensures |Flatten(cols)| == TotalLength(cols)
  {
    if |cols| > 0 {
      FlattenLength(cols[..|cols| - 1]);
    }
  }

  /** An element is enumerated exactly when it belongs to one of the columns. */
  lemma {:induction false} FlattenMembership<T>(cols: seq<seq<T>>, e: T)
    ensures e in Flatten(cols) <==> exists x :: 0 <= x < |cols| && e in cols[x]
  {
    if |cols| > 0 {
      var init := cols[..|cols| - 1];
      FlattenMembership(init, e);
      if e in Flatten(cols) {
        if e !in cols[|cols| - 1] {
          var x :| 0 <= x < |init| && e in init[x];
          assert e in cols[x];
        }
      } else {
        forall x | 0 <= x < |cols| ensures e !in cols[x] {
          if x < |init| {
            assert cols[x] == init[x];
          }
        }
      }
    }
  }

  /** Enumerating one column more appends that column. */
  lemma FlattenStep<T>(cols: seq<seq<T>>, k: nat)
    requires k < |cols|
    ensures Flatten(cols[..k + 1]) == Flatten(cols[..k]) + cols[k]
  {
    assert cols[..k + 1][..k] == cols[..k];
  }

  /** Visits `xs` in order, threading the visitor's state through each call. */
  function Fold<S, T>(visit: (S, T) -> S, s0: S, xs: seq<T>): S {
    if |xs| == 0 then s0 else visit(Fold(visit, s0, xs[..|xs| - 1]), xs[|xs| - 1])
  }

  /** Visiting one element more applies the visitor once more. */
  lemma FoldStep<S, T>(visit: (S, T) -> S, s0: S, xs: seq<T>, e: T)
    ensures Fold(visit, s0, xs + [e]) == visit(Fold(visit, s0, xs), e)
  {
    assert (xs + [e])[..|xs|] == xs;
  }

  /** Visiting `xs + ys` visits `xs`, then `ys` from the state reached. */
  lemma {:induction false} FoldConcat<S, T>(visit: (S, T) -> S, s0: S, xs: seq<T>, ys: seq<T>)
    ensures Fold(visit, s0, xs + ys) == Fold(visit, Fold(visit, s0, xs), ys)
  {
    if |ys| > 0 {
      var init := ys[..|ys| - 1];
      var e := ys[|ys| - 1];
      assert ys == init + [e];
      assert xs + ys == (xs + init) + [e];
      FoldConcat(visit, s0, xs, init);
      FoldStep(visit, s0, xs + init, e);
      FoldStep(visit, Fold(visit, s0, xs), init, e);
    } else {
      assert xs + ys == xs;
    }
  }

  /** Visits the cells of one column in order. */
  method VisitColumn<S>(visit: (S, Position) -> S, s0: S, column: array<Position>) returns (s: S)
    ensures s == Fold(visit, s0, column[..])
  {
    s := s0;
    for y := 0 to column.Length
      invariant s == Fold(visit, s0, column[..y])
    {
      FoldStep(visit, s0, column[..y], column[y]);
      assert column[..y + 1] == column[..y] + [column[y]];
      s := visit(s, column[y]);
    }
    assert column[..column.Length] == column[..];
  }

  /** Appends the cells of one column, in order, to `cells`. */
  method AppendColumn(cells: seq<Position>, column: array<Position>) returns (r: seq<Position>)
    ensures r == cells + column[..]
  {
    r := cells;
    for y := 0 to column.Length
      invariant r == cells + column[..y]
    {
      assert column[..y + 1] == column[..y] + [column[y]];
      r := r + [column[y]];
    }
    assert column[..column.Length] == column[..];
  }
}
