/**
 * Sides of a triangular (delta) cell.  A delta cell has an east side, a west
 * side and a base that lies on the top or the bottom of the triangle
 * depending on the parity of its position.
 */
module DeltaCell {
  import opened Basics
  import opened Geometry

  datatype Side = Base | East | West {
    /** The side's bit in a cell's side bitmask. */
    function Value(): (v: Mask)
      ensures v != 0 && v & (v - 1) == 0
      ensures v & AllValue == v
    {
      match this
      case Base => 1
      case East => 2
      case West => 4
    }

    /** The offset to the neighbour on this side; the base has none of its own. */
    function RelativePos(): (r: Option<Position>)
      ensures r.None? <==> this == Base
      ensures r.Some? ==> r.value.y == 0 && (r.value.x == 1 || r.value.x == -1)
    {
      match this
      case Base => None
      case East => Some(Position(1, 0))
      case West => Some(Position(-1, 0))
    }

    /** The side of the neighbour that faces back to this cell. */
    function Opposite(): (s: Side)
      ensures (s == Base) <==> (this == Base)
    {
      match this
      case Base => Base
      case East => West
      case West => East
    }
  }

  /** The sides in the order a cell lists them. */
  const AllSides: seq<Side> := [Base, East, West]

  /** The bitmask holding every side of a delta cell. */
  const AllValue: Mask := 7

  /** No two sides share a bit. */
  lemma ValuesDistinct(s: Side, t: Side)
    requires s != t
    ensures s.Value() & t.Value() == 0 && s.Value() != t.Value()
  {
  }

  /** The full mask is the union of the side bits, the full mask of a three-sided cell. */
  lemma AllValueIsUnion()
    ensures AllValue == Base.Value() | East.Value() | West.Value()
    ensures AllValue == FullMask(|AllSides|)
  {
  }

  /** Every side is listed exactly once. */
  lemma AllSidesComplete(s: Side)
    ensures s in AllSides
    ensures forall i, j :: 0 <= i < j < |AllSides| ==> AllSides[i] != AllSides[j]
  {
  }

  /** Going to the opposite side twice comes back to the side. */
  lemma OppositeInvolution(s: Side)
    ensures s.Opposite().Opposite() == s
    ensures s != Base ==> s.Opposite() != s
  {
  }

  /** The offsets of a side and of its opposite cancel out. */
  lemma OppositeOffsetNegated(s: Side)
    requires s != Base
    ensures s.RelativePos().Some? && s.Opposite().RelativePos().Some?
    ensures s.Opposite().RelativePos().value == Position(-s.RelativePos().value.x, -s.RelativePos().value.y)
  {
  }

  /** A cell is flat-topped when `x + y` is even; its base then faces the row above. */
  predicate FlatTopped(p: Position) {
    (p.x + p.y) % 2 == 0
  }

  /** The position of the cell on the base side: one row up when flat-topped, else one row down. */
  function BaseTarget(p: Position): (q: Position)
    ensures q.x == p.x && (q.y == p.y - 1 || q.y == p.y + 1)
    ensures q.y < p.y <==> FlatTopped(p)
    ensures FlatTopped(q) <==> !FlatTopped(p)
  {
    if FlatTopped(p) then Position(p.x, p.y - 1) else Position(p.x, p.y + 1)
  }

  /** The base neighbour of the base neighbour is the cell itself. */
  lemma BaseTargetSymmetric(p: Position)
    ensures BaseTarget(BaseTarget(p)) == p
  {
  }

  /** The position looked up for side `s` of the cell at `p`. */
  function SideTarget(p: Position, s: Side): (q: Position)
    ensures q != p
    ensures s != Base ==> q == p.Plus(s.RelativePos().value)
  {
    if s == Base then BaseTarget(p) else p.Plus(s.RelativePos().value)
  }

  /**
   * The cell on side `s` of the cell at `p`, in a maze holding the cells at
   * `cells`: the looked-up position when a cell is there, else none.
   */
  function CellOnSide(p: Position, s: Side, cells: set<Position>): (r: Option<Position>)
    ensures r.Some? ==> r.value in cells && r.value != p
    ensures s == Base ==> (r.Some? <==> BaseTarget(p) in cells)
    ensures s == East ==> (r.Some? <==> Position(p.x + 1, p.y) in cells)
    ensures s == West ==> (r.Some? <==> Position(p.x - 1, p.y) in cells)
  {
    var q := SideTarget(p, s);
    if q in cells then Some(q) else None
  }

  /** Adjacency is symmetric: the neighbour finds this cell on the opposite side. */
  lemma CellOnSideSymmetric(p: Position, s: Side, cells: set<Position>)
    requires p in cells && CellOnSide(p, s, cells).Some?
    ensures CellOnSide(CellOnSide(p, s, cells).value, s.Opposite(), cells) == Some(p)
  {
    if s == Base {
      BaseTargetSymmetric(p);
    }
  }

  /** Two different sides of a cell never lead to the same neighbour. */
  lemma SidesLeadApart(p: Position, s: Side, t: Side, cells: set<Position>)
    requires s != t && CellOnSide(p, s, cells).Some?
    ensures CellOnSide(p, s, cells) != CellOnSide(p, t, cells)
  {
  }
}
