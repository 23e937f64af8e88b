/** Failure-compatible wrappers and side bitmasks shared by the maze model. */
module Basics {

  datatype Option<+T> = None | Some(value: T)

  datatype Result<+R, +E> = Success(value: R) | Failure(error: E)

  /** The exceptions the maze core raises. */
  datatype MazeError =
    | ParameterError(message: string)   // invalid dimensions
    | IndexOutOfBounds(index: int)     // an array index past the end of a grid
    | EmptyRange                       // a random draw from an empty integer range

  /** A per-cell side bitmask; no tiling has more than eight sides. */
  type Mask = bv8

  const MaxSides: nat := 8

  /** The bit that stands for side `k`. */
  function Bit(k: nat): Mask
    requires k < MaxSides
  {
    (1 as bv8) << k
  }

  /** True when the wall on side `k` is present. */
  predicate HasSide(m: Mask, k: nat)
    requires k < MaxSides
  {
    m & Bit(k) != 0
  }

  /** The mask with a wall on each of the first `d` sides and nothing else. */
  function FullMask(d: nat): (m: Mask)
    requires d <= MaxSides
    ensures forall k :: 0 <= k < MaxSides ==> (HasSide(m, k) <==> k < d)
  {
    if d == MaxSides then 0xFF else Bit(d) - 1
  }

  /** Removes the wall on side `k` and leaves every other side as it was. */
  function OpenSide(m: Mask, k: nat): (r: Mask)
    requires k < MaxSides
    ensures forall j :: 0 <= j < MaxSides ==> (HasSide(r, j) <==> HasSide(m, j) && j != k)
  {
    m & !Bit(k)
  }

  /** A mask with no wall beyond its first `d` sides lies within the full mask of `d` sides. */
  lemma WithinFullMask(m: Mask, d: nat)
    requires d <= MaxSides && forall k :: d <= k < MaxSides ==> !HasSide(m, k)
    ensures m & !FullMask(d) == 0
  {
    forall k | 0 <= k < MaxSides ensures (m & !FullMask(d)) & Bit(k) == 0 {
      var f, b := FullMask(d), Bit(k);
      assert (m & !f) & b == (m & b) & !(f & b);
      if k < d {
        assert HasSide(f, k);
        assert f & b == b;
      } else {
        assert !HasSide(m, k);
      }
    }
    assert Bit(0) == 1 && Bit(1) == 2 && Bit(2) == 4 && Bit(3) == 8;
    assert Bit(4) == 16 && Bit(5) == 32 && Bit(6) == 64 && Bit(7) == 128;
  }
}
