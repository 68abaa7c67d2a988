/** Wrap-around along one axis of the grid: the grid is a torus, so the neighbour
    before position 0 is the last position and the neighbour after the last
    position is 0. */
module Torus {

  /** The predecessor of `val`, `val` itself and its successor along an axis of
      `size` positions, wrapping at both ends. `size` must be at least 1: the
      source computes `size - 1` unsigned, which underflows at 0. For `val >= size`
      (which only arises from the column-axis defect in the neighbour count) no
      wrapping happens at all. */
  function WrappedNeighborValues(val: nat, size: nat): (r: seq<nat>)
    requires size >= 1
    ensures |r| == 3 && r[1] == val
    ensures size >= 2 && val < size ==>
              r[0] < size && r[2] < size &&
              r[0] == (val + size - 1) % size && r[2] == (val + 1) % size
    ensures size >= 2 && val < size ==> r[0] != val && r[2] != val
  {
    if val == 0 then
      ModBelow(size - 1, size);
      ModBelow(1, size);
      [size - 1, 0, 1]
    else if val == size - 1 then
      ModShift(size - 2, size);
      ModOneRound(size);
      [size - 2, size - 1, 0]
    else
      ModBelow(val - 1, size);
      ModBelow(val + 1, size);
      ModShift(val - 1, size);
      [val - 1, val, val + 1]
  }

  /** A value already on the axis is its own remainder. */
  lemma ModBelow(x: int, m: int)
    ensures 0 <= x < m ==> x % m == x
  {
  }

  /** One whole lap around the axis lands back at 0. */
  lemma ModOneRound(m: int)
    requires m >= 1
    ensures m % m == 0
  {
  }

  /** Adding one lap does not change the remainder. */
  lemma ModShift(x: int, m: int)
    ensures 0 <= x < m ==> (x + m) % m == x
  {
  }

  /** On an axis of at least three positions the three values are distinct, so
      no neighbour is visited twice. */
  lemma WrappedDistinct(val: nat, size: nat)
    requires size >= 3 && val < size
    ensures var r := WrappedNeighborValues(val, size); r[0] != r[2]
  {
  }

  /** On an axis of two positions the predecessor and the successor coincide. */
  lemma WrappedSizeTwo(val: nat)
    requires val < 2
    ensures var r := WrappedNeighborValues(val, 2); r[0] == r[2] == 1 - val
  {
  }

  /** On an axis of one position the successor is 1, outside the axis. */
  lemma WrappedSizeOne()
    ensures WrappedNeighborValues(0, 1) == [0, 0, 1]
  {
  }

  /** A value past the end of the axis is not wrapped: its successor lies even
      further out. */
  lemma WrappedPastEnd(val: nat, size: nat)
    requires 1 <= size <= val
    ensures WrappedNeighborValues(val, size) == [val - 1, val, val + 1]
  {
  }
}
