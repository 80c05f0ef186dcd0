/** The four move directions of the board (py2048/classes.py, class Direction). */
module Directions {

  datatype Direction = Up | Down | Left | Right

  /** Every direction, in the order the source's enumeration declares them;
      the game-over check walks this sequence. */
  const AllDirections: seq<Direction> := [Up, Down, Left, Right]

  /** The (dx, dy) vector a direction carries as its value. */
  function Delta(d: Direction): (v: (int, int))
    ensures (v.0 == 0) != (v.1 == 0)
    ensures -1 <= v.0 <= 1 && -1 <= v.1 <= 1
  {
    match d
    case Up => (0, 1)
    case Down => (0, -1)
    case Left => (-1, 0)
    case Right => (1, 0)
  }

  /** A horizontal move is one whose dx is non-zero; the move and validity
      loops pick their row count by this test. */
  predicate Horizontal(d: Direction) {
    Delta(d).0 != 0
  }

  /** The opposite direction. */
  function Inverse(d: Direction): (r: Direction)
    ensures Delta(r) == (-Delta(d).0, -Delta(d).1)
  {
    match d
    case Up => Down
    case Down => Up
    case Left => Right
    case Right => Left
  }

  /** Distinct directions carry distinct vectors, so a direction is
      determined by its value. */
  lemma DeltaInjective(d: Direction, e: Direction)
    ensures Delta(d) == Delta(e) ==> d == e
  {
  }

  /** Inversion is an involution without a fixed point. */
  lemma InverseInvolution(d: Direction)
    ensures Inverse(Inverse(d)) == d
    ensures Inverse(d) != d
    ensures Horizontal(Inverse(d)) == Horizontal(d)
  {
    var e := Inverse(d);
    DeltaInjective(Inverse(e), d);
    DeltaInjective(e, d);
  }

  /** The enumeration lists each direction exactly once. */
  lemma AllDirectionsComplete(d: Direction)
    ensures d in AllDirections
    ensures multiset(AllDirections)[d] == 1
  {
  }
}
