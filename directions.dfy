/** The movement directions of a sprite (MovementDirection.java). */
module Directions {

  /** UP, DOWN, LEFT, RIGHT and NONE; NONE is spelled NoDirection to keep it apart from Option.None. */
  datatype Direction = Up | Down | Left | Right | NoDirection

  /** The four directions in which a sprite actually moves. */
  predicate IsMoving(d: Direction) {
    d != NoDirection
  }

  /** getOpposite: UP and DOWN swap, LEFT and RIGHT swap, NONE stays NONE. */
  function Opposite(d: Direction): (r: Direction)
    ensures IsMoving(d) <==> IsMoving(r)
  {
    match d
    case Up => Down
    case Down => Up
    case Left => Right
    case Right => Left
    case NoDirection => NoDirection
  }

  /** The opposite pairs as the enum declares them. */
  lemma OppositePairs()
    ensures Opposite(Up) == Down && Opposite(Down) == Up
    ensures Opposite(Left) == Right && Opposite(Right) == Left
    ensures Opposite(NoDirection) == NoDirection
  {
  }

  /** getOpposite is an involution. */
  lemma OppositeInvolution(d: Direction)
    ensures Opposite(Opposite(d)) == d
  {
  }

  /** A moving direction is never its own opposite. */
  lemma OppositeDiffers(d: Direction)
    requires IsMoving(d)
    ensures Opposite(d) != d
  {
  }
}
