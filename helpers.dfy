/** The direction helper used when a wall is mirrored onto the neighbouring tile. */
module Helpers {
  import opened Enums

  /**
   * `getOppositeDirection`: the side of the neighbour that faces back. The match is
   * exhaustive over the four declared directions, so the source's throwing default
   * branch has no counterpart here: it cannot be reached.
   */
  function Opposite(direction: WallDirection): (r: WallDirection)
    ensures r != direction
    ensures direction == Top <==> r == Bottom
    ensures direction == Bottom <==> r == Top
    ensures direction == Left <==> r == Right
    ensures direction == Right <==> r == Left
  {
    match direction
    case Top => Bottom
    case Bottom => Top
    case Left => Right
    case Right => Left
  }

  /** Taking the opposite twice gives back the original direction. */
  lemma OppositeInvolutive(direction: WallDirection)
    ensures Opposite(Opposite(direction)) == direction
  {
  }

  /** Opposite is one-to-one, so distinct sides have distinct opposite sides. */
  lemma OppositeInjective(d1: WallDirection, d2: WallDirection)
    requires Opposite(d1) == Opposite(d2)
    ensures d1 == d2
  {
    OppositeInvolutive(d1);
    OppositeInvolutive(d2);
  }
}
