/**
 * How the two copies of the game differ where they share a name.
 */
module Variants {
  import opened Common
  import SpaceX
  import GameCopy

  /** The two `off_screen` methods answer opposite questions: the second
      copy's is true exactly when the first copy's is false. */
  lemma OffScreenPolarity(l: Laser, height: int)
    ensures GameCopy.OffScreen(l, height) <==> !SpaceX.OffScreen(l, height)
  {
  }

  /** For a laser climbing from inside the screen, the second copy's
      `off_screen` holds for as long as the laser is still on screen, which
      is exactly when the first copy keeps it. */
  lemma FlightPolarity(l: Laser, n: nat)
    requires 0 <= l.y <= HEIGHT
    ensures GameCopy.OffScreen(SpaceX.Flight(l, n), HEIGHT) <==> LASER_VEL * n <= l.y
    ensures GameCopy.OffScreen(SpaceX.Flight(l, n), HEIGHT) <==> !SpaceX.OffScreen(SpaceX.Flight(l, n), HEIGHT)
  {
    SpaceX.FlightPath(l, n);
  }

  /** The two ships start at different heights: the first copy's start is
      strictly inside the screen, the second copy's reaches below it. */
  lemma StartPositions()
    ensures Inside(SpaceX.START_X, SpaceX.START_Y, SHIP_WIDTH, SHIP_HEIGHT)
    ensures !Inside(GameCopy.START_X, GameCopy.START_Y, SHIP_WIDTH, SHIP_HEIGHT)
  {
  }
}
