/**
 * The enumerations of the maze engine. They carry no behaviour; WallDirection keeps the
 * declaration order TOP, RIGHT, BOTTOM, LEFT, which the `.maze` wall-bit format relies on.
 */
module Enums {

  /** The four sides of a tile, in declaration order. */
  datatype WallDirection = Top | Right | Bottom | Left

  /** The solve-time status of a tile, read by the renderer. */
  datatype TileStatus = Unvisited | Visited | Path

  /** Whether the generated maze is a spanning tree or has extra openings. */
  datatype MazeType = Perfect | Imperfect

  /** Whether an algorithm is shown instantly or one step at a time. */
  datatype GenerationMode = Complete | Step

  /** The solving algorithms offered to the user. */
  datatype SolveAlgorithms = DFS | BFS | Djikstra

  /** How the user closed a dialog. */
  datatype DialogResult = Ok | Cancel | Closed

  /** `WallDirection.values()`: the directions in declaration order. */
  const Directions: seq<WallDirection> := [Top, Right, Bottom, Left]

  /** The set of all four directions. */
  const AllDirections: set<WallDirection> := {Top, Right, Bottom, Left}

  /** The position of a direction in `Directions`. */
  function DirectionIndex(d: WallDirection): (i: nat)
    ensures i < 4 && Directions[i] == d
  {
    match d
    case Top => 0
    case Right => 1
    case Bottom => 2
    case Left => 3
  }
}
