/**
 * One cell of the maze. A Java `TileModel` object is modelled as a value; the grid that owns
 * it addresses it by its position, so a reference to a tile is a `Pos`.
 */
module TileModel {
  import opened Enums
  import opened Helpers
  import opened Wrappers

  /** A reference to a tile: the row and column at which the maze stores it. */
  datatype Pos = Pos(row: int, column: int)

  /**
   * The `walls` map of a tile, keyed by the four directions, as one optional entry per side:
   * true means the wall on that side is standing, none that the map has no entry for it.
   */
  datatype Walls = Walls(top: Option<bool>, right: Option<bool>, bottom: Option<bool>, left: Option<bool>)

  datatype Tile = Tile(row: int, column: int, walls: Walls, isVisited: bool, status: TileStatus)

  /** The map without entries. */
  const NoWalls := Walls(None, None, None, None)

  /** `walls.get(d)`: the entry for side `d`. */
  function Entry(walls: Walls, d: WallDirection): Option<bool>
  {
    match d
    case Top => walls.top
    case Right => walls.right
    case Bottom => walls.bottom
    case Left => walls.left
  }

  /** Every side has an entry, as the constructor's loop leaves the map. */
  predicate AllEntries(walls: Walls)
  {
    walls.top.Some? && walls.right.Some? && walls.bottom.Some? && walls.left.Some?
  }

  /** The same sides have entries in both maps. */
  predicate SameKeys(a: Walls, b: Walls)
  {
    a.top.Some? == b.top.Some? && a.right.Some? == b.right.Some? &&
    a.bottom.Some? == b.bottom.Some? && a.left.Some? == b.left.Some?
  }

  /** `walls.put(d, present)`: the entry for side `d` set, the others kept. */
  function Put(walls: Walls, d: WallDirection, present: bool): (r: Walls)
    ensures Entry(r, d) == Some(present)
    ensures forall e | e != d :: Entry(r, e) == Entry(walls, e)
  {
    match d
    case Top => walls.(top := Some(present))
    case Right => walls.(right := Some(present))
    case Bottom => walls.(bottom := Some(present))
    case Left => walls.(left := Some(present))
  }

  /** `walls.getOrDefault(d, true)`: a side missing from the map counts as a wall. */
  function HasWall(walls: Walls, d: WallDirection): bool
  {
    var e := Entry(walls, d);
    if e.Some? then e.value else true
  }

  /**
   * The constructor `TileModel(row, column)`: every direction of `WallDirection.values()`
   * is put into the walls map as standing; the tile is not visited and its status is UNVISITED.
   */
  method NewTile(row: int, column: int) returns (t: Tile)
    ensures t.row == row && t.column == column
    ensures AllEntries(t.walls)
    ensures forall d :: HasWall(t.walls, d)
    ensures !t.isVisited && t.status == Unvisited
  {
    var walls := NoWalls;
    for i := 0 to |Directions|
      invariant forall j | 0 <= j < 4 :: Entry(walls, Directions[j]) == if j < i then Some(true) else None
    {
      walls := Put(walls, Directions[i], true);
    }
    assert Entry(walls, Directions[0]) == Entry(walls, Directions[1]) == Some(true);
    assert Entry(walls, Directions[2]) == Entry(walls, Directions[3]) == Some(true);
    t := Tile(row, column, walls, false, Unvisited);
  }

  /**
   * The side of `tile` that faces `neighbor`, decided as `removeWall` and `hasWallWith` decide
   * it: the column difference dx is checked before the row difference dy, and only a
   * difference of exactly one counts.
   */
  function Facing(tile: Tile, neighbor: Tile): (r: Option<WallDirection>)
    ensures neighbor.column - tile.column == 1 <==> r == Some(Right)
    ensures neighbor.column - tile.column == -1 <==> r == Some(Left)
    ensures r == Some(Bottom) <==>
              neighbor.column - tile.column !in {1, -1} && neighbor.row - tile.row == 1
    ensures r == Some(Top) <==>
              neighbor.column - tile.column !in {1, -1} && neighbor.row - tile.row == -1
  {
    var dx := neighbor.column - tile.column;
    var dy := neighbor.row - tile.row;
    if dx == 1 then Some(Right)
    else if dx == -1 then Some(Left)
    else if dy == 1 then Some(Bottom)
    else if dy == -1 then Some(Top)
    else None
  }

  /** Seen from the neighbour, the facing side is the opposite one. */
  lemma FacingReversed(tile: Tile, neighbor: Tile)
    requires Facing(tile, neighbor).Some?
    ensures Facing(neighbor, tile) == Some(Opposite(Facing(tile, neighbor).value))
  {
  }

  /** The single-flag `addWall(d)` / `removeWall(d)`: set the flag of side `d` to `present`. */
  function SetWall(tile: Tile, d: WallDirection, present: bool): (r: Tile)
    ensures HasWall(r.walls, d) == present
    ensures forall e | e != d :: HasWall(r.walls, e) == HasWall(tile.walls, e)
    ensures Entry(r.walls, d) == Some(present) && forall e | e != d :: Entry(r.walls, e) == Entry(tile.walls, e)
    ensures r.row == tile.row && r.column == tile.column
    ensures r.isVisited == tile.isVisited && r.status == tile.status
  {
    tile.(walls := Put(tile.walls, d, present))
  }

  /**
   * `tile.removeWall(neighbor)`: clears the side of `tile` facing `neighbor` and the opposite
   * side of `neighbor`; when the two are not one step apart in either coordinate nothing
   * changes. The result is the pair (new tile, new neighbour).
   */
  function RemoveWallWith(tile: Tile, neighbor: Tile): (r: (Tile, Tile))
    ensures Facing(tile, neighbor).None? ==> r == (tile, neighbor)
    ensures Facing(tile, neighbor).Some? ==>
              var d := Facing(tile, neighbor).value;
              !HasWall(r.0.walls, d) && !HasWall(r.1.walls, Opposite(d)) &&
              (forall e | e != d :: HasWall(r.0.walls, e) == HasWall(tile.walls, e)) &&
              (forall e | e != Opposite(d) :: HasWall(r.1.walls, e) == HasWall(neighbor.walls, e))
    ensures forall e :: HasWall(r.0.walls, e) ==> HasWall(tile.walls, e)
    ensures forall e :: HasWall(r.1.walls, e) ==> HasWall(neighbor.walls, e)
    ensures AllEntries(tile.walls) ==> AllEntries(r.0.walls)
    ensures AllEntries(neighbor.walls) ==> AllEntries(r.1.walls)
    ensures r.0.(walls := tile.walls) == tile && r.1.(walls := neighbor.walls) == neighbor
  {
    match Facing(tile, neighbor)
    case None => (tile, neighbor)
    case Some(d) => (SetWall(tile, d, false), SetWall(neighbor, Opposite(d), false))
  }

  /**
   * `tile.hasWallWith(neighbor)`: the flag of the side facing `neighbor` (a missing key counts
   * as a wall); false when `neighbor` is not one step away in either coordinate.
   */
  function HasWallWith(tile: Tile, neighbor: Tile): (r: bool)
    ensures Facing(tile, neighbor).None? ==> !r
    ensures Facing(tile, neighbor).Some? ==> r == HasWall(tile.walls, Facing(tile, neighbor).value)
  {
    match Facing(tile, neighbor)
    case None => false
    case Some(d) => HasWall(tile.walls, d)
  }

  /** After `tile.removeWall(neighbor)` neither tile has a wall towards the other. */
  lemma RemoveWallWithOpens(tile: Tile, neighbor: Tile)
    requires Facing(tile, neighbor).Some?
    ensures !HasWallWith(RemoveWallWith(tile, neighbor).0, RemoveWallWith(tile, neighbor).1)
    ensures !HasWallWith(RemoveWallWith(tile, neighbor).1, RemoveWallWith(tile, neighbor).0)
  {
    var (t, n) := RemoveWallWith(tile, neighbor);
    FacingReversed(t, n);
  }

  /** `getWallBits`: one character per side in the order TOP, RIGHT, BOTTOM, LEFT, '1' for a wall. */
  function GetWallBits(walls: Walls): (bits: string)
    ensures |bits| == 4
    ensures forall i | 0 <= i < 4 :: bits[i] == (if HasWall(walls, Directions[i]) then '1' else '0')
  {
    seq(4, i requires 0 <= i < 4 => if HasWall(walls, Directions[i]) then '1' else '0')
  }

  /** A wall-bit string the reader accepts: exactly four characters, each '0' or '1'. */
  predicate IsWallBits(bits: string)
  {
    |bits| == 4 && IsBit(bits[0]) && IsBit(bits[1]) && IsBit(bits[2]) && IsBit(bits[3])
  }

  /** A character of a wall-bit string. */
  predicate IsBit(c: char)
  {
    c == '0' || c == '1'
  }

  /** `getWalls(bits)`: the walls map read back from a four-character wall-bit string. */
  function GetWalls(bits: string): (walls: Walls)
    requires |bits| == 4
    ensures AllEntries(walls)
    ensures forall i | 0 <= i < 4 :: HasWall(walls, Directions[i]) == (bits[i] == '1')
  {
    Walls(Some(bits[0] == '1'), Some(bits[1] == '1'), Some(bits[2] == '1'), Some(bits[3] == '1'))
  }

  /** Reading back the bits of a complete walls map gives the same map. */
  lemma WallsRoundTrip(walls: Walls)
    requires AllEntries(walls)
    ensures GetWalls(GetWallBits(walls)) == walls
  {
    var back := GetWalls(GetWallBits(walls));
    forall d | d in AllDirections
      ensures Entry(back, d) == Entry(walls, d)
    {
      var i := DirectionIndex(d);
    }
  }

  /** Writing the walls read from valid bits gives the same bits. */
  lemma WallBitsRoundTrip(bits: string)
    requires IsWallBits(bits)
    ensures GetWallBits(GetWalls(bits)) == bits
  {
    var back := GetWallBits(GetWalls(bits));
    forall i | 0 <= i < 4
      ensures back[i] == bits[i]
    {
    }
  }
}
