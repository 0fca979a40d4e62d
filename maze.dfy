/**
 * `MazeModel`: a rectangular array of tiles, created either from a size or from an existing
 * array, with wall updates applied to both sides of a wall and the queries used by the
 * generator and the solvers.
 */
module Maze {
  import opened Enums
  import opened Helpers
  import opened Wrappers
  import opened TileModel
  import opened EdgeModel
  import opened Grid

  /** A tile as `new TileModel(row, column)` makes it: all four walls, unvisited. */
  predicate FreshTile(t: Tile, p: Pos)
  {
    t.row == p.row && t.column == p.column && AllEntries(t.walls) &&
    (forall d :: HasWall(t.walls, d)) && !t.isVisited && t.status == Unvisited
  }

  /** An array handed to `new MazeModel(tiles)`: at least one row, none null, all as long as the first. */
  predicate Rectangular(rows: seq<Option<seq<Tile>>>)
  {
    |rows| >= 1 && rows[0].Some? &&
    forall i | 0 <= i < |rows| :: rows[i].Some? && |rows[i].value| == |rows[0].value|
  }

  /** Every tile of a given array sits at its own coordinates and has an entry for each side. */
  predicate TilesInPlace(rows: seq<Option<seq<Tile>>>)
  {
    forall i, j | 0 <= i < |rows| && rows[i].Some? && 0 <= j < |rows[i].value| ::
      rows[i].value[j].row == i && rows[i].value[j].column == j && AllEntries(rows[i].value[j].walls)
  }

  /**
   * The grid after `addWall`/`removeWall(tile, d)`: side `d` of the tile at `p` set to
   * `present`, and the opposite side of the neighbour in direction `d`, when there is one.
   */
  function WithWallPair(cells: Cells, numRows: int, numCols: int, p: Pos, d: WallDirection, present: bool): Cells
    requires Shaped(cells, numRows, numCols) && InBounds(numRows, numCols, p)
  {
    var once := WithTile(cells, p, SetWall(At(cells, p), d, present));
    var n := Move(p, d);
    if InBounds(numRows, numCols, n) then WithTile(once, n, SetWall(At(once, n), Opposite(d), present))
    else once
  }

  /** Exactly the tile and its neighbour across side `d` change, and only in that wall. */
  lemma WithWallPairEffect(cells: Cells, numRows: int, numCols: int, p: Pos, d: WallDirection, present: bool)
    requires Shaped(cells, numRows, numCols) && InBounds(numRows, numCols, p)
    ensures Shaped(WithWallPair(cells, numRows, numCols, p, d, present), numRows, numCols)
    ensures forall q | InBounds(numRows, numCols, q) ::
              At(WithWallPair(cells, numRows, numCols, p, d, present), q) ==
                if q == p then SetWall(At(cells, p), d, present)
                else if q == Move(p, d) then SetWall(At(cells, q), Opposite(d), present)
                else At(cells, q)
  {
    assert Move(p, d) != p;
  }

  /** One wall, seen from both of its sides, stays mirrored when a wall pair is set. */
  lemma WithWallPairMirroredAt(cells: Cells, numRows: int, numCols: int, p: Pos, d: WallDirection, present: bool,
                               q: Pos, e: WallDirection)
    requires Shaped(cells, numRows, numCols) && InBounds(numRows, numCols, p)
    requires InBounds(numRows, numCols, q) && InBounds(numRows, numCols, Move(q, e))
    requires HasWall(At(cells, q).walls, e) == HasWall(At(cells, Move(q, e)).walls, Opposite(e))
    ensures Shaped(WithWallPair(cells, numRows, numCols, p, d, present), numRows, numCols)
    ensures HasWall(At(WithWallPair(cells, numRows, numCols, p, d, present), q).walls, e) ==
            HasWall(At(WithWallPair(cells, numRows, numCols, p, d, present), Move(q, e)).walls, Opposite(e))
  {
    WithWallPairEffect(cells, numRows, numCols, p, d, present);
    MoveOpposite(q, e);
    MoveOpposite(p, d);
    OppositeInvolutive(d);
    OppositeInvolutive(e);
    if Opposite(e) == Opposite(d) {
      OppositeInjective(e, d);
    }
  }

  /** Setting a wall pair keeps every tile in place with four wall entries. */
  lemma WithWallPairWellFormed(cells: Cells, numRows: int, numCols: int, p: Pos, d: WallDirection, present: bool)
    requires WellFormed(cells, numRows, numCols) && InBounds(numRows, numCols, p)
    ensures WellFormed(WithWallPair(cells, numRows, numCols, p, d, present), numRows, numCols)
    ensures HasWall(At(WithWallPair(cells, numRows, numCols, p, d, present), p).walls, d) == present
    ensures InBounds(numRows, numCols, Move(p, d)) ==>
              HasWall(At(WithWallPair(cells, numRows, numCols, p, d, present), Move(p, d)).walls, Opposite(d)) == present
  {
    WithWallPairEffect(cells, numRows, numCols, p, d, present);
  }

  /**
   * Setting or clearing a wall on both sides keeps a well-formed grid well formed and a
   * mirrored grid mirrored, and leaves the wall as asked on both sides.
   */
  lemma WithWallPairMirrored(cells: Cells, numRows: int, numCols: int, p: Pos, d: WallDirection, present: bool)
    requires WellFormed(cells, numRows, numCols) && InBounds(numRows, numCols, p)
    ensures WellFormed(WithWallPair(cells, numRows, numCols, p, d, present), numRows, numCols)
    ensures Mirrored(cells, numRows, numCols) ==> Mirrored(WithWallPair(cells, numRows, numCols, p, d, present), numRows, numCols)
    ensures HasWall(At(WithWallPair(cells, numRows, numCols, p, d, present), p).walls, d) == present
    ensures InBounds(numRows, numCols, Move(p, d)) ==>
              HasWall(At(WithWallPair(cells, numRows, numCols, p, d, present), Move(p, d)).walls, Opposite(d)) == present
  {
    WithWallPairWellFormed(cells, numRows, numCols, p, d, present);
    if Mirrored(cells, numRows, numCols) {
      forall q, e | InBounds(numRows, numCols, q) && InBounds(numRows, numCols, Move(q, e))
        ensures HasWall(At(WithWallPair(cells, numRows, numCols, p, d, present), q).walls, e) ==
                HasWall(At(WithWallPair(cells, numRows, numCols, p, d, present), Move(q, e)).walls, Opposite(e))
      {
        WithWallPairMirroredAt(cells, numRows, numCols, p, d, present, q, e);
      }
    }
  }

  /** The maze: its size, fixed at construction, and its array of tiles. */
  class MazeModel {
    const numRows: int
    const numCols: int
    var tiles: Cells

    /** At least one row, and every tile at its own coordinates with four wall entries. */
    ghost predicate Valid()
      reads this
    {
      1 <= numRows && 0 <= numCols && WellFormed(tiles, numRows, numCols)
    }

    /** Stores a size and an array that already agree. */
    constructor Init(numRows: int, numCols: int, tiles: Cells)
      requires 1 <= numRows && 0 <= numCols && WellFormed(tiles, numRows, numCols)
      ensures Valid()
      ensures this.numRows == numRows && this.numCols == numCols && this.tiles == tiles
    {
      this.numRows := numRows;
      this.numCols := numCols;
      this.tiles := tiles;
    }

    /**
     * `new MazeModel(numRows, numCols)`: rejects a non-positive size, otherwise a grid of
     * fresh tiles, each with all four walls, so every wall is mirrored.
     */
    static method Create(numRows: int, numCols: int) returns (r: Result<MazeModel, MazeError>)
      ensures r.Failure? <==> numRows <= 0 || numCols <= 0
      ensures r.Failure? ==> r.error == NonPositiveSize
      ensures r.Success? ==> fresh(r.value) && r.value.Valid() &&
                             r.value.numRows == numRows && r.value.numCols == numCols &&
                             Mirrored(r.value.tiles, numRows, numCols) &&
                             forall p | InBounds(numRows, numCols, p) :: FreshTile(At(r.value.tiles, p), p)
    {
      if numRows <= 0 || numCols <= 0 {
        return Failure(NonPositiveSize);
      }
      var tiles := ConstructGrid(numRows, numCols);
      var maze := new MazeModel.Init(numRows, numCols, tiles);
      return Success(maze);
    }

    /** `ConstructGrid`: row by row, column by column, a fresh tile at each position. */
    static method ConstructGrid(numRows: nat, numCols: nat) returns (tiles: Cells)
      ensures WellFormed(tiles, numRows, numCols)
      ensures forall p | InBounds(numRows, numCols, p) :: FreshTile(At(tiles, p), p)
      ensures Mirrored(tiles, numRows, numCols)
    {
      tiles := [];
      for row := 0 to numRows
        invariant |tiles| == row
        invariant forall r | 0 <= r < row :: |tiles[r]| == numCols
        invariant forall r, c | 0 <= r < row && 0 <= c < numCols :: FreshTile(tiles[r][c], Pos(r, c))
      {
        var line: seq<Tile> := [];
        for column := 0 to numCols
          invariant |line| == column
          invariant forall c | 0 <= c < column :: FreshTile(line[c], Pos(row, c))
        {
          var t := NewTile(row, column);
          line := line + [t];
        }
        tiles := tiles + [line];
      }
    }

    /**
     * `new MazeModel(tiles)`: rejects a null or empty array, a null first row, and null or
     * ragged rows; otherwise the size is taken from the array.
     */
    static method FromTiles(rows: Option<seq<Option<seq<Tile>>>>) returns (r: Result<MazeModel, MazeError>)
      requires rows.Some? ==> TilesInPlace(rows.value)
      ensures r.Success? <==> rows.Some? && Rectangular(rows.value)
      ensures rows.None? || rows.value == [] ==> r == Failure(EmptyTiles)
      ensures rows.Some? && rows.value != [] && rows.value[0].None? ==> r == Failure(NullPointer)
      ensures rows.Some? && rows.value != [] && rows.value[0].Some? && !Rectangular(rows.value) ==>
                r == Failure(RaggedRows)
      ensures r.Success? ==> fresh(r.value) && r.value.Valid() &&
                             r.value.numRows == |rows.value| && r.value.numCols == |rows.value[0].value| &&
                             forall i | 0 <= i < |rows.value| :: r.value.tiles[i] == rows.value[i].value
    {
      if rows.None? || |rows.value| == 0 {
        return Failure(EmptyTiles);
      }
      var rs := rows.value;
      if rs[0].None? {
        return Failure(NullPointer);
      }
      var cols := |rs[0].value|;
      var cells: Cells := [];
      for i := 0 to |rs|
        invariant |cells| == i
        invariant forall k | 0 <= k < i :: rs[k].Some? && |rs[k].value| == cols && cells[k] == rs[k].value
      {
        if rs[i].None? || |rs[i].value| != cols {
          return Failure(RaggedRows);
        }
        cells := cells + [rs[i].value];
      }
      var maze := new MazeModel.Init(|rs|, cols, cells);
      return Success(maze);
    }

    /** `resetTileStatus`: every status back to UNVISITED; walls and visited flags untouched. */
    method ResetTileStatus()
      requires Valid()
      modifies this
      ensures Valid()
      ensures SameLayout(tiles, old(tiles), numRows, numCols)
      ensures forall q | InBounds(numRows, numCols, q) :: At(tiles, q) == old(At(tiles, q)).(status := Unvisited)
    {
      for row := 0 to numRows
        invariant Shaped(tiles, numRows, numCols)
        invariant forall q | InBounds(numRows, numCols, q) ::
                    At(tiles, q) == if q.row < row then old(At(tiles, q)).(status := Unvisited) else old(At(tiles, q))
      {
        for column := 0 to numCols
          invariant Shaped(tiles, numRows, numCols)
          invariant forall q | InBounds(numRows, numCols, q) ::
                      At(tiles, q) == if q.row < row || (q.row == row && q.column < column)
                                      then old(At(tiles, q)).(status := Unvisited) else old(At(tiles, q))
        {
          tiles := WithStatus(tiles, Pos(row, column), Unvisited);
        }
      }
    }

    /**
     * `getEdges`: for each tile in row-major order, the edge to the tile above and then the
     * edge to the tile on the left, when those exist.
     */
    method GetEdges() returns (edges: seq<Edge>)
      requires Valid()
      ensures edges == Edges(numRows, numCols)
      ensures forall e | e in edges :: IsGridEdge(numRows, numCols, e)
    {
      edges := [];
      for row := 0 to numRows
        invariant edges == Edges(row, numCols)
      {
        for column := 0 to numCols
          invariant edges == Edges(row, numCols) + RowEdges(row, column)
        {
          if row > 0 {
            var e := NewEdge(Some(Pos(row, column)), Some(Pos(row - 1, column)));
            edges := edges + [e.value];
          }
          if column > 0 {
            var e := NewEdge(Some(Pos(row, column)), Some(Pos(row, column - 1)));
            edges := edges + [e.value];
          }
        }
      }
      forall e | e in edges ensures IsGridEdge(numRows, numCols, e) {
        EdgesMembers(numRows, numCols, e);
      }
    }

    /**
     * `isInsideMaze(row, column)`: whether the grid has a tile there; in a valid maze that
     * tile sits at exactly those coordinates.
     */
    predicate IsInsideMaze(row: int, column: int): (r: bool)
      reads this
      ensures r <==> InBounds(numRows, numCols, Pos(row, column))
      ensures r && Valid() ==> At(tiles, Pos(row, column)).row == row && At(tiles, Pos(row, column)).column == column
    {
      row >= 0 && row < numRows && column >= 0 && column < numCols
    }

    /** `getTile(row, column)`: the tile at that position, or an index error outside the maze. */
    function GetTile(row: int, column: int): (r: Result<Tile, MazeError>)
      requires Valid()
      reads this
      ensures r.Success? <==> InBounds(numRows, numCols, Pos(row, column))
      ensures r.Failure? ==> r.error == OutOfBounds
      ensures r.Success? ==> r.value.row == row && r.value.column == column && AllEntries(r.value.walls)
    {
      if !IsInsideMaze(row, column) then Failure(OutOfBounds) else Success(At(tiles, Pos(row, column)))
    }

    /**
     * `getNeighbor(tile, direction)`: a null tile is rejected; otherwise the maze's tile one
     * step away in that direction, facing back across the opposite side, or null when that
     * step leaves the maze.
     */
    function GetNeighbor(tile: Option<Tile>, d: WallDirection): (r: Result<Option<Tile>, MazeError>)
      requires Valid()
      reads this
      ensures r.Failure? <==> tile.None?
      ensures r.Failure? ==> r.error == NullReference
      ensures r.Success? && r.value.Some? ==>
                InBounds(numRows, numCols, Pos(r.value.value.row, r.value.value.column)) &&
                Pos(r.value.value.row, r.value.value.column) == Move(Pos(tile.value.row, tile.value.column), d) &&
                Facing(tile.value, r.value.value) == Some(d) &&
                Facing(r.value.value, tile.value) == Some(Opposite(d))
      ensures r.Success? && r.value.None? ==> !InBounds(numRows, numCols, Move(Pos(tile.value.row, tile.value.column), d))
    {
      if tile.None? then Failure(NullReference)
      else
        var newRow := match d case Top => tile.value.row - 1 case Bottom => tile.value.row + 1 case _ => tile.value.row;
        var newCol := match d case Left => tile.value.column - 1 case Right => tile.value.column + 1 case _ => tile.value.column;
        if IsInsideMaze(newRow, newCol) then Success(Some(At(tiles, Pos(newRow, newCol)))) else Success(None)
    }

    /**
     * `addWall(tile, d)`: side `d` of the tile goes up, and so does the opposite side of the
     * neighbour in direction `d` when there is one; no other tile changes.
     */
    method AddWall(p: Pos, d: WallDirection)
      requires Valid() && InBounds(numRows, numCols, p)
      modifies this
      ensures Valid()
      ensures tiles == WithWallPair(old(tiles), numRows, numCols, p, d, true)
      ensures old(Mirrored(tiles, numRows, numCols)) ==> Mirrored(tiles, numRows, numCols)
    {
      SetWallPair(p, d, true);
    }

    /**
     * `removeWall(tile, d)`: side `d` of the tile goes down, and so does the opposite side of
     * the neighbour in direction `d` when there is one; no other tile changes.
     */
    method RemoveWall(p: Pos, d: WallDirection)
      requires Valid() && InBounds(numRows, numCols, p)
      modifies this
      ensures Valid()
      ensures tiles == WithWallPair(old(tiles), numRows, numCols, p, d, false)
      ensures old(Mirrored(tiles, numRows, numCols)) ==> Mirrored(tiles, numRows, numCols)
    {
      SetWallPair(p, d, false);
    }

    /** The shared body of `addWall` and `removeWall`. */
    method SetWallPair(p: Pos, d: WallDirection, present: bool)
      requires Valid() && InBounds(numRows, numCols, p)
      modifies this
      ensures Valid()
      ensures tiles == WithWallPair(old(tiles), numRows, numCols, p, d, present)
      ensures old(Mirrored(tiles, numRows, numCols)) ==> Mirrored(tiles, numRows, numCols)
    {
      var before := tiles;
      tiles := WithTile(tiles, p, SetWall(At(tiles, p), d, present));
      var neighbor := GetNeighbor(Some(At(before, p)), d);
      if neighbor.value.Some? {
        var n := Pos(neighbor.value.value.row, neighbor.value.value.column);
        assert n == Move(p, d);
        tiles := WithTile(tiles, n, SetWall(At(tiles, n), Opposite(d), present));
      }
      assert tiles == WithWallPair(before, numRows, numCols, p, d, present);
      WithWallPairMirrored(before, numRows, numCols, p, d, present);
    }

    /** `tile.status = s` on the tile at `p`: only that status changes, the layout stays. */
    method SetStatus(p: Pos, s: TileStatus)
      requires Valid() && InBounds(numRows, numCols, p)
      modifies this
      ensures Valid()
      ensures tiles == WithStatus(old(tiles), p, s)
      ensures SameLayout(tiles, old(tiles), numRows, numCols)
      ensures At(tiles, p).status == s
    {
      WithStatusLayout(tiles, numRows, numCols, p, s);
      SameLayoutWellFormed(WithStatus(tiles, p, s), tiles, numRows, numCols);
      tiles := WithStatus(tiles, p, s);
    }

    /**
     * `getAccessibleNeighbors(tile)`: looks up, down, left and right, keeping each neighbour
     * inside the maze that the tile has no wall with.
     */
    method GetAccessibleNeighbors(p: Pos) returns (neighbors: seq<Pos>)
      requires Valid() && InBounds(numRows, numCols, p)
      ensures neighbors == AccessibleNeighbors(tiles, numRows, numCols, p)
    {
      neighbors := [];
      neighbors := Look(p, Top, neighbors);
      neighbors := Look(p, Bottom, neighbors);
      neighbors := Look(p, Left, neighbors);
      neighbors := Look(p, Right, neighbors);
      AccessibleNeighborsUnfold(tiles, numRows, numCols, p);
    }

    /**
     * One of the four looks of `getAccessibleNeighbors`: the tile one step in direction `d` is
     * appended when it lies inside the maze (`r > 0`, `r < rows - 1`, `c > 0`, `c < cols - 1`)
     * and `tile.hasWallWith` it is false.
     */
    method Look(p: Pos, d: WallDirection, neighbors: seq<Pos>) returns (r: seq<Pos>)
      requires Valid() && InBounds(numRows, numCols, p)
      ensures r == neighbors + OpenMove(tiles, numRows, numCols, p, d)
    {
      var q := Move(p, d);
      r := neighbors;
      if InBounds(numRows, numCols, q) {
        if !HasWallWith(At(tiles, p), At(tiles, q)) {
          r := neighbors + [q];
        }
      }
      OpenMoveByHasWallWith(tiles, numRows, numCols, p, d);
    }

    /** `getStartTile`: the tile at (0, 0), or an error when the maze has no tiles. */
    function GetStartTile(): (r: Result<Tile, MazeError>)
      requires Valid()
      reads this
      ensures r.Failure? <==> numCols == 0
      ensures r.Failure? ==> r.error == NoTiles
      ensures r.Success? ==> r.value.row == 0 && r.value.column == 0 && Pos(0, 0) == StartTile()
    {
      if numRows == 0 || numCols == 0 then Failure(NoTiles) else Success(At(tiles, Pos(0, 0)))
    }

    /** `getEndTile`: the tile at (numRows - 1, numCols - 1), or an error when the maze has no tiles. */
    function GetEndTile(): (r: Result<Tile, MazeError>)
      requires Valid()
      reads this
      ensures r.Failure? <==> numCols == 0
      ensures r.Failure? ==> r.error == NoTiles
      ensures r.Success? ==> r.value.row == numRows - 1 && r.value.column == numCols - 1 &&
                             Pos(r.value.row, r.value.column) == EndTile(numRows, numCols)
    {
      if numRows == 0 || numCols == 0 then Failure(NoTiles) else Success(At(tiles, Pos(numRows - 1, numCols - 1)))
    }
  }
}
