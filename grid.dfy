/**
 * The contents of a maze as a value: the rectangular array of tiles of `MazeModel`, and the
 * queries that `MazeModel` answers from it (bounds, neighbours, accessible neighbours, edges).
 * The class `MazeModel` (module Maze) holds one such value and updates it in place.
 */
module Grid {
  import opened Enums
  import opened Helpers
  import opened Wrappers
  import opened TileModel
  import opened EdgeModel

  /** `tiles[row][column]`, row-major. */
  type Cells = seq<seq<Tile>>

  /** The exceptions thrown by `MazeModel`. */
  datatype MazeError =
    | NonPositiveSize   // IllegalArgumentException: rows and columns must be positive
    | EmptyTiles        // IllegalArgumentException: tiles cannot be null or empty
    | RaggedRows        // IllegalArgumentException: rows must have the same number of columns
    | NullReference     // IllegalArgumentException: tile cannot be null
    | NullPointer       // NullPointerException: the first row of the array is null
    | OutOfBounds       // IndexOutOfBoundsException: invalid tile position
    | NoTiles           // IllegalStateException: maze has no tiles

  /** `isInsideMaze(row, column)`. */
  predicate InBounds(numRows: int, numCols: int, p: Pos)
  {
    0 <= p.row < numRows && 0 <= p.column < numCols
  }

  /** `numRows` rows of `numCols` tiles each. */
  predicate Shaped(cells: Cells, numRows: int, numCols: int)
  {
    |cells| == numRows && forall r | 0 <= r < |cells| :: |cells[r]| == numCols
  }

  /** The tile a reference designates. */
  function At(cells: Cells, p: Pos): Tile
    requires 0 <= p.row < |cells| && 0 <= p.column < |cells[p.row]|
  {
    cells[p.row][p.column]
  }

  /** Every tile sits at its own coordinates and has an entry for each of its four sides. */
  ghost predicate WellFormed(cells: Cells, numRows: int, numCols: int)
  {
    Shaped(cells, numRows, numCols) &&
    forall p {:trigger At(cells, p)} | InBounds(numRows, numCols, p) ::
      At(cells, p).row == p.row && At(cells, p).column == p.column &&
      AllEntries(At(cells, p).walls)
  }

  /** The position one step away in direction `d` (TOP is row - 1, RIGHT is column + 1). */
  function Move(p: Pos, d: WallDirection): Pos
  {
    match d
    case Top => Pos(p.row - 1, p.column)
    case Bottom => Pos(p.row + 1, p.column)
    case Left => Pos(p.row, p.column - 1)
    case Right => Pos(p.row, p.column + 1)
  }

  /** Moving back in the opposite direction returns to the start. */
  lemma MoveOpposite(p: Pos, d: WallDirection)
    ensures Move(Move(p, d), Opposite(d)) == p
  {
  }

  /** The tile one step away in direction `d` faces back with side `d`. */
  lemma MoveFacing(cells: Cells, numRows: int, numCols: int, p: Pos, d: WallDirection)
    requires WellFormed(cells, numRows, numCols)
    requires InBounds(numRows, numCols, p) && InBounds(numRows, numCols, Move(p, d))
    ensures Facing(At(cells, p), At(cells, Move(p, d))) == Some(d)
  {
  }

  /** The start tile (0, 0), as the solvers obtain it. */
  function StartTile(): Pos
  {
    Pos(0, 0)
  }

  /** The end tile (numRows - 1, numCols - 1), as the solvers obtain it. */
  function EndTile(numRows: int, numCols: int): Pos
  {
    Pos(numRows - 1, numCols - 1)
  }

  /** The step in direction `d` when it stays inside the maze and this tile's side `d` is open. */
  function OpenMove(cells: Cells, numRows: int, numCols: int, p: Pos, d: WallDirection): seq<Pos>
    requires Shaped(cells, numRows, numCols) && InBounds(numRows, numCols, p)
  {
    if InBounds(numRows, numCols, Move(p, d)) && !HasWall(At(cells, p).walls, d) then [Move(p, d)] else []
  }

  /**
   * Reference definition of the accessible neighbours: the in-bounds steps in the listed
   * directions whose wall on this tile's side is down, in list order.
   */
  function OpenMoves(cells: Cells, numRows: int, numCols: int, p: Pos, ds: seq<WallDirection>): (r: seq<Pos>)
    requires Shaped(cells, numRows, numCols) && InBounds(numRows, numCols, p)
    ensures |r| <= |ds|
  {
    if ds == [] then []
    else OpenMove(cells, numRows, numCols, p, ds[0]) + OpenMoves(cells, numRows, numCols, p, ds[1..])
  }

  /** The order in which `getAccessibleNeighbors` looks around: up, down, left, right. */
  const SearchOrder: seq<WallDirection> := [Top, Bottom, Left, Right]

  /**
   * The accessible neighbours of `getAccessibleNeighbors`: the open in-bounds steps, in the
   * order up, down, left, right; a tile has at most four.
   */
  function AccessibleNeighbors(cells: Cells, numRows: int, numCols: int, p: Pos): (r: seq<Pos>)
    requires Shaped(cells, numRows, numCols) && InBounds(numRows, numCols, p)
    ensures |r| <= 4
  {
    OpenMoves(cells, numRows, numCols, p, SearchOrder)
  }

  /** Concatenation is associative; stated once so that sequences need not be compared element by element. */
  lemma AppendAssoc<T>(a: seq<T>, b: seq<T>, c: seq<T>)
    ensures (a + b) + c == a + (b + c)
  {
  }

  /** The four directions looked at one after the other. */
  lemma AccessibleNeighborsUnfold(cells: Cells, numRows: int, numCols: int, p: Pos)
    requires Shaped(cells, numRows, numCols) && InBounds(numRows, numCols, p)
    ensures AccessibleNeighbors(cells, numRows, numCols, p) ==
              OpenMove(cells, numRows, numCols, p, Top) + OpenMove(cells, numRows, numCols, p, Bottom) +
              OpenMove(cells, numRows, numCols, p, Left) + OpenMove(cells, numRows, numCols, p, Right)
  {
    var ds := SearchOrder;
    assert ds[1..] == [Bottom, Left, Right];
    assert [Right][1..] == [] && [Left, Right][1..] == [Right] && [Bottom, Left, Right][1..] == [Left, Right];
    var m3 := OpenMoves(cells, numRows, numCols, p, [Right]);
    assert m3 == OpenMove(cells, numRows, numCols, p, Right) + OpenMoves(cells, numRows, numCols, p, []);
    assert OpenMoves(cells, numRows, numCols, p, []) == [];
    assert m3 == OpenMove(cells, numRows, numCols, p, Right);
    var m2 := OpenMoves(cells, numRows, numCols, p, [Left, Right]);
    assert m2 == OpenMove(cells, numRows, numCols, p, Left) + m3;
    var m1 := OpenMoves(cells, numRows, numCols, p, [Bottom, Left, Right]);
    assert m1 == OpenMove(cells, numRows, numCols, p, Bottom) + m2;
    assert OpenMoves(cells, numRows, numCols, p, ds) == OpenMove(cells, numRows, numCols, p, Top) + m1;
    var top, bottom := OpenMove(cells, numRows, numCols, p, Top), OpenMove(cells, numRows, numCols, p, Bottom);
    AppendAssoc(top + bottom, OpenMove(cells, numRows, numCols, p, Left), m3);
    AppendAssoc(top, bottom, m2);
  }

  /**
   * The open-step test for direction `d` is `getAccessibleNeighbors`' test: the step stays
   * inside the maze and the tile has no wall with the tile there (`hasWallWith` reads the
   * tile's own flag for side `d`).
   */
  lemma OpenMoveByHasWallWith(cells: Cells, numRows: int, numCols: int, p: Pos, d: WallDirection)
    requires WellFormed(cells, numRows, numCols) && InBounds(numRows, numCols, p)
    ensures OpenMove(cells, numRows, numCols, p, d) ==
              if InBounds(numRows, numCols, Move(p, d)) && !HasWallWith(At(cells, p), At(cells, Move(p, d)))
              then [Move(p, d)] else []
  {
    if InBounds(numRows, numCols, Move(p, d)) {
      MoveFacing(cells, numRows, numCols, p, d);
    }
  }

  /** A position is among the open moves exactly when it is an in-bounds open step. */
  lemma {:induction false} OpenMovesMembers(cells: Cells, numRows: int, numCols: int, p: Pos,
                                            ds: seq<WallDirection>, q: Pos)
    requires Shaped(cells, numRows, numCols) && InBounds(numRows, numCols, p)
    ensures q in OpenMoves(cells, numRows, numCols, p, ds) <==>
              exists i | 0 <= i < |ds| :: q == Move(p, ds[i]) && InBounds(numRows, numCols, q) &&
                                          !HasWall(At(cells, p).walls, ds[i])
  {
    if ds != [] {
      OpenMovesMembers(cells, numRows, numCols, p, ds[1..], q);
      if q in OpenMoves(cells, numRows, numCols, p, ds[1..]) {
        var i :| 0 <= i < |ds[1..]| && q == Move(p, ds[1..][i]) && InBounds(numRows, numCols, q) &&
                 !HasWall(At(cells, p).walls, ds[1..][i]);
        assert ds[i + 1] == ds[1..][i];
      }
      if exists i | 0 <= i < |ds| :: q == Move(p, ds[i]) && InBounds(numRows, numCols, q) &&
                                    !HasWall(At(cells, p).walls, ds[i]) {
        var i :| 0 <= i < |ds| && q == Move(p, ds[i]) && InBounds(numRows, numCols, q) &&
                 !HasWall(At(cells, p).walls, ds[i]);
        if i > 0 {
          assert ds[1..][i - 1] == ds[i];
        }
      }
    }
  }

  /** Open moves along distinct directions are distinct positions. */
  lemma {:induction false} OpenMovesDistinct(cells: Cells, numRows: int, numCols: int, p: Pos,
                                             ds: seq<WallDirection>)
    requires Shaped(cells, numRows, numCols) && InBounds(numRows, numCols, p)
    requires Distinct(ds)
    ensures Distinct(OpenMoves(cells, numRows, numCols, p, ds))
  {
    if ds != [] {
      var rest := OpenMoves(cells, numRows, numCols, p, ds[1..]);
      assert Distinct(ds[1..]) by {
        forall i, j | 0 <= i < j < |ds[1..]| ensures ds[1..][i] != ds[1..][j] {
          assert ds[1..][i] == ds[i + 1] && ds[1..][j] == ds[j + 1];
        }
      }
      OpenMovesDistinct(cells, numRows, numCols, p, ds[1..]);
      OpenMovesMembers(cells, numRows, numCols, p, ds[1..], Move(p, ds[0]));
      forall i | 0 <= i < |ds[1..]| ensures Move(p, ds[1..][i]) != Move(p, ds[0]) {
        assert ds[1..][i] == ds[i + 1];
      }
    }
  }

  /**
   * What the solvers rely on: every accessible neighbour is inside the maze, one step away
   * through an open side, every such step is accessible, and none is listed twice.
   */
  lemma AccessibleNeighborsMembers(cells: Cells, numRows: int, numCols: int, p: Pos)
    requires Shaped(cells, numRows, numCols) && InBounds(numRows, numCols, p)
    ensures forall d :: Move(p, d) in AccessibleNeighbors(cells, numRows, numCols, p) <==>
                          InBounds(numRows, numCols, Move(p, d)) && !HasWall(At(cells, p).walls, d)
    ensures forall q {:trigger q in AccessibleNeighbors(cells, numRows, numCols, p)}
              | q in AccessibleNeighbors(cells, numRows, numCols, p) ::
              InBounds(numRows, numCols, q) && exists d :: q == Move(p, d) && !HasWall(At(cells, p).walls, d)
  {
    var ns := OpenMoves(cells, numRows, numCols, p, SearchOrder);
    forall d
      ensures Move(p, d) in ns <==> InBounds(numRows, numCols, Move(p, d)) && !HasWall(At(cells, p).walls, d)
    {
      OpenMovesMembers(cells, numRows, numCols, p, SearchOrder, Move(p, d));
      var i := match d case Top => 0 case Bottom => 1 case Left => 2 case Right => 3;
      assert SearchOrder[i] == d;
    }
    forall q | q in ns
      ensures InBounds(numRows, numCols, q) && exists d :: q == Move(p, d) && !HasWall(At(cells, p).walls, d)
    {
      OpenMovesMembers(cells, numRows, numCols, p, SearchOrder, q);
    }
  }

  /** No accessible neighbour is listed twice. */
  lemma AccessibleNeighborsDistinct(cells: Cells, numRows: int, numCols: int, p: Pos)
    requires Shaped(cells, numRows, numCols) && InBounds(numRows, numCols, p)
    ensures Distinct(AccessibleNeighbors(cells, numRows, numCols, p))
  {
    OpenMovesDistinct(cells, numRows, numCols, p, SearchOrder);
  }

  /** `b` is inside the grid, one step from `a` through a side of `a` that has no wall. */
  ghost predicate OpenStep(cells: Cells, numRows: int, numCols: int, a: Pos, b: Pos)
    requires Shaped(cells, numRows, numCols) && InBounds(numRows, numCols, a)
  {
    InBounds(numRows, numCols, b) && exists d :: b == Move(a, d) && !HasWall(At(cells, a).walls, d)
  }

  /** The accessible neighbours of `a` are exactly the tiles one open step away. */
  lemma OpenStepAccessible(cells: Cells, numRows: int, numCols: int, a: Pos, b: Pos)
    requires Shaped(cells, numRows, numCols) && InBounds(numRows, numCols, a)
    ensures OpenStep(cells, numRows, numCols, a, b) <==> b in AccessibleNeighbors(cells, numRows, numCols, a)
  {
    AccessibleNeighborsMembers(cells, numRows, numCols, a);
  }

  /** No element occurs twice. */
  predicate Distinct<T(==)>(s: seq<T>)
  {
    forall i, j | 0 <= i < j < |s| :: s[i] != s[j]
  }

  /** Every wall seen from one side is the same wall seen from the neighbour's side. */
  ghost predicate Mirrored(cells: Cells, numRows: int, numCols: int)
    requires Shaped(cells, numRows, numCols)
  {
    forall p, d | InBounds(numRows, numCols, p) && InBounds(numRows, numCols, Move(p, d)) ::
      HasWall(At(cells, p).walls, d) == HasWall(At(cells, Move(p, d)).walls, Opposite(d))
  }

  /** The grid with the tile at `p` replaced. */
  function WithTile(cells: Cells, p: Pos, t: Tile): (r: Cells)
    requires 0 <= p.row < |cells| && 0 <= p.column < |cells[p.row]|
    ensures |r| == |cells| && forall i | 0 <= i < |r| :: |r[i]| == |cells[i]|
    ensures forall q: Pos {:trigger At(r, q)} | 0 <= q.row < |r| && 0 <= q.column < |r[q.row]| ::
              At(r, q) == if q == p then t else At(cells, q)
  {
    cells[p.row := cells[p.row][p.column := t]]
  }

  /** The grid with the status of the tile at `p` set to `s` (`tile.status = s`). */
  function WithStatus(cells: Cells, p: Pos, s: TileStatus): (r: Cells)
    requires 0 <= p.row < |cells| && 0 <= p.column < |cells[p.row]|
  {
    WithTile(cells, p, At(cells, p).(status := s))
  }

  /** Two grids with the same shape, positions and walls; statuses and visited flags may differ. */
  ghost predicate SameLayout(a: Cells, b: Cells, numRows: int, numCols: int)
  {
    Shaped(a, numRows, numCols) && Shaped(b, numRows, numCols) &&
    forall p {:trigger At(a, p)} {:trigger At(b, p)} | InBounds(numRows, numCols, p) ::
      At(a, p).row == At(b, p).row && At(a, p).column == At(b, p).column &&
      At(a, p).walls == At(b, p).walls
  }

  /** Setting a status keeps the layout. */
  lemma WithStatusLayout(cells: Cells, numRows: int, numCols: int, p: Pos, s: TileStatus)
    requires Shaped(cells, numRows, numCols) && InBounds(numRows, numCols, p)
    ensures SameLayout(WithStatus(cells, p, s), cells, numRows, numCols)
    ensures At(WithStatus(cells, p, s), p).status == s
  {
  }

  /** Grids with the same layout are equally well formed. */
  lemma SameLayoutWellFormed(a: Cells, b: Cells, numRows: int, numCols: int)
    requires SameLayout(a, b, numRows, numCols)
    ensures WellFormed(a, numRows, numCols) <==> WellFormed(b, numRows, numCols)
  {
  }

  /** The open moves depend on the layout only. */
  lemma {:induction false} SameLayoutOpenMoves(a: Cells, b: Cells, numRows: int, numCols: int, p: Pos,
                                               ds: seq<WallDirection>)
    requires SameLayout(a, b, numRows, numCols) && InBounds(numRows, numCols, p)
    ensures OpenMoves(a, numRows, numCols, p, ds) == OpenMoves(b, numRows, numCols, p, ds)
  {
    if ds != [] {
      SameLayoutOpenMoves(a, b, numRows, numCols, p, ds[1..]);
    }
  }

  /** Grids with the same layout have the same accessible neighbours. */
  lemma SameLayoutNeighbors(a: Cells, b: Cells, numRows: int, numCols: int, p: Pos)
    requires SameLayout(a, b, numRows, numCols) && InBounds(numRows, numCols, p)
    ensures AccessibleNeighbors(a, numRows, numCols, p) == AccessibleNeighbors(b, numRows, numCols, p)
  {
    SameLayoutOpenMoves(a, b, numRows, numCols, p, SearchOrder);
  }

  /** SameLayout is transitive and symmetric. */
  lemma SameLayoutTrans(a: Cells, b: Cells, c: Cells, numRows: int, numCols: int)
    requires SameLayout(a, b, numRows, numCols) && SameLayout(b, c, numRows, numCols)
    ensures SameLayout(a, c, numRows, numCols) && SameLayout(c, a, numRows, numCols)
  {
  }

  // ----- Edges -----

  /** The edges `getEdges` records for the tile at (row, column): to the tile above, then to the left. */
  function CellEdges(row: int, column: int): seq<Edge>
  {
    (if row > 0 then [Edge(Pos(row, column), Pos(row - 1, column))] else []) +
    (if column > 0 then [Edge(Pos(row, column), Pos(row, column - 1))] else [])
  }

  /** The edges of the first `n` tiles of row `row`, left to right. */
  function RowEdges(row: int, n: int): seq<Edge>
    decreases n
  {
    if n <= 0 then [] else RowEdges(row, n - 1) + CellEdges(row, n - 1)
  }

  /** The edges of the first `rows` rows, top to bottom. */
  function Edges(rows: int, numCols: int): seq<Edge>
    decreases rows
  {
    if rows <= 0 then [] else Edges(rows - 1, numCols) + RowEdges(rows - 1, numCols)
  }

  /** An edge joins an in-bounds tile to the tile above it or to the tile on its left. */
  predicate IsGridEdge(numRows: int, numCols: int, e: Edge)
  {
    InBounds(numRows, numCols, e.tile1) &&
    ((e.tile1.row > 0 && e.tile2 == Move(e.tile1, Top)) ||
     (e.tile1.column > 0 && e.tile2 == Move(e.tile1, Left)))
  }

  /** Every edge of a row is a grid edge of that row, and each such edge is listed. */
  lemma {:induction false} RowEdgesMembers(row: int, n: int, numRows: int, e: Edge)
    requires 0 <= row < numRows && 0 <= n
    ensures e in RowEdges(row, n) <==> IsGridEdge(numRows, n, e) && e.tile1.row == row
  {
    if n > 0 {
      RowEdgesMembers(row, n - 1, numRows, e);
    }
  }

  /** `getEdges` lists exactly the pairs of a tile with its upper and its left neighbour. */
  lemma {:induction false} EdgesMembers(rows: int, numCols: int, e: Edge)
    requires 0 <= rows && 0 <= numCols
    ensures e in Edges(rows, numCols) <==> IsGridEdge(rows, numCols, e)
  {
    if rows > 0 {
      EdgesMembers(rows - 1, numCols, e);
      RowEdgesMembers(rows - 1, numCols, rows, e);
    }
  }

  /** Each row but the first has 2n - 1 edges, the first n - 1. */
  lemma {:induction false} RowEdgesCount(row: int, n: int)
    requires 1 <= n
    ensures |RowEdges(row, n)| == if row > 0 then 2 * n - 1 else n - 1
  {
    if n > 1 {
      RowEdgesCount(row, n - 1);
    }
  }

  /** A maze of R rows and C columns has 2·R·C − R − C edges. */
  lemma {:induction false} EdgesCount(rows: int, numCols: int)
    requires 1 <= rows && 1 <= numCols
    ensures |Edges(rows, numCols)| == 2 * rows * numCols - rows - numCols
  {
    RowEdgesCount(rows - 1, numCols);
    if rows > 1 {
      EdgesCount(rows - 1, numCols);
    }
  }

  /** Within a row, edges are listed in the order of their first tile's column. */
  lemma {:induction false} RowEdgesDistinct(row: int, n: int)
    requires 0 <= n
    ensures Distinct(RowEdges(row, n))
    ensures forall e | e in RowEdges(row, n) :: e.tile1.row == row && 0 <= e.tile1.column < n
  {
    if n > 0 {
      RowEdgesDistinct(row, n - 1);
      var a, b := RowEdges(row, n - 1), CellEdges(row, n - 1);
      assert Distinct(b);
      forall i, j | 0 <= i < j < |a + b| ensures (a + b)[i] != (a + b)[j] {
        if j >= |a| && i < |a| {
          assert (a + b)[i] in a && (a + b)[j] in b;
        }
      }
    }
  }

  /** No edge is listed twice. */
  lemma {:induction false} EdgesDistinct(rows: int, numCols: int)
    requires 0 <= rows && 0 <= numCols
    ensures Distinct(Edges(rows, numCols))
    ensures forall e | e in Edges(rows, numCols) :: 0 <= e.tile1.row < rows
  {
    if rows > 0 {
      EdgesDistinct(rows - 1, numCols);
      RowEdgesDistinct(rows - 1, numCols);
      var a, b := Edges(rows - 1, numCols), RowEdges(rows - 1, numCols);
      forall i, j | 0 <= i < j < |a + b| ensures (a + b)[i] != (a + b)[j] {
        if j >= |a| && i < |a| {
          assert (a + b)[i] in a && (a + b)[j] in b;
        }
      }
    }
  }

  // ----- Positions -----

  /** The positions of the tiles of row `row`, columns 0 to n - 1. */
  ghost function RowPositions(row: int, n: int): set<Pos>
  {
    set c | 0 <= c < n :: Pos(row, c)
  }

  /** The positions of all tiles. */
  ghost function AllPositions(numRows: int, numCols: int): set<Pos>
  {
    set r, c | 0 <= r < numRows && 0 <= c < numCols :: Pos(r, c)
  }

  lemma {:induction false} RowPositionsCount(row: int, n: int)
    requires 0 <= n
    ensures |RowPositions(row, n)| == n
  {
    if n > 0 {
      RowPositionsCount(row, n - 1);
      assert RowPositions(row, n) == RowPositions(row, n - 1) + {Pos(row, n - 1)};
    }
  }

  /** The positions of R rows are those of the first R - 1 rows and those of the last row. */
  lemma AllPositionsSplit(numRows: int, numCols: int)
    requires 1 <= numRows
    ensures AllPositions(numRows, numCols) == AllPositions(numRows - 1, numCols) + RowPositions(numRows - 1, numCols)
    ensures AllPositions(numRows - 1, numCols) !! RowPositions(numRows - 1, numCols)
  {
    forall p | p in AllPositions(numRows, numCols)
      ensures p in AllPositions(numRows - 1, numCols) + RowPositions(numRows - 1, numCols)
    {
      if p.row < numRows - 1 {
        assert p in AllPositions(numRows - 1, numCols);
      } else {
        assert p in RowPositions(numRows - 1, numCols);
      }
    }
  }

  /** `AllPositions` holds exactly the in-bounds positions. */
  lemma AllPositionsMembers(numRows: int, numCols: int, p: Pos)
    ensures p in AllPositions(numRows, numCols) <==> InBounds(numRows, numCols, p)
  {
    if InBounds(numRows, numCols, p) {
      assert p == Pos(p.row, p.column);
    }
  }

  /** A maze of R rows and C columns has R·C tile positions. */
  lemma {:induction false} AllPositionsCount(numRows: int, numCols: int)
    requires 0 <= numRows && 0 <= numCols
    ensures |AllPositions(numRows, numCols)| == numRows * numCols
  {
    if numRows > 0 {
      AllPositionsCount(numRows - 1, numCols);
      RowPositionsCount(numRows - 1, numCols);
      AllPositionsSplit(numRows, numCols);
      assert (numRows - 1) * numCols + numCols == numRows * numCols;
    } else {
      assert AllPositions(numRows, numCols) == {};
    }
  }

  /**
   * A labelling that agrees across every edge of the grid is the same on every tile: the
   * edges of `getEdges` connect the whole grid.
   */
  lemma {:induction false} EdgesConnect<T>(numRows: int, numCols: int, labels: map<Pos, T>, p: Pos)
    requires forall q | InBounds(numRows, numCols, q) :: q in labels
    requires forall e | e in Edges(numRows, numCols) :: e.tile1 in labels && e.tile2 in labels && labels[e.tile1] == labels[e.tile2]
    requires InBounds(numRows, numCols, p) && Pos(0, 0) in labels
    ensures labels[p] == labels[Pos(0, 0)]
    decreases p.row, p.column
  {
    if p.column > 0 {
      var e := Edge(p, Pos(p.row, p.column - 1));
      EdgesMembers(numRows, numCols, e);
      EdgesConnect(numRows, numCols, labels, e.tile2);
    } else if p.row > 0 {
      var e := Edge(p, Pos(p.row - 1, p.column));
      EdgesMembers(numRows, numCols, e);
      EdgesConnect(numRows, numCols, labels, e.tile2);
    }
  }

  // ----- Reachability -----

  /**
   * A trail read backwards: `w[i]` is an accessible neighbour of `w[i + 1]`, so one walks
   * from the last element to the first.
   */
  ghost predicate IsTrail(cells: Cells, numRows: int, numCols: int, w: seq<Pos>)
  {
    Shaped(cells, numRows, numCols) && |w| >= 1 &&
    (forall i | 0 <= i < |w| :: InBounds(numRows, numCols, w[i])) &&
    forall i | 0 <= i < |w| - 1 :: w[i] in AccessibleNeighbors(cells, numRows, numCols, w[i + 1])
  }

  /** `target` can be walked to from `source` through open walls. */
  ghost predicate Reachable(cells: Cells, numRows: int, numCols: int, source: Pos, target: Pos)
  {
    exists w :: IsTrail(cells, numRows, numCols, w) && w[0] == target && w[|w| - 1] == source
  }
}
