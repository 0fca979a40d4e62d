/**
 * The wall follower (cynaspe/src/algorithms/WallFollowerSolver.java): a walker that keeps a
 * hand on the wall to its right, marking each tile it stands on PATH until it stands on the
 * end tile. Directions are numbered 0, 1, 2, 3 for up, right, down, left, the order of
 * `Directions`.
 */
module WallFollower {
  import opened Wrappers
  import opened Enums
  import opened Helpers
  import opened TileModel
  import opened Grid
  import opened Maze

  /**
   * `getNeighbor(tile, dir)`: the tile one step up, right, down or left for `dir` 0, 1, 2, 3
   * (designated by its position), none when that step leaves the maze or `dir` is anything else.
   */
  function Neighbor(numRows: int, numCols: int, p: Pos, dir: int): (r: Option<Pos>)
    requires InBounds(numRows, numCols, p)
    ensures r.Some? <==> 0 <= dir < 4 && InBounds(numRows, numCols, Move(p, Directions[dir]))
    ensures r.Some? ==> r.value == Move(p, Directions[dir])
  {
    if dir == 0 then (if p.row > 0 then Some(Pos(p.row - 1, p.column)) else None)
    else if dir == 1 then (if p.column < numCols - 1 then Some(Pos(p.row, p.column + 1)) else None)
    else if dir == 2 then (if p.row < numRows - 1 then Some(Pos(p.row + 1, p.column)) else None)
    else if dir == 3 then (if p.column > 0 then Some(Pos(p.row, p.column - 1)) else None)
    else None
  }

  /** A quarter turn clockwise, `(dir + 1) % 4` on direction numbers. */
  function Clockwise(d: WallDirection): WallDirection
  {
    match d
    case Top => Right
    case Right => Bottom
    case Bottom => Left
    case Left => Top
  }

  /** A quarter turn counterclockwise, `(dir + 3) % 4` on direction numbers. */
  function Counterclockwise(d: WallDirection): WallDirection
  {
    match d
    case Top => Left
    case Right => Top
    case Bottom => Right
    case Left => Bottom
  }

  /** The arithmetic of `solve()` on direction numbers turns the directions they stand for. */
  lemma DirectionNumbers(dir: int)
    requires 0 <= dir < 4
    ensures Directions[(dir + 1) % 4] == Clockwise(Directions[dir])
    ensures Directions[(dir + 3) % 4] == Counterclockwise(Directions[dir])
    ensures Directions[(dir + 2) % 4] == Opposite(Directions[dir])
  {
  }

  /** Side `d` of the tile at `p` leads to a tile inside the maze and has no wall. */
  predicate Open(cells: Cells, numRows: int, numCols: int, p: Pos, d: WallDirection)
    requires Shaped(cells, numRows, numCols) && InBounds(numRows, numCols, p)
  {
    InBounds(numRows, numCols, Move(p, d)) && !HasWall(At(cells, p).walls, d)
  }

  /**
   * The test of `solve()`, `neighbor != null && !current.hasWallWith(neighbor)` with
   * `neighbor = getNeighbor(current, dir)`, is `Open` in a well-formed grid.
   */
  lemma NeighborOpen(cells: Cells, numRows: int, numCols: int, p: Pos, dir: int)
    requires WellFormed(cells, numRows, numCols) && InBounds(numRows, numCols, p) && 0 <= dir < 4
    ensures var n := Neighbor(numRows, numCols, p, dir);
            (n.Some? && !HasWallWith(At(cells, p), At(cells, n.value))) <==> Open(cells, numRows, numCols, p, Directions[dir])
  {
    var n := Neighbor(numRows, numCols, p, dir);
    if n.Some? {
      MoveFacing(cells, numRows, numCols, p, Directions[dir]);
    }
  }

  /**
   * One turn of the loop of `solve()` from tile `p` facing `d`: step right and face right
   * when that side is open, else step forward, else step left and face left, else stay and
   * turn around. The walker stays inside the maze.
   */
  function Turn(cells: Cells, numRows: int, numCols: int, p: Pos, d: WallDirection): (r: (Pos, WallDirection))
    requires Shaped(cells, numRows, numCols) && InBounds(numRows, numCols, p)
    ensures InBounds(numRows, numCols, r.0)
  {
    var right, left := Clockwise(d), Counterclockwise(d);
    if Open(cells, numRows, numCols, p, right) then (Move(p, right), right)
    else if Open(cells, numRows, numCols, p, d) then (Move(p, d), d)
    else if Open(cells, numRows, numCols, p, left) then (Move(p, left), left)
    else (p, Opposite(d))
  }

  /** The walker after `n` turns from tile `p` facing `d`. */
  function Walk(cells: Cells, numRows: int, numCols: int, p: Pos, d: WallDirection, n: nat): (r: (Pos, WallDirection))
    requires Shaped(cells, numRows, numCols) && InBounds(numRows, numCols, p)
    ensures InBounds(numRows, numCols, r.0)
  {
    if n == 0 then (p, d)
    else
      var w := Walk(cells, numRows, numCols, p, d, n - 1);
      Turn(cells, numRows, numCols, w.0, w.1)
  }

  /** The tiles the walker stands on at the starts of turns `from` to `to - 1`, in order. */
  function Positions(cells: Cells, numRows: int, numCols: int, p: Pos, d: WallDirection, from: nat, to: nat): (r: seq<Pos>)
    requires Shaped(cells, numRows, numCols) && InBounds(numRows, numCols, p) && from <= to
    ensures |r| == to - from
    ensures forall i | 0 <= i < |r| :: InBounds(numRows, numCols, r[i])
  {
    if from == to then []
    else Positions(cells, numRows, numCols, p, d, from, to - 1) + [Walk(cells, numRows, numCols, p, d, to - 1).0]
  }

  /** Entry `i` of the positions is where the walker stands at the start of turn `from + i`. */
  lemma {:induction false} PositionsAt(cells: Cells, numRows: int, numCols: int, p: Pos, d: WallDirection, from: nat, to: nat)
    requires Shaped(cells, numRows, numCols) && InBounds(numRows, numCols, p) && from <= to
    ensures forall i | 0 <= i < to - from ::
              Positions(cells, numRows, numCols, p, d, from, to)[i] == Walk(cells, numRows, numCols, p, d, from + i).0
  {
    if from < to {
      PositionsAt(cells, numRows, numCols, p, d, from, to - 1);
    }
  }

  /** The grid with every tile of `ps` marked PATH, one after another (`current.status = PATH`). */
  function MarkAll(cells: Cells, numRows: int, numCols: int, ps: seq<Pos>): (r: Cells)
    requires Shaped(cells, numRows, numCols) && forall i | 0 <= i < |ps| :: InBounds(numRows, numCols, ps[i])
    ensures Shaped(r, numRows, numCols)
  {
    if ps == [] then cells
    else
      var last := ps[|ps| - 1];
      assert InBounds(numRows, numCols, last);
      WithStatus(MarkAll(cells, numRows, numCols, ps[..|ps| - 1]), last, Path)
  }

  /** Marking one more tile is marking it after the others. */
  lemma MarkLast(cells: Cells, numRows: int, numCols: int, ps: seq<Pos>, q: Pos)
    requires Shaped(cells, numRows, numCols) && forall i | 0 <= i < |ps| :: InBounds(numRows, numCols, ps[i])
    requires InBounds(numRows, numCols, q)
    ensures MarkAll(cells, numRows, numCols, ps + [q]) == WithStatus(MarkAll(cells, numRows, numCols, ps), q, Path)
  {
    assert (ps + [q])[..|ps|] == ps;
  }

  /** Marking keeps the layout, marks exactly the tiles of `ps` PATH and leaves every other status. */
  lemma {:induction false} MarkAllEffect(cells: Cells, numRows: int, numCols: int, ps: seq<Pos>)
    requires Shaped(cells, numRows, numCols) && forall i | 0 <= i < |ps| :: InBounds(numRows, numCols, ps[i])
    ensures SameLayout(MarkAll(cells, numRows, numCols, ps), cells, numRows, numCols)
    ensures forall q | InBounds(numRows, numCols, q) ::
              At(MarkAll(cells, numRows, numCols, ps), q).status == if q in ps then Path else At(cells, q).status
  {
    if ps != [] {
      var front := ps[..|ps| - 1];
      MarkAllEffect(cells, numRows, numCols, front);
      var before := MarkAll(cells, numRows, numCols, front);
      WithStatusLayout(before, numRows, numCols, ps[|ps| - 1], Path);
      SameLayoutTrans(MarkAll(cells, numRows, numCols, ps), before, cells, numRows, numCols);
      assert ps == front + [ps[|ps| - 1]];
      forall q | InBounds(numRows, numCols, q)
        ensures At(MarkAll(cells, numRows, numCols, ps), q).status == if q in ps then Path else At(cells, q).status
      {
        assert q in ps <==> q in front || q == ps[|ps| - 1];
      }
    }
  }

  /** In a well-formed grid, side `d` is open exactly when the step that way is an accessible neighbour. */
  lemma OpenAccessible(cells: Cells, numRows: int, numCols: int, p: Pos, d: WallDirection)
    requires Shaped(cells, numRows, numCols) && InBounds(numRows, numCols, p)
    ensures Open(cells, numRows, numCols, p, d) <==> Move(p, d) in AccessibleNeighbors(cells, numRows, numCols, p)
  {
    AccessibleNeighborsMembers(cells, numRows, numCols, p);
  }

  /**
   * A turn either moves the walker to an accessible neighbour or leaves it where it is, and
   * it stays exactly when it turns around.
   */
  lemma TurnOpen(cells: Cells, numRows: int, numCols: int, p: Pos, d: WallDirection)
    requires Shaped(cells, numRows, numCols) && InBounds(numRows, numCols, p)
    ensures var r := Turn(cells, numRows, numCols, p, d);
            (r.0 == p <==> r.1 == Opposite(d)) &&
            (r.0 != p ==> r.0 in AccessibleNeighbors(cells, numRows, numCols, p))
  {
    var r := Turn(cells, numRows, numCols, p, d);
    if r.0 != p {
      OpenAccessible(cells, numRows, numCols, p, r.1);
    }
  }

  /**
   * A walker on a tile with any accessible neighbour leaves it within two turns: after
   * turning around, the side it then faces is the one side left to try.
   */
  lemma LeavesWithinTwo(cells: Cells, numRows: int, numCols: int, p: Pos, d: WallDirection)
    requires Shaped(cells, numRows, numCols) && InBounds(numRows, numCols, p)
    requires AccessibleNeighbors(cells, numRows, numCols, p) != []
    ensures var r := Turn(cells, numRows, numCols, p, d);
            r.0 != p || Turn(cells, numRows, numCols, r.0, r.1).0 != p
  {
    var r := Turn(cells, numRows, numCols, p, d);
    if r.0 == p {
      var ns := AccessibleNeighbors(cells, numRows, numCols, p);
      AccessibleNeighborsMembers(cells, numRows, numCols, p);
      assert ns[0] in ns;
      var e :| ns[0] == Move(p, e) && !HasWall(At(cells, p).walls, e);
      assert Open(cells, numRows, numCols, p, e);
      assert e == Opposite(d);
      TurnOpen(cells, numRows, numCols, p, r.1);
    }
  }

  /** The walk never leaves a tile with no accessible neighbour; `solve()` then never returns unless it is the end. */
  lemma {:induction false} WalledInSpins(cells: Cells, numRows: int, numCols: int, p: Pos, d: WallDirection, n: nat)
    requires Shaped(cells, numRows, numCols) && InBounds(numRows, numCols, p)
    requires AccessibleNeighbors(cells, numRows, numCols, p) == []
    ensures Walk(cells, numRows, numCols, p, d, n).0 == p
  {
    if n > 0 {
      WalledInSpins(cells, numRows, numCols, p, d, n - 1);
      var w := Walk(cells, numRows, numCols, p, d, n - 1);
      TurnOpen(cells, numRows, numCols, w.0, w.1);
    }
  }

  /** A trail through open walls from the walker after `n` turns back to where it started. */
  lemma {:induction false} WalkTrail(cells: Cells, numRows: int, numCols: int, p: Pos, d: WallDirection, n: nat)
    returns (w: seq<Pos>)
    requires Shaped(cells, numRows, numCols) && InBounds(numRows, numCols, p)
    ensures IsTrail(cells, numRows, numCols, w)
    ensures w[0] == Walk(cells, numRows, numCols, p, d, n).0 && w[|w| - 1] == p
  {
    if n == 0 {
      w := [p];
    } else {
      var v := WalkTrail(cells, numRows, numCols, p, d, n - 1);
      var before := Walk(cells, numRows, numCols, p, d, n - 1);
      var after := Turn(cells, numRows, numCols, before.0, before.1);
      TurnOpen(cells, numRows, numCols, before.0, before.1);
      if after.0 == before.0 {
        w := v;
      } else {
        w := [after.0] + v;
        TrailCons(cells, numRows, numCols, after.0, v);
      }
    }
  }

  /** A trail extended at its front by an accessible neighbour of its first tile is a trail. */
  lemma TrailCons(cells: Cells, numRows: int, numCols: int, x: Pos, v: seq<Pos>)
    requires IsTrail(cells, numRows, numCols, v) && InBounds(numRows, numCols, x)
    requires x in AccessibleNeighbors(cells, numRows, numCols, v[0])
    ensures IsTrail(cells, numRows, numCols, [x] + v)
  {
    var w := [x] + v;
    forall i | 0 <= i < |w| - 1
      ensures w[i] in AccessibleNeighbors(cells, numRows, numCols, w[i + 1])
    {
      if i > 0 {
        assert w[i] == v[i - 1] && w[i + 1] == v[i];
      }
    }
  }

  /** Every tile the walk marks PATH can be walked to from the tile it started on. */
  lemma PositionsReachable(cells: Cells, numRows: int, numCols: int, p: Pos, d: WallDirection, from: nat, to: nat)
    requires WellFormed(cells, numRows, numCols) && InBounds(numRows, numCols, p) && from <= to
    ensures forall q | q in Positions(cells, numRows, numCols, p, d, from, to) :: Reachable(cells, numRows, numCols, p, q)
  {
    var ps := Positions(cells, numRows, numCols, p, d, from, to);
    forall q | q in ps
      ensures Reachable(cells, numRows, numCols, p, q)
    {
      var i :| 0 <= i < |ps| && ps[i] == q;
      PositionReachable(cells, numRows, numCols, p, d, from, to, i);
    }
  }

  /** Entry `i` of the positions can be walked to from the tile the walk started on. */
  lemma PositionReachable(cells: Cells, numRows: int, numCols: int, p: Pos, d: WallDirection, from: nat, to: nat, i: nat)
    requires WellFormed(cells, numRows, numCols) && InBounds(numRows, numCols, p) && from <= to && i < to - from
    ensures Reachable(cells, numRows, numCols, p, Positions(cells, numRows, numCols, p, d, from, to)[i])
  {
    PositionsAt(cells, numRows, numCols, p, d, from, to);
    var q := Walk(cells, numRows, numCols, p, d, from + i).0;
    var w := WalkTrail(cells, numRows, numCols, p, d, from + i);
    assert Positions(cells, numRows, numCols, p, d, from, to)[i] == q == w[0];
  }

  /** Turns depend on the layout only, not on the statuses. */
  lemma SameLayoutTurn(a: Cells, b: Cells, numRows: int, numCols: int, p: Pos, d: WallDirection)
    requires SameLayout(a, b, numRows, numCols) && InBounds(numRows, numCols, p)
    ensures Turn(a, numRows, numCols, p, d) == Turn(b, numRows, numCols, p, d)
  {
    assert At(a, p).walls == At(b, p).walls;
  }

  class WallFollowerSolver {
    /** The maze being solved; its tiles' statuses are what the walker writes. */
    const maze: MazeModel
    /** The maze's grid when the walker was created; walking changes statuses only. */
    ghost const layout: Cells
    var current: Pos
    var direction: int
    /** The number of turns taken since the walker was created. */
    ghost var moves: nat

    /** The maze keeps its layout, and the walker is where `moves` turns from the start facing right lead. */
    ghost predicate Valid()
      reads this, maze
    {
      maze.Valid() && 1 <= maze.numCols && SameLayout(maze.tiles, layout, maze.numRows, maze.numCols) &&
      0 <= direction < 4 && (current, Directions[direction]) == Walk(layout, maze.numRows, maze.numCols, StartTile(), Right, moves)
    }

    /** `new WallFollowerSolver(controller)`: at the start tile, facing right (direction 1). */
    constructor (maze: MazeModel)
      requires maze.Valid() && 1 <= maze.numCols
      ensures Valid() && this.maze == maze && layout == maze.tiles
      ensures current == StartTile() && direction == 1 && moves == 0
    {
      this.maze := maze;
      layout := maze.tiles;
      current, direction, moves := StartTile(), 1, 0;
    }

    /**
     * `solve()`: until the walker stands on the end, mark its tile PATH and take a turn; then
     * mark the end PATH. The Java loop may run forever, so at most `fuel` turns are taken here;
     * `reached` tells whether the end was reached. The walk stops at the first turn that
     * stands on the end, and exactly the tiles stood on are marked.
     */
    method Solve(fuel: nat) returns (reached: bool)
      requires Valid()
      modifies this`current, this`direction, this`moves, maze
      ensures Valid()
      ensures reached <==> current == EndTile(maze.numRows, maze.numCols)
      ensures old(moves) <= moves <= old(moves) + fuel && (!reached ==> moves == old(moves) + fuel)
      ensures EndTile(maze.numRows, maze.numCols) !in Positions(layout, maze.numRows, maze.numCols, StartTile(), Right, old(moves), moves)
      ensures maze.tiles == MarkAll(old(maze.tiles), maze.numRows, maze.numCols,
                                    Positions(layout, maze.numRows, maze.numCols, StartTile(), Right, old(moves), moves) +
                                    if reached then [EndTile(maze.numRows, maze.numCols)] else [])
    {
      ghost var tiles0, moves0 := maze.tiles, moves;
      reached := Follow(fuel);
      ghost var marked := Positions(layout, maze.numRows, maze.numCols, StartTile(), Right, moves0, moves);
      if reached {
        MarkLast(tiles0, maze.numRows, maze.numCols, marked, current);
        maze.SetStatus(current, Path);
      } else {
        assert marked + [] == marked;
      }
    }

    /** The loop of `solve()`: at most `fuel` turns, each marking the tile it starts on, stopping on the end. */
    method Follow(fuel: nat) returns (reached: bool)
      requires Valid()
      modifies this`current, this`direction, this`moves, maze
      ensures Valid()
      ensures reached <==> current == EndTile(maze.numRows, maze.numCols)
      ensures old(moves) <= moves <= old(moves) + fuel && (!reached ==> moves == old(moves) + fuel)
      ensures EndTile(maze.numRows, maze.numCols) !in Positions(layout, maze.numRows, maze.numCols, StartTile(), Right, old(moves), moves)
      ensures maze.tiles == MarkAll(old(maze.tiles), maze.numRows, maze.numCols,
                                    Positions(layout, maze.numRows, maze.numCols, StartTile(), Right, old(moves), moves))
    {
      var end := EndTile(maze.numRows, maze.numCols);
      ghost var tiles0, moves0 := maze.tiles, moves;
      var steps := 0;
      while current != end && steps < fuel
        invariant Valid() && moves == moves0 + steps && steps <= fuel
        invariant end !in Positions(layout, maze.numRows, maze.numCols, StartTile(), Right, moves0, moves)
        invariant maze.tiles == MarkAll(tiles0, maze.numRows, maze.numCols,
                                        Positions(layout, maze.numRows, maze.numCols, StartTile(), Right, moves0, moves))
        decreases fuel - steps
      {
        Advance(tiles0, moves0);
        steps := steps + 1;
      }
      reached := current == end;
    }

    /** One pass of the loop body: mark the tile stood on, take a turn, and the end is still not passed. */
    method Advance(ghost tiles0: Cells, ghost moves0: nat)
      requires Valid() && moves0 <= moves && current != EndTile(maze.numRows, maze.numCols)
      requires Shaped(tiles0, maze.numRows, maze.numCols)
      requires EndTile(maze.numRows, maze.numCols) !in Positions(layout, maze.numRows, maze.numCols, StartTile(), Right, moves0, moves)
      requires maze.tiles == MarkAll(tiles0, maze.numRows, maze.numCols,
                                     Positions(layout, maze.numRows, maze.numCols, StartTile(), Right, moves0, moves))
      modifies this`current, this`direction, this`moves, maze
      ensures Valid() && moves == old(moves) + 1
      ensures EndTile(maze.numRows, maze.numCols) !in Positions(layout, maze.numRows, maze.numCols, StartTile(), Right, moves0, moves)
      ensures maze.tiles == MarkAll(tiles0, maze.numRows, maze.numCols,
                                    Positions(layout, maze.numRows, maze.numCols, StartTile(), Right, moves0, moves))
    {
      MarkLast(tiles0, maze.numRows, maze.numCols,
               Positions(layout, maze.numRows, maze.numCols, StartTile(), Right, moves0, moves), current);
      MarkAndTurn();
    }

    /** One pass of the loop of `solve()`: `current.status = PATH`, then a turn. */
    method MarkAndTurn()
      requires Valid()
      modifies this`current, this`direction, this`moves, maze
      ensures Valid() && moves == old(moves) + 1
      ensures maze.tiles == WithStatus(old(maze.tiles), old(current), Path)
    {
      ghost var before := maze.tiles;
      maze.SetStatus(current, Path);
      SameLayoutTrans(maze.tiles, before, layout, maze.numRows, maze.numCols);
      TakeTurn();
      moves := moves + 1;
    }

    /**
     * The body of the loop of `solve()` after the marking: right if `getNeighbor` finds a
     * neighbour there and `hasWallWith` it is false, else forward, else left, else turn around.
     */
    method TakeTurn()
      requires maze.Valid() && 1 <= maze.numCols && SameLayout(maze.tiles, layout, maze.numRows, maze.numCols)
      requires InBounds(maze.numRows, maze.numCols, current) && 0 <= direction < 4
      modifies this`current, this`direction
      ensures 0 <= direction < 4
      ensures (current, Directions[direction]) == Turn(layout, maze.numRows, maze.numCols, old(current), Directions[old(direction)])
    {
      DirectionNumbers(direction);
      SameLayoutTurn(maze.tiles, layout, maze.numRows, maze.numCols, current, Directions[direction]);
      var right := (direction + 1) % 4;
      NeighborOpen(maze.tiles, maze.numRows, maze.numCols, current, right);
      var rightNeighbor := Neighbor(maze.numRows, maze.numCols, current, right);
      if rightNeighbor.Some? && !HasWallWith(At(maze.tiles, current), At(maze.tiles, rightNeighbor.value)) {
        current, direction := rightNeighbor.value, right;
        return;
      }
      NeighborOpen(maze.tiles, maze.numRows, maze.numCols, current, direction);
      var forwardNeighbor := Neighbor(maze.numRows, maze.numCols, current, direction);
      if forwardNeighbor.Some? && !HasWallWith(At(maze.tiles, current), At(maze.tiles, forwardNeighbor.value)) {
        current := forwardNeighbor.value;
        return;
      }
      var left := (direction + 3) % 4;
      NeighborOpen(maze.tiles, maze.numRows, maze.numCols, current, left);
      var leftNeighbor := Neighbor(maze.numRows, maze.numCols, current, left);
      if leftNeighbor.Some? && !HasWallWith(At(maze.tiles, current), At(maze.tiles, leftNeighbor.value)) {
        current, direction := leftNeighbor.value, left;
        return;
      }
      direction := (direction + 2) % 4;
    }

    /** Every tile the walk has stood on can be walked to from the start through open walls. */
    lemma StoodOnReachable()
      requires Valid()
      ensures forall q | q in Positions(layout, maze.numRows, maze.numCols, StartTile(), Right, 0, moves) ::
                Reachable(layout, maze.numRows, maze.numCols, StartTile(), q)
      ensures Reachable(layout, maze.numRows, maze.numCols, StartTile(), current)
    {
      SameLayoutWellFormed(maze.tiles, layout, maze.numRows, maze.numCols);
      PositionsReachable(layout, maze.numRows, maze.numCols, StartTile(), Right, 0, moves);
      var w := WalkTrail(layout, maze.numRows, maze.numCols, StartTile(), Right, moves);
    }
  }
}
