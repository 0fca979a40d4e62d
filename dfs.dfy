/**
 * The depth-first solver (cynaspe/src/algorithms/RecursiveMazeSolver.java): despite its name
 * it keeps an explicit LIFO stack, seeded with the start when the solver is built. One `step`
 * at a time it pops the top of the stack and pushes the accessible neighbours it has not
 * visited yet; a stack that runs dry gives the search up, and once the end is popped each
 * further step marks one tile of the end's parent chain PATH. The class keeps its own copies
 * of the `Solver` fields, modelled by a `SolverState`; the maze controller it is given is
 * modelled by the maze itself. The stack is a sequence whose last element is its top.
 */
module DepthFirst {
  import opened Wrappers
  import opened Enums
  import opened TileModel
  import opened Grid
  import opened Maze
  import opened Solver

  /** The tiles of `s` below its top, which is `current`, are the others of `s`. */
  lemma PopRest(s: seq<Pos>)
    requires s != [] && Distinct(s)
    ensures Distinct(s[..|s| - 1])
    ensures forall x {:trigger x in s[..|s| - 1]} :: x in s[..|s| - 1] <==> x in s && x != s[|s| - 1]
  {
    var below := s[..|s| - 1];
    forall x | x in s && x != s[|s| - 1]
      ensures x in below
    {
      var i :| 0 <= i < |s| && s[i] == x;
      assert below[i] == x;
    }
    forall x | x in below
      ensures x != s[|s| - 1]
    {
      var i :| 0 <= i < |below| && below[i] == x;
      assert s[i] == x;
    }
  }

  /** Popping the top of the stack and pushing its undiscovered neighbours keeps the frontier's properties. */
  lemma FrontierPop(layout: Cells, numRows: int, numCols: int, visited: set<Pos>, stack: seq<Pos>,
                    found: seq<Pos>, visited': set<Pos>)
    requires Frontier(layout, numRows, numCols, visited, stack, false) && stack != []
    requires stack[|stack| - 1] != EndTile(numRows, numCols) && InBounds(numRows, numCols, stack[|stack| - 1])
    requires found == Undiscovered(AccessibleNeighbors(layout, numRows, numCols, stack[|stack| - 1]), visited)
    requires visited' == visited + set n | n in found
    requires forall n {:trigger OpenStep(layout, numRows, numCols, stack[|stack| - 1], n)} |
               OpenStep(layout, numRows, numCols, stack[|stack| - 1], n) :: n in visited'
    ensures Frontier(layout, numRows, numCols, visited', stack[..|stack| - 1] + found, false)
    ensures |visited'| == |visited| + |found|
  {
    PopRest(stack);
    FrontierTake(layout, numRows, numCols, visited, stack, stack[|stack| - 1], stack[..|stack| - 1], found, visited');
  }

  class DepthFirstSolver {
    /** The maze being solved; its tiles' statuses are what the solver writes. */
    const maze: MazeModel
    /** parentMap, visited, isFinished, pathStep and pathCount. */
    const state: SolverState
    var stack: seq<Pos>

    /**
     * The fields are consistent and agree with the maze, which has kept its walls; the stack
     * is a frontier of the visited tiles, which include the start; a search that finished
     * without visiting the end did so because the end cannot be reached.
     */
    ghost predicate Valid()
      reads this, maze, state
    {
      maze.Valid() && state.Valid() &&
      maze.numRows == state.numRows && maze.numCols == state.numCols &&
      SameLayout(maze.tiles, state.layout, state.numRows, state.numCols) && state.Marked(maze.tiles) &&
      Frontier(state.layout, state.numRows, state.numCols, state.visited, stack, state.isFinished) &&
      StartTile() in state.visited &&
      (state.isFinished && EndTile(state.numRows, state.numCols) !in state.visited ==>
         stack == [] && !Reachable(state.layout, state.numRows, state.numCols, StartTile(), EndTile(state.numRows, state.numCols)))
    }

    /**
     * The search's progress: unvisited tiles plus stacked tiles. Each tile is pushed once,
     * when it is visited, so this starts at R·C and bounds the number of pops.
     */
    ghost function SearchMeasure(): int
      reads this, state
    {
      state.numRows * state.numCols - |state.visited| + |stack|
    }

    /**
     * The search branch of `step()` as a relation between the fields before (`stack0`,
     * `visited0`, `parents0` and the maze's tiles `tiles0`) and now, when the stack was not
     * empty: its top `current` is popped; the end
     * finishes the search and becomes `pathStep`; any other tile's accessible neighbours not
     * visited yet are marked visited and VISITED, get `current` as parent and are pushed in
     * the order up, down, left, right, so that the right one is on top.
     */
    ghost predicate Popped(stack0: seq<Pos>, visited0: set<Pos>, parents0: map<Pos, Pos>, tiles0: Cells)
      reads this, state, maze
    {
      var numRows, numCols := state.numRows, state.numCols;
      state.pathCount == 0 &&
      stack0 != [] &&
        var current := stack0[|stack0| - 1];
        if current == EndTile(numRows, numCols) then
          state.isFinished && state.pathStep == Some(current) && stack == stack0[..|stack0| - 1] &&
          state.visited == visited0 && state.parentMap == parents0 && maze.tiles == tiles0
        else
          WellFormed(state.layout, numRows, numCols) && InBounds(numRows, numCols, current) && Shaped(tiles0, numRows, numCols) &&
          var found := Undiscovered(AccessibleNeighbors(state.layout, numRows, numCols, current), visited0);
          (forall i | 0 <= i < |found| :: InBounds(numRows, numCols, found[i])) &&
          !state.isFinished && stack == stack0[..|stack0| - 1] + found &&
          state.visited == visited0 + (set n | n in found) &&
          state.parentMap == parents0 + (map n | n in found :: current) &&
          maze.tiles == WithStatuses(tiles0, numRows, numCols, found, Visited)
    }

    /** `new RecursiveMazeSolver(controller)`: the start is pushed and visited. */
    constructor (maze: MazeModel)
      requires maze.Valid() && 1 <= maze.numCols
      ensures Valid() && this.maze == maze && fresh(state)
      ensures state.layout == maze.tiles && state.numRows == maze.numRows && state.numCols == maze.numCols
      ensures stack == [StartTile()] && state.visited == {StartTile()} && state.parentMap == map[]
      ensures !state.isFinished && state.pathStep.None? && state.pathCount == 0
      ensures SearchMeasure() == state.numRows * state.numCols
    {
      this.maze := maze;
      state := new SolverState(maze.numRows, maze.numCols, maze.tiles);
      stack := [StartTile()];
      new;
      state.AddStart();
    }

    /**
     * `step()`. While tracing, it marks the tile at `pathStep` PATH and moves to its parent,
     * returning whether the trace is over. While searching, an empty stack finishes the
     * search with nothing to trace and returns true; otherwise the top of the stack is
     * popped: the end finishes the search, any other tile has its undiscovered accessible
     * neighbours marked visited and VISITED, given it as parent and pushed, in the order up,
     * down, left, right. It returns true exactly when the solver is complete.
     */
    method Step() returns (done: bool)
      requires Valid()
      modifies this`stack, maze, state`visited, state`parentMap, state`depth, state`isFinished,
               state`pathStep, state`pathCount, state`path
      ensures Valid()
      ensures done <==> state.isFinished && state.pathStep.None?
      ensures old(state.isFinished && state.pathStep.Some?) ==>
                var p := old(state.pathStep.value);
                maze.tiles == WithStatus(old(maze.tiles), p, Path) &&
                state.pathCount == old(state.pathCount) + 1 &&
                state.pathStep == (if p in state.parentMap then Some(state.parentMap[p]) else None) &&
                stack == old(stack) && state.visited == old(state.visited)
      ensures old(state.isFinished && state.pathStep.None?) ==>
                maze.tiles == old(maze.tiles) && stack == old(stack) && state.visited == old(state.visited) &&
                state.pathCount == old(state.pathCount) && state.pathStep.None?
      ensures old(!state.isFinished) && old(stack) == [] ==>
                state.isFinished && state.pathStep.None? && stack == [] && state.visited == old(state.visited) &&
                maze.tiles == old(maze.tiles) && state.pathCount == 0
      ensures old(!state.isFinished) && old(stack) != [] ==>
                Popped(old(stack), old(state.visited), old(state.parentMap), old(maze.tiles))
      ensures old(!state.isFinished) && !state.isFinished ==> 0 <= SearchMeasure() < old(SearchMeasure())
    {
      if state.isFinished && state.pathStep.Some? {
        done := Trace();
        return;
      }
      if !state.isFinished {
        done := Search();
        return;
      }
      done := true;
    }

    /**
     * The tracing branch of `step()`: `pathStep` is marked PATH and counted, and the tracing
     * moves to its parent; it reports whether the trace is over.
     */
    method Trace() returns (done: bool)
      requires Valid() && state.isFinished && state.pathStep.Some?
      modifies maze, state`pathCount, state`pathStep, state`path
      ensures Valid()
      ensures done <==> state.pathStep.None?
      ensures var p := old(state.pathStep.value);
              maze.tiles == WithStatus(old(maze.tiles), p, Path) &&
              state.pathCount == old(state.pathCount) + 1 &&
              state.pathStep == (if p in state.parentMap then Some(state.parentMap[p]) else None)
    {
      done := state.TraceStep(maze);
    }

    /**
     * The search branch of `step()`: the top of a non-empty stack is popped; an empty stack
     * means every tile reachable from the start was visited without meeting the end, and
     * the search is given up.
     */
    method Search() returns (done: bool)
      requires Valid() && !state.isFinished
      modifies this`stack, maze, state`visited, state`parentMap, state`depth, state`isFinished, state`pathStep
      ensures Valid()
      ensures done <==> old(stack) == []
      ensures old(stack) == [] ==>
                state.isFinished && state.pathStep.None? && stack == [] && state.visited == old(state.visited) &&
                maze.tiles == old(maze.tiles) && state.pathCount == 0
      ensures old(stack) != [] ==> Popped(old(stack), old(state.visited), old(state.parentMap), old(maze.tiles))
      ensures !state.isFinished ==> 0 <= SearchMeasure() < old(SearchMeasure())
    {
      if stack != [] {
        Pop();
        return false;
      }
      Exhausted(state.layout, state.numRows, state.numCols, state.visited);
      state.GiveUp();
      done := true;
    }

    /**
     * `current = stack.pop()`: the end finishes the search; any other tile's undiscovered
     * accessible neighbours are recorded and pushed on the rest of the stack.
     */
    method Pop()
      requires Valid() && !state.isFinished && stack != []
      modifies this`stack, maze, state`visited, state`parentMap, state`depth, state`isFinished, state`pathStep
      ensures Valid()
      ensures Popped(old(stack), old(state.visited), old(state.parentMap), old(maze.tiles))
      ensures !state.isFinished ==> 0 <= SearchMeasure() < old(SearchMeasure())
    {
      if stack[|stack| - 1] == EndTile(maze.numRows, maze.numCols) {
        stack := stack[..|stack| - 1];
        state.Finish();
        return;
      }
      Expand();
    }

    /**
     * The top of the stack, not the end, is popped; its accessible neighbours not visited yet
     * are marked visited and VISITED, get it as parent and are pushed in the order up, down,
     * left, right.
     */
    method Expand()
      requires Valid() && !state.isFinished && stack != [] && stack[|stack| - 1] != EndTile(state.numRows, state.numCols)
      modifies this`stack, maze, state`visited, state`parentMap, state`depth
      ensures Valid() && !state.isFinished && state.pathCount == 0
      ensures var current := old(stack[|stack| - 1]);
              WellFormed(state.layout, state.numRows, state.numCols) && InBounds(state.numRows, state.numCols, current) &&
              Shaped(old(maze.tiles), state.numRows, state.numCols) &&
              var found := Undiscovered(AccessibleNeighbors(state.layout, state.numRows, state.numCols, current), old(state.visited));
              (forall i | 0 <= i < |found| :: InBounds(state.numRows, state.numCols, found[i])) &&
              stack == old(stack[..|stack| - 1]) + found &&
              state.visited == old(state.visited) + (set n | n in found) &&
              state.parentMap == old(state.parentMap) + (map n | n in found :: current) &&
              maze.tiles == WithStatuses(old(maze.tiles), state.numRows, state.numCols, found, Visited)
      ensures 0 <= SearchMeasure() < old(SearchMeasure())
    {
      var current := stack[|stack| - 1];
      ghost var stack0 := stack;
      ghost var visited0 := state.visited;
      stack := stack[..|stack| - 1];
      assert current in state.visited;
      var found := state.Discover(maze, current);
      stack := stack + found;
      FrontierPop(state.layout, state.numRows, state.numCols, visited0, stack0, found, state.visited);
      InsideCount(state.numRows, state.numCols, state.visited);
    }

    /** A finished search has visited the end exactly when the end can be walked to from the start. */
    lemma FinishedDecides()
      requires Valid() && state.isFinished
      ensures EndTile(state.numRows, state.numCols) in state.visited <==>
                Reachable(state.layout, state.numRows, state.numCols, StartTile(), EndTile(state.numRows, state.numCols))
    {
      if EndTile(state.numRows, state.numCols) in state.visited {
        state.VisitedReachable(EndTile(state.numRows, state.numCols));
      }
    }

    /** `getVisitedCount()`: the size of `visited`, which holds the start and lies inside the maze. */
    method GetVisitedCount() returns (count: int)
      requires Valid()
      ensures count == |state.visited| && 1 <= count <= state.numRows * state.numCols
    {
      count := |state.visited|;
      InsideCount(state.numRows, state.numCols, state.visited);
    }

    /**
     * `getPathCount()`: the tiles marked PATH so far; once complete, the number of tiles on
     * the end's chain of parents, end and start included, or none when the end was not found.
     */
    method GetPathCount() returns (count: int)
      requires Valid()
      ensures count == |state.path|
      ensures state.isFinished && state.pathStep.None? ==>
                if EndTile(state.numRows, state.numCols) in state.visited
                then count == |Chain(state.parentMap, state.depth, EndTile(state.numRows, state.numCols))|
                else count == 0
    {
      count := state.pathCount;
      if state.isFinished && state.pathStep.None? && EndTile(state.numRows, state.numCols) in state.visited {
        state.TracedPath(maze.tiles);
      }
    }

    /**
     * `isComplete()`: finished with nothing left to trace. That includes a search given up
     * for want of tiles, when the end cannot be reached and no tile is marked PATH; when it
     * can, the tiles marked PATH are a trail through open walls from the end back to the start.
     */
    method IsComplete() returns (r: bool)
      requires Valid()
      ensures r <==> state.isFinished && state.pathStep.None?
      ensures r && !Reachable(state.layout, state.numRows, state.numCols, StartTile(), EndTile(state.numRows, state.numCols)) ==>
                state.path == []
      ensures r && Reachable(state.layout, state.numRows, state.numCols, StartTile(), EndTile(state.numRows, state.numCols)) ==>
                state.path[0] == EndTile(state.numRows, state.numCols) && state.path[|state.path| - 1] == StartTile() &&
                IsTrail(state.layout, state.numRows, state.numCols, state.path) &&
                forall i | 0 <= i < |state.path| :: At(maze.tiles, state.path[i]).status == Path
    {
      r := state.isFinished && state.pathStep.None?;
      if r {
        FinishedDecides();
        if EndTile(state.numRows, state.numCols) in state.visited {
          state.TracedPath(maze.tiles);
        }
      }
    }
  }
}
