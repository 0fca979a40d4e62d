/**
 * The breadth-first solver (cynaspe/src/algorithms/BreadthFirstSolver.java): one `step` at a
 * time it polls a tile from a FIFO queue and enqueues the accessible neighbours it has not
 * visited yet; once the end is polled, each further step marks one tile of the end's parent
 * chain PATH. The class keeps its own copies of the `Solver` fields, modelled by a
 * `SolverState`; the maze controller it is given is modelled by the maze itself.
 */
module BreadthFirst {
  import opened Wrappers
  import opened Enums
  import opened TileModel
  import opened Grid
  import opened Maze
  import opened Solver

  /** The tiles of `q` after its first one, which is `current`, are the others of `q`. */
  lemma PollRest(q: seq<Pos>)
    requires q != [] && Distinct(q)
    ensures Distinct(q[1..]) && forall x {:trigger x in q[1..]} :: x in q[1..] <==> x in q && x != q[0]
  {
    forall x | x in q && x != q[0]
      ensures x in q[1..]
    {
      var i :| 0 <= i < |q| && q[i] == x;
      assert q[1..][i - 1] == x;
    }
    forall x | x in q[1..]
      ensures x != q[0]
    {
      var i :| 0 <= i < |q[1..]| && q[1..][i] == x;
      assert q[i + 1] == x;
    }
    assert Distinct(q[1..]) by {
      forall i, j | 0 <= i < j < |q[1..]|
        ensures q[1..][i] != q[1..][j]
      {
        assert q[1..][i] == q[i + 1] && q[1..][j] == q[j + 1];
      }
    }
  }

  /** Polling the head of the queue and enqueueing its undiscovered neighbours keeps the frontier's properties. */
  lemma FrontierPoll(layout: Cells, numRows: int, numCols: int, visited: set<Pos>, queue: seq<Pos>,
                     found: seq<Pos>, visited': set<Pos>)
    requires Frontier(layout, numRows, numCols, visited, queue, false) && queue != []
    requires queue[0] != EndTile(numRows, numCols) && InBounds(numRows, numCols, queue[0])
    requires found == Undiscovered(AccessibleNeighbors(layout, numRows, numCols, queue[0]), visited)
    requires visited' == visited + set n | n in found
    requires forall n {:trigger OpenStep(layout, numRows, numCols, queue[0], n)} | OpenStep(layout, numRows, numCols, queue[0], n) :: n in visited'
    ensures Frontier(layout, numRows, numCols, visited', queue[1..] + found, false)
    ensures |visited'| == |visited| + |found|
  {
    PollRest(queue);
    FrontierTake(layout, numRows, numCols, visited, queue, queue[0], queue[1..], found, visited');
  }

  class BreadthFirstSolver {
    /** The maze being solved; its tiles' statuses are what the solver writes. */
    const maze: MazeModel
    /** parentMap, visited, isFinished, pathStep and pathCount. */
    const state: SolverState
    var queue: seq<Pos>

    /**
     * The fields are consistent and agree with the maze, which has kept its walls; the queue
     * is a frontier of the visited tiles; the search only ever finishes by polling the end.
     */
    ghost predicate Valid()
      reads this, maze, state
    {
      maze.Valid() && state.Valid() &&
      maze.numRows == state.numRows && maze.numCols == state.numCols &&
      SameLayout(maze.tiles, state.layout, state.numRows, state.numCols) && state.Marked(maze.tiles) &&
      Frontier(state.layout, state.numRows, state.numCols, state.visited, queue, state.isFinished) &&
      (state.isFinished ==> EndTile(state.numRows, state.numCols) in state.visited)
    }

    /** The search's progress: unvisited tiles count twice, queued tiles once. */
    ghost function SearchMeasure(): int
      reads this, state
    {
      2 * (state.numRows * state.numCols - |state.visited|) + |queue|
    }

    /**
     * The search branch of `step()` as a relation between the fields before (`queue0`,
     * `visited0`, `parents0` and the maze's tiles `tiles0`) and now. An empty queue is first
     * seeded with the start, which joins the visited tiles; then the head `current` is
     * polled. The end finishes the search and becomes `pathStep`; any other tile's
     * accessible neighbours not visited yet are marked visited and VISITED, get `current`
     * as parent and are enqueued in the order up, down, left, right.
     */
    ghost predicate Searched(queue0: seq<Pos>, visited0: set<Pos>, parents0: map<Pos, Pos>, tiles0: Cells)
      reads this, state, maze
    {
      var numRows, numCols := state.numRows, state.numCols;
      var q0 := if queue0 == [] then [StartTile()] else queue0;
      var v0 := if queue0 == [] then visited0 + {StartTile()} else visited0;
      var current := q0[0];
      state.pathCount == 0 &&
      if current == EndTile(numRows, numCols) then
        state.isFinished && state.pathStep == Some(current) && queue == q0[1..] &&
        state.visited == v0 && state.parentMap == parents0 && maze.tiles == tiles0
      else
        WellFormed(state.layout, numRows, numCols) && InBounds(numRows, numCols, current) && Shaped(tiles0, numRows, numCols) &&
        var found := Undiscovered(AccessibleNeighbors(state.layout, numRows, numCols, current), v0);
        (forall i | 0 <= i < |found| :: InBounds(numRows, numCols, found[i])) &&
        !state.isFinished && queue == q0[1..] + found &&
        state.visited == v0 + (set n | n in found) &&
        state.parentMap == parents0 + (map n | n in found :: current) &&
        maze.tiles == WithStatuses(tiles0, numRows, numCols, found, Visited)
    }

    /** `new BreadthFirstSolver(controller)`: an empty queue and the initial solver fields. */
    constructor (maze: MazeModel)
      requires maze.Valid() && 1 <= maze.numCols
      ensures Valid() && this.maze == maze && fresh(state)
      ensures state.layout == maze.tiles && state.numRows == maze.numRows && state.numCols == maze.numCols
      ensures queue == [] && state.visited == {} && state.parentMap == map[]
      ensures !state.isFinished && state.pathStep.None? && state.pathCount == 0
    {
      this.maze := maze;
      state := new SolverState(maze.numRows, maze.numCols, maze.tiles);
      queue := [];
    }

    /**
     * `step()`. While tracing, it marks the tile at `pathStep` PATH and moves to its parent,
     * returning whether the trace is over. While searching, an empty queue is first seeded
     * with the start (also added to `visited`); then the head of the queue is polled: the end
     * finishes the search, any other tile has its undiscovered accessible neighbours marked
     * visited and VISITED, given it as parent and enqueued, in the order up, down, left,
     * right. It returns true exactly when the solver is complete, and never when the end
     * cannot be reached from the start.
     */
    method Step() returns (done: bool)
      requires Valid()
      modifies this`queue, maze, state`visited, state`parentMap, state`depth, state`isFinished,
               state`pathStep, state`pathCount, state`path
      ensures Valid()
      ensures done <==> state.isFinished && state.pathStep.None?
      ensures !Reachable(state.layout, state.numRows, state.numCols, StartTile(), EndTile(state.numRows, state.numCols)) ==>
                !state.isFinished && !done
      ensures old(state.isFinished && state.pathStep.Some?) ==>
                var p := old(state.pathStep.value);
                maze.tiles == WithStatus(old(maze.tiles), p, Path) &&
                state.pathCount == old(state.pathCount) + 1 &&
                state.pathStep == (if p in state.parentMap then Some(state.parentMap[p]) else None) &&
                queue == old(queue) && state.visited == old(state.visited)
      ensures old(state.isFinished && state.pathStep.None?) ==>
                maze.tiles == old(maze.tiles) && queue == old(queue) && state.visited == old(state.visited) &&
                state.pathCount == old(state.pathCount) && state.pathStep.None?
      ensures old(!state.isFinished) ==> Searched(old(queue), old(state.visited), old(state.parentMap), old(maze.tiles))
      ensures old(!state.isFinished) && (old(queue) != [] || StartTile() !in old(state.visited)) && !state.isFinished ==>
                0 <= SearchMeasure() < old(SearchMeasure())
    {
      if state.isFinished && state.pathStep.Some? {
        done := Trace();
        FinishedReachable();
        return;
      }
      if !state.isFinished {
        done := Search();
        FinishedReachable();
        return;
      }
      FinishedReachable();
      done := true;
    }

    /**
     * The tracing branch of `step()`: `pathStep` is marked PATH and counted, and the tracing
     * moves to its parent; it reports whether the trace is over.
     */
    method Trace() returns (done: bool)
      requires Valid() && state.isFinished && state.pathStep.Some?
      modifies maze, state`pathCount, state`pathStep, state`path
      ensures Valid()
      ensures done <==> state.pathStep.None?
      ensures var p := old(state.pathStep.value);
              maze.tiles == WithStatus(old(maze.tiles), p, Path) &&
              state.pathCount == old(state.pathCount) + 1 &&
              state.pathStep == (if p in state.parentMap then Some(state.parentMap[p]) else None)
    {
      done := state.TraceStep(maze);
    }

    /**
     * The search branch of `step()`: an empty queue is seeded with the start, then the head
     * of the queue is polled. The queue is never empty after seeding, so the lines that
     * would give up for want of tiles are never reached.
     */
    method Search() returns (done: bool)
      requires Valid() && !state.isFinished
      modifies this`queue, maze, state`visited, state`parentMap, state`depth, state`isFinished, state`pathStep
      ensures Valid() && !done
      ensures Searched(old(queue), old(state.visited), old(state.parentMap), old(maze.tiles))
      ensures !state.isFinished && (old(queue) != [] || StartTile() !in old(state.visited)) ==>
                0 <= SearchMeasure() < old(SearchMeasure())
    {
      if queue == [] {
        Seed();
      }
      if queue != [] {
        Poll();
        return false;
      }
      assert false;
      done := true;
    }

    /** `queue.add(start)` and `visited.add(start)` when the queue has run dry. */
    method Seed()
      requires Valid() && !state.isFinished && queue == []
      modifies this`queue, state`visited, state`depth
      ensures Valid()
      ensures queue == [StartTile()] && state.visited == old(state.visited) + {StartTile()}
      ensures StartTile() !in old(state.visited) ==> SearchMeasure() == old(SearchMeasure()) - 1
    {
      state.AddStart();
      queue := [StartTile()];
    }

    /**
     * `current = queue.poll()`: the end finishes the search; any other tile's undiscovered
     * accessible neighbours are recorded and enqueued behind the rest of the queue.
     */
    method Poll()
      requires Valid() && !state.isFinished && queue != []
      modifies this`queue, maze, state`visited, state`parentMap, state`depth, state`isFinished, state`pathStep
      ensures Valid()
      ensures Searched(old(queue), old(state.visited), old(state.parentMap), old(maze.tiles))
      ensures !state.isFinished ==> 0 <= SearchMeasure() < old(SearchMeasure())
    {
      var current := queue[0];
      queue := queue[1..];
      if current == EndTile(maze.numRows, maze.numCols) {
        state.Finish();
        return;
      }
      assert current in state.visited;
      ghost var visited0 := state.visited;
      ghost var queue0 := old(queue);
      var found := state.Discover(maze, current);
      queue := queue + found;
      FrontierPoll(state.layout, state.numRows, state.numCols, visited0, queue0, found, state.visited);
      InsideCount(state.numRows, state.numCols, state.visited);
    }

    /** A finished search has visited the end, so the end can be walked to from the start. */
    lemma FinishedReachable()
      requires Valid()
      ensures state.isFinished ==>
                Reachable(state.layout, state.numRows, state.numCols, StartTile(), EndTile(state.numRows, state.numCols))
    {
      if state.isFinished {
        state.VisitedReachable(EndTile(state.numRows, state.numCols));
      }
    }

    /**
     * Once the start is in, the queue is never empty during the search when the end can be
     * reached; with `SearchMeasure` falling at every such step, the search then ends.
     */
    lemma NoReseedWhenReachable()
      requires Valid() && !state.isFinished && StartTile() in state.visited
      requires Reachable(state.layout, state.numRows, state.numCols, StartTile(), EndTile(state.numRows, state.numCols))
      ensures queue != []
    {
      if queue == [] {
        Exhausted(state.layout, state.numRows, state.numCols, state.visited);
      }
    }

    /** `getVisitedCount()`: the size of `visited`, at most the number of tiles. */
    method GetVisitedCount() returns (count: int)
      requires Valid()
      ensures count == |state.visited| && count <= state.numRows * state.numCols
    {
      count := |state.visited|;
      InsideCount(state.numRows, state.numCols, state.visited);
    }

    /**
     * `getPathCount()`: the tiles marked PATH so far; once complete, the number of tiles on
     * the end's chain of parents, end and start included.
     */
    method GetPathCount() returns (count: int)
      requires Valid()
      ensures count == |state.path|
      ensures state.isFinished && state.pathStep.None? ==>
                count == |Chain(state.parentMap, state.depth, EndTile(state.numRows, state.numCols))|
    {
      count := state.pathCount;
      if state.isFinished && state.pathStep.None? {
        state.TracedPath(maze.tiles);
      }
    }

    /**
     * `isComplete()`: finished with nothing left to trace; the tiles then marked PATH are a
     * trail through open walls from the end back to the start.
     */
    method IsComplete() returns (r: bool)
      requires Valid()
      ensures r <==> state.isFinished && state.pathStep.None?
      ensures r ==> state.path[0] == EndTile(state.numRows, state.numCols) && state.path[|state.path| - 1] == StartTile() &&
                    IsTrail(state.layout, state.numRows, state.numCols, state.path) &&
                    forall i | 0 <= i < |state.path| :: At(maze.tiles, state.path[i]).status == Path
    {
      r := state.isFinished && state.pathStep.None?;
      if r {
        state.TracedPath(maze.tiles);
      }
    }
  }
}
