/**
 * The class of the Dijkstra solver (cynaspe/src/algorithms/DjikstraSolver.java), over the
 * values and lemmas of `DijkstraSearch`.
 */
module Dijkstra {
  import opened Wrappers
  import opened Enums
  import opened TileModel
  import opened Grid
  import opened Maze
  import opened Solver
  import opened DijkstraSearch
  import opened JavaInt

  class DijkstraSolver {
    /** The maze being solved; its tiles' statuses are what the solver writes. */
    const maze: MazeModel
    /** The maze's grid when the search began; solving changes statuses only. */
    ghost const layout: Cells
    var distance: map<Pos, int>
    var previous: map<Pos, Pos>
    var visited: set<Pos>
    var queue: seq<Pos>
    var isFinished: bool
    var pathStep: Option<Pos>
    var pathTracing: bool
    var pathCount: int
    /** The tiles at a finite distance. */
    ghost var seen: set<Pos>
    /** The tiles marked PATH by the tracing, in the order it marked them. */
    ghost var traced: seq<Pos>

    /**
     * The maze is well formed, `pathCount` stays 0, and the fields and the maze's tiles are
     * `Kept`, with the tiles of `pending` still to expand.
     */
    ghost predicate Invariant(pending: set<Pos>)
      reads this, maze
    {
      maze.Valid() && pathCount == 0 &&
      Kept(layout, maze.numRows, maze.numCols, maze.tiles, distance, previous, visited, seen, queue, pending,
           isFinished, pathTracing, pathStep, traced)
    }

    /** The invariant with every visited tile expanded. */
    ghost predicate Valid()
      reads this, maze
    {
      Invariant({})
    }

    /** Every queued tile has a distance, as `Lightest` needs. */
    lemma QueueInDistance()
      requires Valid()
      ensures forall j | 0 <= j < |queue| :: queue[j] in distance
    {
    }

    /**
     * `new DjikstraSolver(controller)`: every tile at distance MAX_VALUE but the start at 0,
     * the start alone in the queue, nothing visited and no parent links.
     */
    constructor (maze: MazeModel)
      requires maze.Valid() && 1 <= maze.numCols && maze.numRows * maze.numCols < IntMax
      ensures Valid() && this.maze == maze && layout == maze.tiles
      ensures forall p {:trigger p in distance} :: p in distance <==> InBounds(maze.numRows, maze.numCols, p)
      ensures forall p | p in distance :: distance[p] == if p == StartTile() then 0 else IntMax
      ensures queue == [StartTile()] && previous == map[] && visited == {}
      ensures !isFinished && !pathTracing && pathStep.None? && pathCount == 0
    {
      this.maze := maze;
      layout := maze.tiles;
      var unreached := Unreached(maze.numRows, maze.numCols);
      distance := unreached[StartTile() := 0];
      previous, visited, queue := map[], {}, [StartTile()];
      isFinished, pathStep, pathTracing, pathCount := false, None, false, 0;
      seen, traced := {StartTile()}, [];
      new;
      StartConsistent(layout, maze.numRows, maze.numCols, distance);
    }

    /**
     * `step()`. While searching, a non-empty queue is polled and an empty one starts the
     * tracing at the end. While tracing, a tile with a `previous` is marked PATH and the
     * tracing moves on; a tile without one ends the tracing, marking it PATH only if it is
     * the start. It returns true exactly when the solver is complete; the search only
     * lowers distances, and each search step visits a new tile or shortens the queue.
     */
    method Step() returns (done: bool)
      requires Valid()
      modifies this, maze
      ensures Valid()
      ensures done <==> isFinished && !pathTracing && pathStep.None?
      ensures old(!isFinished) && old(queue) != [] ==>
                Polled(layout, maze.numRows, maze.numCols, old(queue), old(visited), old(distance), old(previous), old(maze.tiles),
                       queue, visited, distance, previous, maze.tiles, isFinished, pathTracing, pathStep)
      ensures old(!isFinished) && old(queue) == [] ==>
                isFinished && pathTracing && pathStep == Some(EndTile(maze.numRows, maze.numCols)) &&
                queue == [] && visited == old(visited) && distance == old(distance) && previous == old(previous) &&
                maze.tiles == old(maze.tiles)
      ensures old(isFinished && pathTracing) ==>
                visited == old(visited) && distance == old(distance) && previous == old(previous) &&
                Traced(old(pathStep.value), old(maze.tiles), previous, maze.tiles, pathTracing, pathStep)
      ensures old(isFinished && !pathTracing) ==>
                maze.tiles == old(maze.tiles) && visited == old(visited) && pathStep.None?
      ensures forall p | p in old(distance) :: p in distance && distance[p] <= old(distance[p])
      ensures old(!isFinished) && !isFinished ==>
                old(|visited|) < |visited| || (visited == old(visited) && |queue| < old(|queue|))
    {
      if !isFinished {
        Search();
        return false;
      }
      if pathTracing {
        done := Trace();
        return;
      }
      done := true;
    }

    /** The search branch of `step()`: a poll, or the start of the tracing once the queue is empty. */
    method Search()
      requires Valid() && !isFinished
      modifies this`queue, this`visited, this`distance, this`previous, this`seen,
               this`isFinished, this`pathTracing, this`pathStep, maze
      ensures Valid() && (isFinished ==> pathTracing)
      ensures old(queue) != [] ==> Polled(layout, maze.numRows, maze.numCols, old(queue), old(visited), old(distance), old(previous), old(maze.tiles),
                       queue, visited, distance, previous, maze.tiles, isFinished, pathTracing, pathStep)
      ensures old(queue) == [] ==>
                isFinished && pathTracing && pathStep == Some(EndTile(maze.numRows, maze.numCols)) &&
                queue == [] && visited == old(visited) && distance == old(distance) && previous == old(previous) &&
                maze.tiles == old(maze.tiles)
      ensures forall p | p in old(distance) :: p in distance && distance[p] <= old(distance[p])
      ensures !isFinished ==> old(|visited|) < |visited| || (visited == old(visited) && |queue| < old(|queue|))
    {
      if queue != [] {
        Poll();
        return;
      }
      Exhaust();
    }

    /** `current = queue.poll()`, then the skip, or the visit. */
    method Poll()
      requires Valid() && !isFinished && queue != []
      modifies this`queue, this`visited, this`distance, this`previous, this`seen,
               this`isFinished, this`pathTracing, this`pathStep, maze
      ensures Valid() && (isFinished ==> pathTracing)
      ensures Polled(layout, maze.numRows, maze.numCols, old(queue), old(visited), old(distance), old(previous), old(maze.tiles),
                       queue, visited, distance, previous, maze.tiles, isFinished, pathTracing, pathStep)
      ensures forall p | p in old(distance) :: p in distance && distance[p] <= old(distance[p])
      ensures !isFinished ==> old(|visited|) < |visited| || (visited == old(visited) && |queue| < old(|queue|))
    {
      QueueInDistance();
      var i := LightestIndex(queue, distance);
      if queue[i] in visited {
        Skip(i);
        return;
      }
      Visit(i);
    }

    /** A polled tile not visited yet is visited; the end starts the tracing, any other tile is relaxed. */
    method Visit(i: int)
      requires Valid() && !isFinished && queue != [] && (forall j | 0 <= j < |queue| :: queue[j] in distance)
      requires i == Lightest(queue, distance) && queue[i] !in visited
      modifies this`queue, this`visited, this`distance, this`previous, this`seen,
               this`isFinished, this`pathTracing, this`pathStep, maze
      ensures Valid() && (isFinished ==> pathTracing) && old(|visited|) < |visited|
      ensures Polled(layout, maze.numRows, maze.numCols, old(queue), old(visited), old(distance), old(previous), old(maze.tiles),
                     queue, visited, distance, previous, maze.tiles, isFinished, pathTracing, pathStep)
      ensures forall p | p in old(distance) :: p in distance && distance[p] <= old(distance[p])
    {
      ghost var queue0, visited0, distance0, previous0, tiles0 := queue, visited, distance, previous, maze.tiles;
      var current := Take(i);
      if current == EndTile(maze.numRows, maze.numCols) {
        Finish();
        return;
      }
      ghost var rest, alt := queue, distance[current] + 1;
      Relax(current);
      ghost var pushed := Improvable(AccessibleNeighbors(layout, maze.numRows, maze.numCols, current), visited, distance0, alt);
      RelaxedPolled(layout, maze.numRows, maze.numCols, queue0, visited0, distance0, previous0, tiles0,
                    queue, visited, distance, previous, maze.tiles, i, alt, pushed);
    }

    /** `if (visited.contains(current)) return false;`: the polled entry is dropped. */
    method Skip(i: int)
      requires Valid() && !isFinished && 0 <= i < |queue| && queue[i] in visited
      modifies this`queue
      ensures Valid() && queue == old(queue[..i] + queue[i + 1..]) && |queue| < old(|queue|)
    {
      SkipConsistent(layout, maze.numRows, maze.numCols, distance, previous, visited, seen, queue, i);
      queue := queue[..i] + queue[i + 1..];
    }

    /** The polled tile is new: `visited.add(current)` and `current.status = VISITED`. */
    method Take(i: int) returns (current: Pos)
      requires Valid() && !isFinished && 0 <= i < |queue| && queue[i] !in visited
      modifies this`queue, this`visited, maze
      ensures Invariant({current}) && !isFinished && current == old(queue[i])
      ensures queue == old(queue[..i] + queue[i + 1..]) && visited == old(visited) + {current}
      ensures |visited| == old(|visited|) + 1
      ensures InBounds(maze.numRows, maze.numCols, current) && distance[current] < |visited|
      ensures maze.tiles == WithStatus(old(maze.tiles), current, Visited)
    {
      current := queue[i];
      TakeKept(layout, maze.numRows, maze.numCols, maze.tiles, distance, previous, visited, seen, queue, i);
      queue, visited := queue[..i] + queue[i + 1..], visited + {current};
      maze.SetStatus(current, Visited);
    }

    /** The end was polled: `isFinished`, `pathTracing` and `pathStep = current`. */
    method Finish()
      requires Invariant({EndTile(maze.numRows, maze.numCols)}) && !isFinished
      requires EndTile(maze.numRows, maze.numCols) in visited
      modifies this`isFinished, this`pathTracing, this`pathStep
      ensures Valid() && isFinished && pathTracing && pathStep == Some(EndTile(maze.numRows, maze.numCols))
    {
      FinishConsistent(layout, maze.numRows, maze.numCols, distance, previous, visited, seen, queue);
      isFinished, pathTracing, pathStep := true, true, Some(EndTile(maze.numRows, maze.numCols));
    }

    /**
     * The loop over the accessible neighbours of the tile just visited: each one not visited
     * whose distance exceeds `alt = distance(current) + 1` gets distance `alt`, `current` as
     * `previous`, and is queued.
     */
    method Relax(current: Pos)
      requires Invariant({current}) && !isFinished && current in visited && current != EndTile(maze.numRows, maze.numCols)
      requires InBounds(maze.numRows, maze.numCols, current) && distance[current] < |visited|
      modifies this`distance, this`previous, this`queue, this`seen
      ensures Valid()
      ensures var alt := old(distance[current]) + 1;
              var pushed := Improvable(AccessibleNeighbors(layout, maze.numRows, maze.numCols, current), visited, old(distance), alt);
              queue == old(queue) + pushed &&
              distance == PutAll(old(distance), pushed, alt) && previous == PutAll(old(previous), pushed, current)
      ensures forall p | p in old(distance) :: p in distance && distance[p] <= old(distance[p])
    {
      ghost var distance0, previous0, visited0, seen0, queue0 := distance, previous, visited, seen, queue;
      ghost var alt := distance[current] + 1;
      var numRows, numCols := maze.numRows, maze.numCols;
      var ns := maze.GetAccessibleNeighbors(current);
      SameLayoutNeighbors(maze.tiles, layout, numRows, numCols, current);
      assert Distinct(ns) && forall q | q in ns :: q in distance by {
        AccessibleNeighborsMembers(layout, numRows, numCols, current);
        AccessibleNeighborsDistinct(layout, numRows, numCols, current);
      }
      ghost var pushed := RelaxAll(current, ns, alt);
      RelaxKept(layout, numRows, numCols, maze.tiles, distance0, previous0, visited0, seen0, queue0, current, alt, pushed);
    }

    /**
     * The loop itself: for each neighbour `n` in `ns` not visited, `alt = distance(current) + 1`;
     * when `alt < distance(n)`, `n` gets distance `alt` and previous `current` and is queued.
     * `pushed` lists the neighbours lowered, in order.
     */
    method RelaxAll(current: Pos, ns: seq<Pos>, ghost alt0: int) returns (ghost pushed: seq<Pos>)
      requires current in visited && current in distance && alt0 == distance[current] + 1 && Distinct(ns)
      requires forall q | q in ns :: q in distance
      modifies this`distance, this`previous, this`queue, this`seen
      ensures pushed == Improvable(ns, visited, old(distance), alt0)
      ensures queue == old(queue) + pushed && seen == old(seen) + Members(pushed)
      ensures distance == PutAll(old(distance), pushed, alt0)
      ensures previous == PutAll(old(previous), pushed, current)
    {
      ghost var distance0, previous0, queue0, seen0 := distance, previous, queue, seen;
      pushed := [];
      for i := 0 to |ns|
        invariant pushed == Improvable(ns[..i], visited, distance0, alt0)
        invariant queue == queue0 + pushed && seen == seen0 + Members(pushed)
        invariant distance == PutAll(distance0, pushed, alt0) && previous == PutAll(previous0, pushed, current)
      {
        var n := ns[i];
        ImprovableNext(ns, i, visited, distance0, alt0, pushed);
        if n in visited {
          continue;
        }
        Untouched(distance0, pushed, alt0, ns, i, visited, current, distance);
        var alt := distance[current] + 1;
        assert alt == alt0;
        if alt < distance[n] {
          PushOne(distance0, previous0, queue0, seen0, pushed, n, alt0, current, distance, previous, queue, seen);
          distance, previous, queue, seen := distance[n := alt], previous[n := current], queue + [n], seen + {n};
          pushed := pushed + [n];
        }
        assert pushed == Improvable(ns[..i + 1], visited, distance0, alt0);
      }
      assert ns[..|ns|] == ns;
    }

    /**
     * The queue ran out during the search: `isFinished`, `pathTracing` and `pathStep = end`,
     * although the end, never reached, cannot be walked to from the start.
     */
    method Exhaust()
      requires Valid() && !isFinished && queue == []
      modifies this`isFinished, this`pathTracing, this`pathStep
      ensures Valid() && isFinished && pathTracing && pathStep == Some(EndTile(maze.numRows, maze.numCols))
      ensures EndTile(maze.numRows, maze.numCols) !in visited && EndTile(maze.numRows, maze.numCols) !in previous
      ensures !Reachable(layout, maze.numRows, maze.numCols, StartTile(), EndTile(maze.numRows, maze.numCols))
    {
      ExhaustConsistent(layout, maze.numRows, maze.numCols, distance, previous, visited, seen);
      isFinished, pathTracing, pathStep := true, true, Some(EndTile(maze.numRows, maze.numCols));
    }

    /** The tracing branch of `step()`; it returns true when the tracing stops. */
    method Trace() returns (done: bool)
      requires Valid() && isFinished && pathTracing
      modifies maze, this`pathStep, this`pathTracing, this`traced
      ensures Valid() && previous == old(previous)
      ensures Traced(old(pathStep.value), old(maze.tiles), previous, maze.tiles, pathTracing, pathStep) && (done <==> !pathTracing)
    {
      var p := pathStep.value;
      if p in previous {
        Advance(p);
        return false;
      }
      Stop(p);
      return true;
    }

    /** `pathStep.status = PATH` and `pathStep = previous.get(pathStep)`. */
    method Advance(p: Pos)
      requires Valid() && isFinished && pathTracing && pathStep == Some(p) && p in previous
      modifies maze, this`pathStep, this`traced
      ensures Valid() && 0 <= p.row < |old(maze.tiles)| && 0 <= p.column < |old(maze.tiles)[p.row]|
      ensures maze.tiles == WithStatus(old(maze.tiles), p, Path) && pathStep == Some(previous[p])
    {
      ghost var tiles0, traced0 := maze.tiles, traced;
      maze.SetStatus(p, Path);
      pathStep, traced := Some(previous[p]), traced + [p];
      AdvanceKept(layout, maze.numRows, maze.numCols, tiles0, distance, previous, visited, seen, queue, p, traced0,
                  maze.tiles, pathStep, traced);
    }

    /** `if (pathStep == start) pathStep.status = PATH`, then `pathStep = null` and `pathTracing = false`. */
    method Stop(p: Pos)
      requires Valid() && isFinished && pathTracing && pathStep == Some(p) && p !in previous
      modifies maze, this`pathStep, this`pathTracing, this`traced
      ensures Valid() && 0 <= p.row < |old(maze.tiles)| && 0 <= p.column < |old(maze.tiles)[p.row]|
      ensures maze.tiles == (if p == StartTile() then WithStatus(old(maze.tiles), p, Path) else old(maze.tiles))
      ensures pathStep.None? && !pathTracing
    {
      StopKept(layout, maze.numRows, maze.numCols, maze.tiles, distance, previous, visited, seen, queue, p, traced);
      if p == StartTile() {
        maze.SetStatus(p, Path);
        traced := traced + [p];
      }
      pathStep, pathTracing := None, false;
    }

    /** A finished search has visited the end exactly when the end can be walked to from the start. */
    lemma FinishedDecides()
      requires Valid() && isFinished
      ensures EndTile(maze.numRows, maze.numCols) in visited <==>
                Reachable(layout, maze.numRows, maze.numCols, StartTile(), EndTile(maze.numRows, maze.numCols))
    {
      if EndTile(maze.numRows, maze.numCols) in visited {
        ReachedIsReachable(layout, maze.numRows, maze.numCols, seen, previous, distance, EndTile(maze.numRows, maze.numCols));
      }
    }

    /** `getVisitedCount()`: the size of `visited`, at most the number of tiles. */
    method GetVisitedCount() returns (count: int)
      requires Valid()
      ensures count == |visited| && count <= maze.numRows * maze.numCols
    {
      count := |visited|;
      InsideCount(maze.numRows, maze.numCols, visited);
    }

    /**
     * `getPathCount()`: always 0, as nothing increments `pathCount`; once complete with the
     * end reached, fewer than the tiles actually marked PATH.
     */
    method GetPathCount() returns (count: int)
      requires Valid()
      ensures count == 0
      ensures isFinished && !pathTracing && EndTile(maze.numRows, maze.numCols) in visited ==> count < |traced|
    {
      count := pathCount;
    }

    /**
     * `isComplete()`: finished with the tracing over. When the end can be reached, the tiles
     * marked PATH are then a trail through open walls from the end back to the start; when it
     * cannot, none was marked.
     */
    method IsComplete() returns (r: bool)
      requires Valid()
      ensures r <==> isFinished && !pathTracing && pathStep.None?
      ensures r && !Reachable(layout, maze.numRows, maze.numCols, StartTile(), EndTile(maze.numRows, maze.numCols)) ==>
                traced == []
      ensures r && Reachable(layout, maze.numRows, maze.numCols, StartTile(), EndTile(maze.numRows, maze.numCols)) ==>
                traced[0] == EndTile(maze.numRows, maze.numCols) && traced[|traced| - 1] == StartTile() &&
                IsTrail(layout, maze.numRows, maze.numCols, traced) &&
                forall i | 0 <= i < |traced| :: At(maze.tiles, traced[i]).status == Path
    {
      r := isFinished && !pathTracing && pathStep == None;
      if r {
        FinishedDecides();
        if EndTile(maze.numRows, maze.numCols) in visited {
          ChainToStart(layout, maze.numRows, maze.numCols, seen, previous, distance, EndTile(maze.numRows, maze.numCols));
          forall i | 0 <= i < |traced|
            ensures At(maze.tiles, traced[i]).status == Path
          {
            assert traced[i] in traced;
          }
        }
      }
    }
  }
}
