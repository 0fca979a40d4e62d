/**
 * What the step-by-step solvers share (cynaspe/src/algorithms/Solver.java): the visited tiles,
 * the parent each discovered tile was reached from, the finished flag, and the path tracing
 * that walks the parents back from the end once the end has been found. A tile is identified
 * by its position; the statuses the solvers write live in the maze's grid.
 */
module Solver {
  import opened Wrappers
  import opened Enums
  import opened TileModel
  import opened Grid
  import opened Maze

  // ----- Parent chains -----

  /** Parent links go to tiles of strictly smaller, non-negative depth, so following them stops. */
  ghost predicate Ordered(parent: map<Pos, Pos>, depth: map<Pos, int>)
  {
    parent.Keys <= depth.Keys && parent.Values <= depth.Keys &&
    forall x {:trigger parent[x]} | x in parent :: 0 <= depth[parent[x]] < depth[x]
  }

  /** The tiles met following parent links from `p`: `p`, its parent, and so on up to a tile without one. */
  ghost function Chain(parent: map<Pos, Pos>, depth: map<Pos, int>, p: Pos): (c: seq<Pos>)
    requires Ordered(parent, depth) && p in depth
    ensures |c| >= 1 && c[0] == p
    decreases depth[p]
  {
    if p in parent then [p] + Chain(parent, depth, parent[p]) else [p]
  }

  /** The part of a chain the tracing still has to walk: nothing once `pathStep` is null. */
  ghost function Remaining(parent: map<Pos, Pos>, depth: map<Pos, int>, step: Option<Pos>): seq<Pos>
    requires Ordered(parent, depth) && (step.Some? ==> step.value in depth)
  {
    if step.None? then [] else Chain(parent, depth, step.value)
  }

  /**
   * The bookkeeping of a search over `reached`: reached tiles are inside the grid; the start
   * has no parent and is reached first; every other reached tile has a parent, which is a
   * reached tile it is an accessible neighbour of, one depth level closer to the start.
   */
  ghost predicate Linked(layout: Cells, numRows: int, numCols: int, reached: set<Pos>,
                         parent: map<Pos, Pos>, depth: map<Pos, int>)
  {
    Shaped(layout, numRows, numCols) && Ordered(parent, depth) &&
    parent.Keys <= reached && reached <= depth.Keys && StartTile() !in parent &&
    (reached != {} ==> StartTile() in reached) &&
    (forall v {:trigger v in reached} | v in reached :: InBounds(numRows, numCols, v) && 0 <= depth[v] && (v == StartTile() || v in parent)) &&
    forall x {:trigger parent[x]} | x in parent ::
      parent[x] in reached && OpenStep(layout, numRows, numCols, parent[x], x)
  }

  /** A new tile reached from a reached tile keeps the bookkeeping consistent. */
  lemma LinkedAdd(layout: Cells, numRows: int, numCols: int, reached: set<Pos>,
                  parent: map<Pos, Pos>, depth: map<Pos, int>, current: Pos, n: Pos)
    requires Linked(layout, numRows, numCols, reached, parent, depth)
    requires current in reached && n !in reached
    requires InBounds(numRows, numCols, current) && n in AccessibleNeighbors(layout, numRows, numCols, current)
    ensures Linked(layout, numRows, numCols, reached + {n}, parent[n := current], depth[n := depth[current] + 1])
  {
    OpenStepAccessible(layout, numRows, numCols, current, n);
    var parent', depth' := parent[n := current], depth[n := depth[current] + 1];
    assert StartTile() in reached;
    var reached' := reached + {n};
    forall x | x in parent'
      ensures parent'[x] in depth' && 0 <= depth'[parent'[x]] < depth'[x]
      ensures parent'[x] in reached' && OpenStep(layout, numRows, numCols, parent'[x], x)
    {
      if x != n {
        assert parent'[x] == parent[x] && parent[x] in reached && parent[x] != n;
      }
    }
    assert Ordered(parent', depth');
    forall v | v in reached'
      ensures InBounds(numRows, numCols, v) && 0 <= depth'[v] && (v == StartTile() || v in parent')
    {

    }
  }

  /**
   * One step of the tracing: when the marked tiles followed by the chain from `p` make up the
   * chain from `end`, so do the marked tiles with `p` added followed by the chain from its parent.
   */
  lemma TraceAdvance(layout: Cells, numRows: int, numCols: int, reached: set<Pos>,
                     parent: map<Pos, Pos>, depth: map<Pos, int>, path: seq<Pos>, p: Pos, end: Pos)
    requires Linked(layout, numRows, numCols, reached, parent, depth) && p in reached && end in reached
    requires path + Chain(parent, depth, p) == Chain(parent, depth, end)
    ensures var next := if p in parent then Some(parent[p]) else None;
              (next.Some? ==> next.value in reached) &&
              (path + [p]) + Remaining(parent, depth, next) == Chain(parent, depth, end)
  {
    var next := if p in parent then Some(parent[p]) else None;
    var rest := Remaining(parent, depth, next);
    assert Chain(parent, depth, p) == [p] + rest;
    AppendAssoc(path, [p], rest);
  }

  /**
   * Every reached tile is tied to the start by its chain of parents, which is a trail
   * through open walls made of reached tiles.
   */
  lemma {:induction false} ChainToStart(layout: Cells, numRows: int, numCols: int, reached: set<Pos>,
                                        parent: map<Pos, Pos>, depth: map<Pos, int>, p: Pos)
    requires Linked(layout, numRows, numCols, reached, parent, depth) && p in reached
    ensures var c := Chain(parent, depth, p);
              c[|c| - 1] == StartTile() && IsTrail(layout, numRows, numCols, c) &&
              forall i | 0 <= i < |c| :: c[i] in reached
    decreases depth[p]
  {
    var c := Chain(parent, depth, p);
    if p in parent {
      var q := parent[p];
      ChainToStart(layout, numRows, numCols, reached, parent, depth, q);
      var t := Chain(parent, depth, q);
      assert c == [p] + t;
      forall i | 0 <= i < |c| - 1
        ensures c[i] in AccessibleNeighbors(layout, numRows, numCols, c[i + 1])
      {
        if i > 0 {
          assert c[i] == t[i - 1] && c[i + 1] == t[i];
        } else {
          OpenStepAccessible(layout, numRows, numCols, q, p);
        }
      }
      forall i | 0 <= i < |c|
        ensures c[i] in reached && InBounds(numRows, numCols, c[i])
      {
        if i > 0 {
          assert c[i] == t[i - 1];
        }
      }
    }
  }

  /** Every reached tile can be walked to from the start. */
  lemma ReachedIsReachable(layout: Cells, numRows: int, numCols: int, reached: set<Pos>,
                           parent: map<Pos, Pos>, depth: map<Pos, int>, p: Pos)
    requires Linked(layout, numRows, numCols, reached, parent, depth) && p in reached
    ensures Reachable(layout, numRows, numCols, StartTile(), p)
  {
    ChainToStart(layout, numRows, numCols, reached, parent, depth, p);
    var c := Chain(parent, depth, p);
    assert IsTrail(layout, numRows, numCols, c) && c[0] == p && c[|c| - 1] == StartTile();
  }

  /**
   * A set holding the start and every accessible neighbour of its members holds every tile
   * reachable from the start.
   */
  lemma ClosedHoldsReachable(layout: Cells, numRows: int, numCols: int, seen: set<Pos>, t: Pos)
    requires Shaped(layout, numRows, numCols) && StartTile() in seen
    requires forall v {:trigger v in seen} | v in seen :: InBounds(numRows, numCols, v)
    requires forall v, n {:trigger OpenStep(layout, numRows, numCols, v, n)} | v in seen && OpenStep(layout, numRows, numCols, v, n) :: n in seen
    requires Reachable(layout, numRows, numCols, StartTile(), t)
    ensures t in seen
  {
    var w :| IsTrail(layout, numRows, numCols, w) && w[0] == t && w[|w| - 1] == StartTile();
    var i := |w| - 1;
    while i > 0
      invariant 0 <= i < |w| && w[i] in seen
    {
      OpenStepAccessible(layout, numRows, numCols, w[i], w[i - 1]);
      i := i - 1;
    }
  }

  /** A set of tiles inside the grid has at most numRows * numCols members. */
  lemma InsideCount(numRows: int, numCols: int, s: set<Pos>)
    requires 0 <= numRows && 0 <= numCols
    requires forall v {:trigger v in s} | v in s :: InBounds(numRows, numCols, v)
    ensures |s| <= numRows * numCols
  {
    var all := AllPositions(numRows, numCols);
    forall v | v in s
      ensures v in all
    {
      AllPositionsMembers(numRows, numCols, v);
    }
    AllPositionsCount(numRows, numCols);
    assert all == s + (all - s);
  }

  // ----- Discovering neighbours -----

  /** The tiles of `ns` not in `seen`, in order. */
  function Undiscovered(ns: seq<Pos>, seen: set<Pos>): (r: seq<Pos>)
    ensures forall q {:trigger q in r} {:trigger q in ns} :: q in r <==> q in ns && q !in seen
  {
    if ns == [] then []
    else
      var init, last := ns[..|ns| - 1], ns[|ns| - 1];
      assert ns == init + [last];
      Undiscovered(init, seen) + if last in seen then [] else [last]
  }

  /** Picking from a list without repeats gives a list without repeats. */
  lemma {:induction false} UndiscoveredDistinct(ns: seq<Pos>, seen: set<Pos>)
    requires Distinct(ns)
    ensures Distinct(Undiscovered(ns, seen))
  {
    if ns != [] {
      var init, last := ns[..|ns| - 1], ns[|ns| - 1];
      assert ns == init + [last];
      UndiscoveredDistinct(init, seen);
      assert last !in init;
    }
  }

  /** Looking at one more tile of `ns`: it is added unless seen; a tile of a list without repeats is not already among the earlier ones. */
  lemma UndiscoveredNext(ns: seq<Pos>, i: int, seen: set<Pos>)
    requires 0 <= i < |ns|
    ensures Undiscovered(ns[..i + 1], seen) == Undiscovered(ns[..i], seen) + if ns[i] in seen then [] else [ns[i]]
    ensures Distinct(ns) ==> ns[i] !in Undiscovered(ns[..i], seen)
  {
    assert ns[..i + 1][..i] == ns[..i];
  }

  /** The grid with the status of each tile of `ps` set to `s`, one after the other. */
  function WithStatuses(cells: Cells, numRows: int, numCols: int, ps: seq<Pos>, s: TileStatus): (r: Cells)
    requires Shaped(cells, numRows, numCols)
    requires forall i | 0 <= i < |ps| :: InBounds(numRows, numCols, ps[i])
    ensures SameLayout(r, cells, numRows, numCols)
  {
    if ps == [] then cells
    else
      var init, last := ps[..|ps| - 1], ps[|ps| - 1];
      assert ps == init + [last];
      var r := WithStatuses(cells, numRows, numCols, init, s);
      assert InBounds(numRows, numCols, last) && Shaped(r, numRows, numCols);
      WithStatusLayout(r, numRows, numCols, last, s);
      SameLayoutTrans(WithStatus(r, last, s), r, cells, numRows, numCols);
      WithStatus(r, last, s)
  }

  /** The tiles of `ps` get status `s`; every other tile is left as it was. */
  lemma {:induction false} WithStatusesAt(cells: Cells, numRows: int, numCols: int, ps: seq<Pos>, s: TileStatus, q: Pos)
    requires Shaped(cells, numRows, numCols)
    requires forall i | 0 <= i < |ps| :: InBounds(numRows, numCols, ps[i])
    requires InBounds(numRows, numCols, q)
    ensures At(WithStatuses(cells, numRows, numCols, ps, s), q) == if q in ps then At(cells, q).(status := s) else At(cells, q)
  {
    if ps != [] {
      var init, last := ps[..|ps| - 1], ps[|ps| - 1];
      assert ps == init + [last];
      WithStatusesAt(cells, numRows, numCols, init, s, q);
      var r := WithStatuses(cells, numRows, numCols, init, s);
      WithStatusLayout(r, numRows, numCols, last, s);
    }
  }

  /** Marking one more tile PATH keeps every tile of the path marked. */
  lemma MarkPath(cells: Cells, numRows: int, numCols: int, path: seq<Pos>, p: Pos)
    requires Shaped(cells, numRows, numCols) && InBounds(numRows, numCols, p)
    requires forall q {:trigger q in path} | q in path :: InBounds(numRows, numCols, q) && At(cells, q).status == Path
    ensures var r := WithStatus(cells, p, Path);
              Shaped(r, numRows, numCols) &&
              forall q {:trigger q in path + [p]} | q in path + [p] ::
                InBounds(numRows, numCols, q) && At(r, q).status == Path
  {
    WithStatusLayout(cells, numRows, numCols, p, Path);
    var r := WithStatus(cells, p, Path);
    forall q | q in path + [p]
      ensures InBounds(numRows, numCols, q) && At(r, q).status == Path
    {
      if q != p {
        assert q in path;
      }
    }
  }

  /** Setting the statuses of `ps` and then of `n` is setting those of `ps + [n]`. */
  lemma WithStatusesNext(cells: Cells, numRows: int, numCols: int, ps: seq<Pos>, n: Pos, s: TileStatus)
    requires Shaped(cells, numRows, numCols) && InBounds(numRows, numCols, n)
    requires forall i | 0 <= i < |ps| :: InBounds(numRows, numCols, ps[i])
    ensures forall i | 0 <= i < |ps + [n]| :: InBounds(numRows, numCols, (ps + [n])[i])
    ensures Shaped(WithStatuses(cells, numRows, numCols, ps, s), numRows, numCols)
    ensures WithStatuses(cells, numRows, numCols, ps + [n], s) ==
            WithStatus(WithStatuses(cells, numRows, numCols, ps, s), n, s)
  {
    assert (ps + [n])[..|ps|] == ps;
  }

  /** The tiles of `found + [n]` are those of `found` and `n`; so are the keys they map to `current`. */
  lemma AppendFound(seen: set<Pos>, parent: map<Pos, Pos>, found: seq<Pos>, n: Pos, current: Pos)
    ensures seen + (set x | x in found + [n]) == (seen + set x | x in found) + {n}
    ensures parent + (map x | x in found + [n] :: current) == (parent + map x | x in found :: current)[n := current]
  {
  }

  /**
   * The frontier of a search (the breadth-first queue or the depth-first stack) holds visited
   * tiles, none twice; while the search runs, every visited tile that has left the frontier
   * has all its accessible neighbours visited, and the end has not left it.
   */
  ghost predicate Frontier(layout: Cells, numRows: int, numCols: int, visited: set<Pos>,
                           frontier: seq<Pos>, isFinished: bool)
  {
    WellFormed(layout, numRows, numCols) && Distinct(frontier) &&
    (forall i | 0 <= i < |frontier| :: frontier[i] in visited) &&
    (!isFinished ==>
       (EndTile(numRows, numCols) in visited ==> EndTile(numRows, numCols) in frontier) &&
       forall v, n {:trigger OpenStep(layout, numRows, numCols, v, n)} | v in visited && v !in frontier && InBounds(numRows, numCols, v) &&
                     OpenStep(layout, numRows, numCols, v, n) :: n in visited)
  }

  /** A list without repeats has as many distinct tiles as elements. */
  lemma {:induction false} DistinctCard(s: seq<Pos>)
    requires Distinct(s)
    ensures |set x | x in s| == |s|
  {
    if s != [] {
      var init, last := s[..|s| - 1], s[|s| - 1];
      assert s == init + [last];
      assert Distinct(init) by {
        forall i, j | 0 <= i < j < |init|
          ensures init[i] != init[j]
        {
          assert init[i] == s[i] && init[j] == s[j];
        }
      }
      DistinctCard(init);
      assert last !in init;
      assert (set x | x in s) == (set x | x in init) + {last};
    }
  }

  /** Two lists without repeats and without a common tile make a list without repeats. */
  lemma DistinctAppend(a: seq<Pos>, b: seq<Pos>)
    requires Distinct(a) && Distinct(b) && forall x {:trigger x in a} | x in a :: x !in b
    ensures Distinct(a + b)
  {
    forall i, j | 0 <= i < j < |a + b|
      ensures (a + b)[i] != (a + b)[j]
    {
      if j < |a| {
      } else if i >= |a| {
        assert (a + b)[i] == b[i - |a|] && (a + b)[j] == b[j - |a|];
      } else {
        assert (a + b)[i] == a[i] && (a + b)[j] == b[j - |a|];
        assert a[i] in a;
      }
    }
  }

  /**
   * Taking `current` out of the frontier and adding its undiscovered accessible neighbours
   * `found` keeps the frontier's properties, with `rest` the frontier without `current`; the
   * visited set grows by exactly the tiles found.
   */
  lemma FrontierTake(layout: Cells, numRows: int, numCols: int, visited: set<Pos>, frontier: seq<Pos>,
                     current: Pos, rest: seq<Pos>, found: seq<Pos>, visited': set<Pos>)
    requires Frontier(layout, numRows, numCols, visited, frontier, false)
    requires current in frontier && current != EndTile(numRows, numCols) && InBounds(numRows, numCols, current)
    requires Distinct(rest) && forall x {:trigger x in rest} :: x in rest <==> x in frontier && x != current
    requires found == Undiscovered(AccessibleNeighbors(layout, numRows, numCols, current), visited)
    requires visited' == visited + set n | n in found
    requires forall n {:trigger OpenStep(layout, numRows, numCols, current, n)} | OpenStep(layout, numRows, numCols, current, n) :: n in visited'
    ensures Frontier(layout, numRows, numCols, visited', rest + found, false)
    ensures |visited'| == |visited| + |found|
  {
    AccessibleNeighborsDistinct(layout, numRows, numCols, current);
    UndiscoveredDistinct(AccessibleNeighbors(layout, numRows, numCols, current), visited);
    forall x | x in rest
      ensures x !in found
    {
      assert x in frontier;
    }
    DistinctAppend(rest, found);
    var q := rest + found;
    forall i | 0 <= i < |q|
      ensures q[i] in visited'
    {
      if i < |rest| {
        assert q[i] in rest && q[i] in frontier;
      } else {
        assert q[i] in found;
      }
    }
    forall v, n | v in visited' && v !in q && InBounds(numRows, numCols, v) && OpenStep(layout, numRows, numCols, v, n)
      ensures n in visited'
    {
      if v != current {
        assert v !in found;
        assert v !in frontier;
      }
    }
    DistinctCard(found);
    assert (set n | n in found) !! visited;
  }

  /**
   * A frontier that has run dry while the search runs, with the start visited, leaves the
   * visited tiles closed under accessible neighbours: the end was never visited and cannot
   * be walked to from the start.
   */
  lemma Exhausted(layout: Cells, numRows: int, numCols: int, visited: set<Pos>)
    requires Frontier(layout, numRows, numCols, visited, [], false)
    requires StartTile() in visited && forall v {:trigger v in visited} | v in visited :: InBounds(numRows, numCols, v)
    ensures EndTile(numRows, numCols) !in visited
    ensures !Reachable(layout, numRows, numCols, StartTile(), EndTile(numRows, numCols))
  {
    if Reachable(layout, numRows, numCols, StartTile(), EndTile(numRows, numCols)) {
      ClosedHoldsReachable(layout, numRows, numCols, visited, EndTile(numRows, numCols));
    }
  }

  /**
   * The invariant of a solver's fields, stated on their values: the bookkeeping is linked; the
   * tracing has not started before the end was found, and once it has, the tiles marked so far
   * followed by the rest of the walk from `pathStep` make up the end's chain of parents.
   */
  ghost predicate Consistent(layout: Cells, numRows: int, numCols: int, visited: set<Pos>,
                             parentMap: map<Pos, Pos>, depth: map<Pos, int>, isFinished: bool,
                             pathStep: Option<Pos>, path: seq<Pos>, pathCount: int)
  {
    1 <= numRows && 1 <= numCols &&
    Linked(layout, numRows, numCols, visited, parentMap, depth) &&
    pathCount == |path| && (forall q {:trigger q in path} | q in path :: q in visited) &&
    (pathStep.Some? ==> isFinished && EndTile(numRows, numCols) in visited && pathStep.value in visited) &&
    (isFinished && EndTile(numRows, numCols) in visited ==>
       path + Remaining(parentMap, depth, pathStep) == Chain(parentMap, depth, EndTile(numRows, numCols))) &&
    (!(isFinished && EndTile(numRows, numCols) in visited) ==> path == [] && pathStep.None?)
  }

  /** Recording a newly discovered neighbour during the search keeps the fields consistent. */
  lemma RecordConsistent(layout: Cells, numRows: int, numCols: int, visited: set<Pos>,
                         parentMap: map<Pos, Pos>, depth: map<Pos, int>, isFinished: bool,
                         pathStep: Option<Pos>, path: seq<Pos>, pathCount: int, current: Pos, n: Pos)
    requires Consistent(layout, numRows, numCols, visited, parentMap, depth, isFinished, pathStep, path, pathCount)
    requires !isFinished && current in visited && n !in visited
    requires InBounds(numRows, numCols, current) && n in AccessibleNeighbors(layout, numRows, numCols, current)
    ensures Consistent(layout, numRows, numCols, visited + {n}, parentMap[n := current],
                       depth[n := depth[current] + 1], isFinished, pathStep, path, pathCount)
  {
    LinkedAdd(layout, numRows, numCols, visited, parentMap, depth, current, n);
  }

  /** Marking the tile at `pathStep` and moving to its parent keeps the fields consistent. */
  lemma AdvanceConsistent(layout: Cells, numRows: int, numCols: int, visited: set<Pos>,
                          parentMap: map<Pos, Pos>, depth: map<Pos, int>,
                          pathStep: Option<Pos>, path: seq<Pos>, pathCount: int)
    requires Consistent(layout, numRows, numCols, visited, parentMap, depth, true, pathStep, path, pathCount)
    requires pathStep.Some?
    ensures var p := pathStep.value;
            var next := if p in parentMap then Some(parentMap[p]) else None;
            Consistent(layout, numRows, numCols, visited, parentMap, depth, true, next, path + [p], pathCount + 1)
  {
    TraceAdvance(layout, numRows, numCols, visited, parentMap, depth, path, pathStep.value, EndTile(numRows, numCols));
  }

  /**
   * The fields of `Solver`: the parent map, the visited set, the finished flag, the tile the
   * path tracing is at and the number of tiles marked PATH so far.
   */
  class SolverState {
    const numRows: int
    const numCols: int
    /** The maze's grid when the search began; solving changes statuses only. */
    ghost const layout: Cells
    var parentMap: map<Pos, Pos>
    var visited: set<Pos>
    var isFinished: bool
    var pathStep: Option<Pos>
    var pathCount: int
    /** How many parent links separate a visited tile from the start. */
    ghost var depth: map<Pos, int>
    /** The tiles marked PATH by the tracing, in the order it marked them. */
    ghost var path: seq<Pos>

    /**
     * The bookkeeping is consistent; the tracing has not started before the end was found,
     * and once it has, the tiles marked so far followed by the rest of the walk from
     * `pathStep` make up the end's chain of parents.
     */
    ghost predicate Valid()
      reads this
    {
      Consistent(layout, numRows, numCols, visited, parentMap, depth, isFinished, pathStep, path, pathCount)
    }

    /** The tiles the tracing has marked are marked PATH in `cells`. */
    ghost predicate Marked(cells: Cells)
      requires Valid()
      reads this
    {
      Shaped(cells, numRows, numCols) &&
      forall q {:trigger q in path} | q in path :: InBounds(numRows, numCols, q) && At(cells, q).status == Path
    }

    /** The field initialisers: nothing visited, no parents, not finished, no path. */
    constructor (numRows: int, numCols: int, ghost layout: Cells)
      requires 1 <= numRows && 1 <= numCols && WellFormed(layout, numRows, numCols)
      ensures Valid()
      ensures this.numRows == numRows && this.numCols == numCols && this.layout == layout
      ensures parentMap == map[] && visited == {} && !isFinished && pathStep.None? && pathCount == 0
    {
      this.numRows := numRows;
      this.numCols := numCols;
      this.layout := layout;
      parentMap := map[];
      visited := {};
      isFinished := false;
      pathStep := None;
      pathCount := 0;
      depth := map[];
      path := [];
    }

    /** `visited.add(start)`. */
    method AddStart()
      requires Valid() && !isFinished
      modifies this`visited, this`depth
      ensures Valid()
      ensures visited == old(visited) + {StartTile()}
    {
      if StartTile() !in visited {
        if StartTile() !in depth {
          depth := depth[StartTile() := 0];
        } else if depth[StartTile()] < 0 {
          assert StartTile() !in parentMap.Values;
          depth := depth[StartTile() := 0];
        }
      }
      visited := visited + {StartTile()};
    }

    /**
     * The loop over the accessible neighbours of `current`: each one not visited yet is marked
     * visited and VISITED and gets `current` as its parent. They are returned in the order
     * up, down, left, right for the caller to add to its frontier.
     */
    method Discover(maze: MazeModel, current: Pos) returns (found: seq<Pos>)
      requires Valid() && !isFinished && current in visited
      requires maze.Valid() && maze.numRows == numRows && maze.numCols == numCols
      requires SameLayout(maze.tiles, layout, numRows, numCols)
      modifies this`visited, this`parentMap, this`depth, maze
      ensures Valid() && maze.Valid() && SameLayout(maze.tiles, layout, numRows, numCols)
      ensures found == Undiscovered(AccessibleNeighbors(layout, numRows, numCols, current), old(visited))
      ensures forall i | 0 <= i < |found| :: InBounds(numRows, numCols, found[i])
      ensures visited == old(visited) + set n | n in found
      ensures parentMap == old(parentMap) + map n | n in found :: current
      ensures maze.tiles == WithStatuses(old(maze.tiles), numRows, numCols, found, Visited)
      ensures forall n | OpenStep(layout, numRows, numCols, current, n) :: n in visited
    {
      var ns := maze.GetAccessibleNeighbors(current);
      SameLayoutNeighbors(maze.tiles, layout, numRows, numCols, current);
      AccessibleNeighborsMembers(layout, numRows, numCols, current);
      AccessibleNeighborsDistinct(layout, numRows, numCols, current);
      ghost var seen := visited;
      ghost var before := maze.tiles;
      found := [];
      for i := 0 to |ns|
        invariant found == Undiscovered(ns[..i], seen)
        invariant forall j | 0 <= j < |found| :: InBounds(numRows, numCols, found[j])
        invariant visited == seen + set n | n in found
        invariant parentMap == old(parentMap) + map n | n in found :: current
        invariant maze.tiles == WithStatuses(before, numRows, numCols, found, Visited)
        invariant maze.Valid() && SameLayout(maze.tiles, layout, numRows, numCols)
        invariant Valid()
      {
        var n := ns[i];
        UndiscoveredNext(ns, i, seen);
        if n !in visited {
          Visit(maze, current, n, seen, old(parentMap), before, found);
          found := found + [n];
        }
      }
      assert ns[..|ns|] == ns;
      forall n | OpenStep(layout, numRows, numCols, current, n)
        ensures n in visited
      {
        OpenStepAccessible(layout, numRows, numCols, current, n);
      }
    }

    /**
     * One pass of the loop in `Discover` for a neighbour `n` not visited yet: it is recorded
     * with parent `current` and its tile is marked VISITED, extending the neighbours `found`
     * so far (from the visited set `seen`, the parents `parents` and the tiles `before`).
     */
    method Visit(maze: MazeModel, current: Pos, n: Pos, ghost seen: set<Pos>,
                 ghost parents: map<Pos, Pos>, ghost before: Cells, ghost found: seq<Pos>)
      requires Valid() && !isFinished && current in visited && n !in visited
      requires InBounds(numRows, numCols, current) && n in AccessibleNeighbors(layout, numRows, numCols, current)
      requires maze.Valid() && maze.numRows == numRows && maze.numCols == numCols
      requires SameLayout(maze.tiles, layout, numRows, numCols)
      requires Shaped(before, numRows, numCols) && forall j | 0 <= j < |found| :: InBounds(numRows, numCols, found[j])
      requires visited == seen + set x | x in found
      requires parentMap == parents + map x | x in found :: current
      requires maze.tiles == WithStatuses(before, numRows, numCols, found, Visited)
      modifies this`visited, this`parentMap, this`depth, maze
      ensures Valid() && maze.Valid() && SameLayout(maze.tiles, layout, numRows, numCols)
      ensures forall j | 0 <= j < |found + [n]| :: InBounds(numRows, numCols, (found + [n])[j])
      ensures visited == seen + set x | x in found + [n]
      ensures parentMap == parents + map x | x in found + [n] :: current
      ensures maze.tiles == WithStatuses(before, numRows, numCols, found + [n], Visited)
    {
      Record(current, n);
      ghost var prevTiles := maze.tiles;
      maze.SetStatus(n, Visited);
      SameLayoutTrans(maze.tiles, prevTiles, layout, numRows, numCols);
      WithStatusesNext(before, numRows, numCols, found, n, Visited);
      AppendFound(seen, parents, found, n, current);
    }

    /**
     * The bookkeeping for a neighbour `n` of `current` not visited yet:
     * `visited.add(n)` and `parentMap.put(n, current)`.
     */
    method Record(current: Pos, n: Pos)
      requires Valid() && !isFinished && current in visited && n !in visited
      requires InBounds(numRows, numCols, current) && n in AccessibleNeighbors(layout, numRows, numCols, current)
      modifies this`visited, this`parentMap, this`depth
      ensures Valid()
      ensures visited == old(visited) + {n} && parentMap == old(parentMap)[n := current]
    {
      RecordConsistent(layout, numRows, numCols, visited, parentMap, depth, isFinished, pathStep, path, pathCount, current, n);
      visited, parentMap, depth := visited + {n}, parentMap[n := current], depth[n := depth[current] + 1];
    }

    /** The end was taken from the frontier: the search stops and the tracing starts at the end. */
    method Finish()
      requires Valid() && !isFinished && EndTile(numRows, numCols) in visited
      modifies this`isFinished, this`pathStep
      ensures Valid()
      ensures isFinished && pathStep == Some(EndTile(numRows, numCols))
    {
      isFinished := true;
      pathStep := Some(EndTile(numRows, numCols));
    }

    /** The frontier ran out without the end being visited: the search stops with no path. */
    method GiveUp()
      requires Valid() && !isFinished && EndTile(numRows, numCols) !in visited
      modifies this`isFinished
      ensures Valid()
      ensures isFinished
    {
      isFinished := true;
    }

    /**
     * One step of the path tracing: the tile at `pathStep` is marked PATH and counted, and the
     * tracing moves to its parent; it is done when that tile has no parent.
     */
    method TraceStep(maze: MazeModel) returns (done: bool)
      requires Valid() && isFinished && pathStep.Some?
      requires maze.Valid() && maze.numRows == numRows && maze.numCols == numCols
      requires SameLayout(maze.tiles, layout, numRows, numCols) && Marked(maze.tiles)
      modifies this`pathCount, this`pathStep, this`path, maze
      ensures Valid() && maze.Valid() && SameLayout(maze.tiles, layout, numRows, numCols) && Marked(maze.tiles)
      ensures maze.tiles == WithStatus(old(maze.tiles), old(pathStep.value), Path)
      ensures pathCount == old(pathCount) + 1 && path == old(path) + [old(pathStep.value)]
      ensures pathStep == if old(pathStep.value) in parentMap then Some(parentMap[old(pathStep.value)]) else None
      ensures done <==> pathStep.None?
    {
      var p := pathStep.value;
      ghost var before := maze.tiles;
      MarkPath(before, numRows, numCols, path, p);
      maze.SetStatus(p, Path);
      SameLayoutTrans(maze.tiles, before, layout, numRows, numCols);
      Advance();
      done := pathStep.None?;
    }

    /** `pathCount++` and `pathStep = parentMap.get(pathStep)`: the tracing moves one tile on. */
    method Advance()
      requires Valid() && isFinished && pathStep.Some?
      modifies this`pathCount, this`pathStep, this`path
      ensures Valid()
      ensures pathCount == old(pathCount) + 1 && path == old(path) + [old(pathStep.value)]
      ensures pathStep == if old(pathStep.value) in parentMap then Some(parentMap[old(pathStep.value)]) else None
    {
      var p := pathStep.value;
      AdvanceConsistent(layout, numRows, numCols, visited, parentMap, depth, pathStep, path, pathCount);
      pathCount, path, pathStep := pathCount + 1, path + [p], if p in parentMap then Some(parentMap[p]) else None;
    }

    /**
     * Once tracing is over, the tiles marked PATH are the end's chain of parents: pathCount
     * tiles leading from the end back to the start through open walls.
     */
    lemma TracedPath(cells: Cells)
      requires Valid() && Marked(cells) && isFinished && pathStep.None?
      requires EndTile(numRows, numCols) in visited
      ensures path == Chain(parentMap, depth, EndTile(numRows, numCols)) && pathCount == |path|
      ensures path[0] == EndTile(numRows, numCols) && path[|path| - 1] == StartTile()
      ensures IsTrail(layout, numRows, numCols, path)
      ensures forall i | 0 <= i < |path| :: At(cells, path[i]).status == Path
    {
      assert path + [] == path;
      ChainToStart(layout, numRows, numCols, visited, parentMap, depth, EndTile(numRows, numCols));
      forall i | 0 <= i < |path|
        ensures At(cells, path[i]).status == Path
      {
        assert path[i] in path;
      }
    }

    /** A visited tile can be walked to from the start. */
    lemma VisitedReachable(p: Pos)
      requires Valid() && p in visited
      ensures Reachable(layout, numRows, numCols, StartTile(), p)
    {
      ReachedIsReachable(layout, numRows, numCols, visited, parentMap, depth, p);
    }
  }
}
