/**
 * The Dijkstra solver (cynaspe/src/algorithms/DjikstraSolver.java). Every tile starts at
 * distance `Integer.MAX_VALUE` but the start, at 0, which is the only queued tile. One `step`
 * at a time it polls a queued tile of least distance; a tile polled again after it was
 * visited is skipped; a new one is visited, and unless it is the end, each accessible
 * neighbour not visited yet whose distance exceeds the polled tile's by more than one gets
 * that distance plus one, the polled tile as `previous` and is queued again. Polling the end,
 * or running out of queued tiles, starts the tracing at the end, which marks the tiles of the
 * `previous` chain PATH and, when the chain ends at the start, the start as well.
 *
 * The solver does not extend `Solver`: it keeps its own fields, with `previous` for the parent
 * map. The priority queue is a sequence in insertion order that may hold a tile more than
 * once; a poll removes the first tile of least distance.
 */
module DijkstraSearch {
  import opened Wrappers
  import opened Enums
  import opened TileModel
  import opened Grid
  import opened Maze
  import opened Solver
  import opened JavaInt

  // ----- The priority queue -----

  /** The first index of `q` holding a tile of least distance: a tile `queue.poll()` may return. */
  function Lightest(q: seq<Pos>, distance: map<Pos, int>): (i: int)
    requires q != [] && forall j | 0 <= j < |q| :: q[j] in distance
    ensures 0 <= i < |q|
    ensures forall j | 0 <= j < |q| :: distance[q[i]] <= distance[q[j]]
    ensures forall j | 0 <= j < i :: distance[q[i]] < distance[q[j]]
  {
    if |q| == 1 then 0
    else
      var k := Lightest(q[..|q| - 1], distance);
      assert forall j | 0 <= j < |q| - 1 :: q[..|q| - 1][j] == q[j];
      if distance[q[|q| - 1]] < distance[q[k]] then |q| - 1 else k
  }

  /** The scan a priority queue stands for: the index of the tile to poll. */
  method LightestIndex(q: seq<Pos>, distance: map<Pos, int>) returns (i: int)
    requires q != [] && forall j | 0 <= j < |q| :: q[j] in distance
    ensures i == Lightest(q, distance)
  {
    i := 0;
    for k := 1 to |q|
      invariant 0 <= i < k && i == Lightest(q[..k], distance)
    {
      assert q[..k + 1][..k] == q[..k];
      if distance[q[k]] < distance[q[i]] {
        i := k;
      }
    }
    assert q[..|q|] == q;
  }

  /** Removing the entry at `i` leaves every other entry, and one fewer entry. */
  lemma RemoveAt(q: seq<Pos>, i: int)
    requires 0 <= i < |q|
    ensures |q[..i] + q[i + 1..]| == |q| - 1
    ensures forall x {:trigger x in q[..i] + q[i + 1..]} :: x in q[..i] + q[i + 1..] ==> x in q
    ensures forall x {:trigger x in q} | x in q && x != q[i] :: x in q[..i] + q[i + 1..]
  {
    var rest := q[..i] + q[i + 1..];
    forall x | x in q && x != q[i]
      ensures x in rest
    {
      var j :| 0 <= j < |q| && q[j] == x;
      if j < i {
        assert rest[j] == x;
      } else {
        assert rest[j - 1] == x;
      }
    }
    forall x | x in rest
      ensures x in q
    {
      var j :| 0 <= j < |rest| && rest[j] == x;
      if j < i {
        assert q[j] == x;
      } else {
        assert q[j + 1] == x;
      }
    }
  }

  // ----- Relaxation -----

  /**
   * The tiles of `ns`, in order, that are not visited and whose distance exceeds `alt`:
   * those the relaxation through a tile at distance `alt - 1` lowers to `alt`.
   */
  function Improvable(ns: seq<Pos>, visited: set<Pos>, distance: map<Pos, int>, alt: int): seq<Pos>
  {
    if ns == [] then []
    else
      var init, last := ns[..|ns| - 1], ns[|ns| - 1];
      Improvable(init, visited, distance, alt) +
        if last !in visited && last in distance && alt < distance[last] then [last] else []
  }

  /** A tile is improvable exactly when it is in `ns`, not visited, and farther than `alt`. */
  lemma {:induction false} ImprovableMembers(ns: seq<Pos>, visited: set<Pos>, distance: map<Pos, int>, alt: int)
    ensures forall q {:trigger q in Improvable(ns, visited, distance, alt)} ::
              q in Improvable(ns, visited, distance, alt) <==> q in ns && q !in visited && q in distance && alt < distance[q]
  {
    if ns != [] {
      var init, last := ns[..|ns| - 1], ns[|ns| - 1];
      assert ns == init + [last];
      ImprovableMembers(init, visited, distance, alt);
      var tail := if last !in visited && last in distance && alt < distance[last] then [last] else [];
      assert Improvable(ns, visited, distance, alt) == Improvable(init, visited, distance, alt) + tail;
      forall q
        ensures q in Improvable(ns, visited, distance, alt) <==> q in ns && q !in visited && q in distance && alt < distance[q]
      {
        assert q in ns <==> q in init || q == last;
      }
    }
  }

  /** Looking at one more neighbour; in a list without repeats it was not lowered before. */
  lemma ImprovableNext(ns: seq<Pos>, i: int, visited: set<Pos>, distance: map<Pos, int>, alt: int, pushed: seq<Pos>)
    requires 0 <= i < |ns| && pushed == Improvable(ns[..i], visited, distance, alt)
    ensures ns[i] !in visited && ns[i] in distance && alt < distance[ns[i]] ==>
              Improvable(ns[..i + 1], visited, distance, alt) == pushed + [ns[i]]
    ensures !(ns[i] !in visited && ns[i] in distance && alt < distance[ns[i]]) ==>
              Improvable(ns[..i + 1], visited, distance, alt) == pushed
  {
    assert ns[..i + 1][..i] == ns[..i];
    assert pushed + [] == pushed;
  }

  /**
   * `m` after `m.put(k, v)` for each tile `k` of `keys` in turn: the keys of `m` and `keys`,
   * with `v` at the tiles of `keys` and the old value elsewhere.
   */
  function PutAll<V>(m: map<Pos, V>, keys: seq<Pos>, v: V): map<Pos, V>
    decreases |keys|
  {
    if keys == [] then m
    else PutAll(m, keys[..|keys| - 1], v)[keys[|keys| - 1] := v]
  }

  /** One tile `k` of `PutAll(m, keys, v)`: present when it was in `m` or in `keys`, with `v` exactly at `keys`. */
  lemma {:induction false} PutAllAt<V>(m: map<Pos, V>, keys: seq<Pos>, v: V, k: Pos)
    ensures k in PutAll(m, keys, v) <==> k in m || k in keys
    ensures k in PutAll(m, keys, v) ==> PutAll(m, keys, v)[k] == if k in keys then v else m[k]
    decreases |keys|
  {
    if keys != [] {
      var init := keys[..|keys| - 1];
      PutAllAt(m, init, v, k);
      assert keys == init + [keys[|keys| - 1]];
    }
  }

  /** In a list without repeats, the improvable tiles have no repeats either. */
  lemma {:induction false} ImprovableDistinct(ns: seq<Pos>, visited: set<Pos>, distance: map<Pos, int>, alt: int)
    requires Distinct(ns)
    ensures Distinct(Improvable(ns, visited, distance, alt))
  {
    if ns != [] {
      var init, last := ns[..|ns| - 1], ns[|ns| - 1];
      assert ns == init + [last];
      assert Distinct(init) by {
        assert forall j | 0 <= j < |init| :: init[j] == ns[j];
      }
      assert last !in init by {
        assert forall j | 0 <= j < |init| :: init[j] == ns[j];
      }
      ImprovableDistinct(init, visited, distance, alt);
      ImprovableMembers(init, visited, distance, alt);
      var front := Improvable(init, visited, distance, alt);
      var tail := if last !in visited && last in distance && alt < distance[last] then [last] else [];
      assert Improvable(ns, visited, distance, alt) == front + tail;
      forall i, j | 0 <= i < j < |front + tail|
        ensures (front + tail)[i] != (front + tail)[j]
      {
        if j == |front| {
          assert front[i] in front;
        }
      }
    }
  }

  /** Pushing one more tile `n` is one more `put`. */
  lemma PushedMap<V>(m0: map<Pos, V>, pushed: seq<Pos>, n: Pos, v: V)
    ensures PutAll(m0, pushed + [n], v) == PutAll(m0, pushed, v)[n := v]
  {
    assert (pushed + [n])[..|pushed|] == pushed;
  }

  /** The tiles of a list, as a set. */
  function Members(s: seq<Pos>): set<Pos>
  {
    set x | x in s
  }

  /** Queueing and seeing one more tile `n`: the queue and the seen set stay the old ones extended by the tiles pushed. */
  lemma PushedQueue(queue0: seq<Pos>, seen0: set<Pos>, pushed: seq<Pos>, n: Pos,
                    queue: seq<Pos>, seen: set<Pos>, pushed': seq<Pos>, queue': seq<Pos>, seen': set<Pos>)
    requires queue == queue0 + pushed && seen == seen0 + Members(pushed)
    requires pushed' == pushed + [n] && queue' == queue + [n] && seen' == seen + {n}
    ensures queue' == queue0 + pushed' && seen' == seen0 + Members(pushed')
  {
    AppendAssoc(queue0, pushed, [n]);
    assert Members(pushed') == Members(pushed) + {n};
  }

  /** A tile not pushed yet keeps its old distance. */
  lemma NotPushed(distance0: map<Pos, int>, pushed: seq<Pos>, alt: int, n: Pos, distance: map<Pos, int>)
    requires distance == PutAll(distance0, pushed, alt) && n !in pushed && n in distance0
    ensures n in distance && distance[n] == distance0[n]
  {
    PutAllAt(distance0, pushed, alt, n);
  }

  /** Lowering one more tile `n` to `alt` through `current`: one more `put` in each map, one more queued tile. */
  lemma PushOne(distance0: map<Pos, int>, previous0: map<Pos, Pos>, queue0: seq<Pos>, seen0: set<Pos>,
                pushed: seq<Pos>, n: Pos, alt: int, current: Pos,
                distance: map<Pos, int>, previous: map<Pos, Pos>, queue: seq<Pos>, seen: set<Pos>)
    requires distance == PutAll(distance0, pushed, alt) && previous == PutAll(previous0, pushed, current)
    requires queue == queue0 + pushed && seen == seen0 + Members(pushed)
    ensures distance[n := alt] == PutAll(distance0, pushed + [n], alt)
    ensures previous[n := current] == PutAll(previous0, pushed + [n], current)
    ensures queue + [n] == queue0 + (pushed + [n]) && seen + {n} == seen0 + Members(pushed + [n])
  {
    PushedMap(distance0, pushed, n, alt);
    PushedMap(previous0, pushed, n, current);
    PushedQueue(queue0, seen0, pushed, n, queue, seen, pushed + [n], queue + [n], seen + {n});
  }

  /**
   * While the neighbours `ns` (without repeats) are looked at in order, the next one, not
   * visited, and the visited tile `current` still have their old distances.
   */
  lemma Untouched(distance0: map<Pos, int>, pushed: seq<Pos>, alt: int, ns: seq<Pos>, i: int,
                  visited: set<Pos>, current: Pos, distance: map<Pos, int>)
    requires 0 <= i < |ns| && Distinct(ns) && pushed == Improvable(ns[..i], visited, distance0, alt)
    requires ns[i] !in visited && ns[i] in distance0 && current in visited && current in distance0
    requires distance == PutAll(distance0, pushed, alt)
    ensures ns[i] in distance && distance[ns[i]] == distance0[ns[i]]
    ensures current in distance && distance[current] == distance0[current]
  {
    assert ns[i] !in ns[..i];
    ImprovableMembers(ns[..i], visited, distance0, alt);
    NotPushed(distance0, pushed, alt, ns[i], distance);
    NotPushed(distance0, pushed, alt, current, distance);
  }

  /** Tiles pushed at a lower distance than their old one: no distance grows. */
  lemma Lowered(distance0: map<Pos, int>, pushed: seq<Pos>, alt: int, distance: map<Pos, int>)
    requires forall q | q in pushed :: q in distance0 && alt < distance0[q]
    requires distance == PutAll(distance0, pushed, alt)
    ensures forall p | p in distance0 :: p in distance && distance[p] <= distance0[p]
  {
    forall p | p in distance0
      ensures p in distance && distance[p] <= distance0[p]
    {
      PutAllAt(distance0, pushed, alt, p);
    }
  }

  // ----- The invariant, on values -----

  /**
   * The bookkeeping of the search. `seen` is the set of tiles at a finite distance: every
   * tile of the grid has a distance, at most MAX_VALUE, and below it exactly for the seen
   * tiles; the start is seen at distance 0; `previous` links every other seen tile to a
   * visited tile it is an accessible neighbour of and that is strictly closer; no seen tile
   * is further than there are visited tiles; every queued tile is seen, and every seen tile
   * not yet visited is queued.
   */
  ghost predicate Explored(layout: Cells, numRows: int, numCols: int, distance: map<Pos, int>,
                           previous: map<Pos, Pos>, visited: set<Pos>, seen: set<Pos>, queue: seq<Pos>)
  {
    Linked(layout, numRows, numCols, seen, previous, distance) &&
    StartTile() in seen && distance[StartTile()] == 0 &&
    (forall p {:trigger p in distance} :: p in distance <==> InBounds(numRows, numCols, p)) &&
    (forall p {:trigger distance[p]} | p in distance :: distance[p] <= IntMax && (p in seen <==> distance[p] < IntMax)) &&
    (forall p {:trigger p in seen} | p in seen :: distance[p] <= |visited|) &&
    visited <= seen &&
    (forall x {:trigger previous[x]} | x in previous :: previous[x] in visited) &&
    (forall i | 0 <= i < |queue| :: queue[i] in seen) &&
    (forall p | p in seen && p !in visited :: p in queue)
  }

  /** A tile at a finite distance is seen. */
  lemma SeenByDistance(layout: Cells, numRows: int, numCols: int, distance: map<Pos, int>,
                       previous: map<Pos, Pos>, visited: set<Pos>, seen: set<Pos>, queue: seq<Pos>, n: Pos)
    requires Explored(layout, numRows, numCols, distance, previous, visited, seen, queue)
    requires n in distance && distance[n] < IntMax
    ensures n in seen
  {
  }

  /**
   * After relaxing the neighbours `ns` of the tile just visited, each of them is seen: it was
   * visited, or lowered now, or already at a distance at most `alt`.
   */
  lemma RelaxedSeen(layout: Cells, numRows: int, numCols: int, distance: map<Pos, int>,
                    previous: map<Pos, Pos>, visited: set<Pos>, seen: set<Pos>, queue: seq<Pos>,
                    ns: seq<Pos>, distance0: map<Pos, int>, alt: int, pushed: seq<Pos>)
    requires Explored(layout, numRows, numCols, distance, previous, visited, seen, queue)
    requires pushed == Improvable(ns, visited, distance0, alt) && alt < IntMax
    requires distance == PutAll(distance0, pushed, alt)
    requires forall q | q in pushed :: q in seen
    requires forall q | q in ns :: q in distance0
    ensures forall q | q in ns :: q in seen
  {
    ImprovableMembers(ns, visited, distance0, alt);
    forall q | q in ns
      ensures q in seen
    {
      if q !in visited && q !in pushed {
        NotPushed(distance0, pushed, alt, q, distance);
        SeenByDistance(layout, numRows, numCols, distance, previous, visited, seen, queue, q);
      }
    }
  }

  /** Every accessible neighbour of a tile of `explored` is seen. */
  ghost predicate Enclosed(layout: Cells, numRows: int, numCols: int, explored: set<Pos>, seen: set<Pos>)
  {
    Shaped(layout, numRows, numCols) &&
    forall v, n {:trigger OpenStep(layout, numRows, numCols, v, n)} |
      v in explored && InBounds(numRows, numCols, v) && OpenStep(layout, numRows, numCols, v, n) :: n in seen
  }

  /**
   * The invariant of the solver's fields, stated on their values, except that the tiles of
   * `pending` (the tile being expanded) may still have accessible neighbours that are not
   * seen. The grid has fewer than MAX_VALUE tiles; the bookkeeping is `Explored`; the tracing
   * runs exactly while `pathStep` is set, only after the search. While searching, the
   * visited tiles are closed under accessible neighbours and the end is not among them, and
   * nothing is marked; a search that finished without visiting the end found it unreachable.
   * While tracing, the tiles marked followed by the chain from `pathStep` make up the end's
   * chain; once the tracing is over they make up that chain if the end was visited and are
   * none otherwise.
   */
  ghost predicate Coherent(layout: Cells, numRows: int, numCols: int, distance: map<Pos, int>,
                             previous: map<Pos, Pos>, visited: set<Pos>, seen: set<Pos>, queue: seq<Pos>,
                             pending: set<Pos>, isFinished: bool, pathTracing: bool, pathStep: Option<Pos>,
                             traced: seq<Pos>)
  {
    var end := EndTile(numRows, numCols);
    1 <= numRows && 1 <= numCols && numRows * numCols < IntMax &&
    Explored(layout, numRows, numCols, distance, previous, visited, seen, queue) &&
    (pathTracing <==> pathStep.Some?) && (pathTracing ==> isFinished) &&
    (!isFinished ==> Enclosed(layout, numRows, numCols, visited - pending, seen) && end !in visited - pending && traced == []) &&
    (isFinished && end !in visited ==> end !in seen && !Reachable(layout, numRows, numCols, StartTile(), end)) &&
    (pathStep.Some? ==> InBounds(numRows, numCols, pathStep.value) &&
                        traced + Chain(previous, distance, pathStep.value) == Chain(previous, distance, end)) &&
    (isFinished && !pathTracing ==> traced == if end in visited then Chain(previous, distance, end) else [])
  }

  /** Every tile of `traced` is inside the grid and marked PATH. */
  ghost predicate PathMarked(cells: Cells, numRows: int, numCols: int, traced: seq<Pos>)
  {
    Shaped(cells, numRows, numCols) &&
    forall q {:trigger q in traced} | q in traced :: InBounds(numRows, numCols, q) && At(cells, q).status == Path
  }

  /**
   * The fields are `Coherent`, and the tiles `tiles` keep the walls of `layout` and mark the
   * traced tiles PATH.
   */
  ghost predicate Kept(layout: Cells, numRows: int, numCols: int, tiles: Cells, distance: map<Pos, int>,
                       previous: map<Pos, Pos>, visited: set<Pos>, seen: set<Pos>, queue: seq<Pos>,
                       pending: set<Pos>, isFinished: bool, pathTracing: bool, pathStep: Option<Pos>,
                       traced: seq<Pos>)
  {
    SameLayout(tiles, layout, numRows, numCols) && PathMarked(tiles, numRows, numCols, traced) &&
    Coherent(layout, numRows, numCols, distance, previous, visited, seen, queue, pending,
             isFinished, pathTracing, pathStep, traced)
  }

  /** The fields the constructor sets up are consistent. */
  lemma StartConsistent(layout: Cells, numRows: int, numCols: int, distance: map<Pos, int>)
    requires WellFormed(layout, numRows, numCols) && 1 <= numRows && 1 <= numCols && numRows * numCols < IntMax
    requires forall p {:trigger p in distance} :: p in distance <==> InBounds(numRows, numCols, p)
    requires forall p | p in distance :: distance[p] == if p == StartTile() then 0 else IntMax
    ensures Coherent(layout, numRows, numCols, distance, map[], {}, {StartTile()}, [StartTile()], {},
                       false, false, None, [])
  {
    assert StartTile() in distance;
  }

  /** Dropping a queued tile that was visited already keeps the fields consistent. */
  lemma SkipConsistent(layout: Cells, numRows: int, numCols: int, distance: map<Pos, int>,
                       previous: map<Pos, Pos>, visited: set<Pos>, seen: set<Pos>, queue: seq<Pos>, i: int)
    requires Coherent(layout, numRows, numCols, distance, previous, visited, seen, queue, {}, false, false, None, []) == true
    requires 0 <= i < |queue| && queue[i] in visited
    ensures Coherent(layout, numRows, numCols, distance, previous, visited, seen, queue[..i] + queue[i + 1..], {},
                       false, false, None, [])
  {
    RemoveAt(queue, i);
    var rest := queue[..i] + queue[i + 1..];
    forall j | 0 <= j < |rest|
      ensures rest[j] in seen
    {
      assert rest[j] in rest;
    }
  }

  /**
   * Visiting a polled tile that was not visited keeps the fields consistent, with that tile
   * still to expand; it is inside the grid and closer than there are visited tiles.
   */
  lemma TakeConsistent(layout: Cells, numRows: int, numCols: int, distance: map<Pos, int>,
                       previous: map<Pos, Pos>, visited: set<Pos>, seen: set<Pos>, queue: seq<Pos>, i: int)
    requires Coherent(layout, numRows, numCols, distance, previous, visited, seen, queue, {}, false, false, None, [])
    requires 0 <= i < |queue| && queue[i] !in visited
    ensures var current := queue[i];
            InBounds(numRows, numCols, current) && distance[current] < |visited + {current}| &&
            Coherent(layout, numRows, numCols, distance, previous, visited + {current}, seen,
                       queue[..i] + queue[i + 1..], {current}, false, false, None, [])
  {
    var current := queue[i];
    RemoveAt(queue, i);
    var rest := queue[..i] + queue[i + 1..];
    var visited' := visited + {current};
    assert current in seen;
    assert visited' - {current} == visited;
    forall j | 0 <= j < |rest|
      ensures rest[j] in seen
    {
      assert rest[j] in rest;
    }
    forall p | p in seen
      ensures distance[p] <= |visited'|
    {
    }
  }

  /**
   * A parent link from a visited tile `current` to an unvisited accessible neighbour `n`,
   * whose distance it lowers, keeps the parent links ordered and tied to the start.
   */
  lemma LinkedLower(layout: Cells, numRows: int, numCols: int, seen: set<Pos>, visited: set<Pos>,
                    previous: map<Pos, Pos>, distance: map<Pos, int>, current: Pos, n: Pos, alt: int)
    requires Linked(layout, numRows, numCols, seen, previous, distance)
    requires forall x {:trigger previous[x]} | x in previous :: previous[x] in visited
    requires current in visited && visited <= seen && n !in visited && n != StartTile()
    requires InBounds(numRows, numCols, current) && n in AccessibleNeighbors(layout, numRows, numCols, current)
    requires alt == distance[current] + 1
    ensures Linked(layout, numRows, numCols, seen + {n}, previous[n := current], distance[n := alt])
  {
    OpenStepAccessible(layout, numRows, numCols, current, n);
    AccessibleNeighborsMembers(layout, numRows, numCols, current);
    var previous', distance', seen' := previous[n := current], distance[n := alt], seen + {n};
    forall x | x in previous'
      ensures previous'[x] in distance' && 0 <= distance'[previous'[x]] < distance'[x]
      ensures previous'[x] in seen' && OpenStep(layout, numRows, numCols, previous'[x], x)
    {
      if x != n {
        assert previous'[x] == previous[x] && previous[x] in visited && previous[x] != n;
      }
    }
    assert Ordered(previous', distance');
  }

  /** Lowering the distance of `n` through `current` keeps the bookkeeping, and the new distance is finite. */
  lemma ExploredLower(layout: Cells, numRows: int, numCols: int, distance: map<Pos, int>,
                      previous: map<Pos, Pos>, visited: set<Pos>, seen: set<Pos>, queue: seq<Pos>,
                      current: Pos, n: Pos)
    requires Explored(layout, numRows, numCols, distance, previous, visited, seen, queue)
    requires 0 <= numCols && numRows * numCols < IntMax
    requires current in visited && distance[current] < |visited| && n !in visited
    requires InBounds(numRows, numCols, current) && InBounds(numRows, numCols, n)
    requires n in AccessibleNeighbors(layout, numRows, numCols, current)
    requires distance[current] + 1 < distance[n]
    ensures var alt := distance[current] + 1;
            alt < IntMax &&
            Explored(layout, numRows, numCols, distance[n := alt], previous[n := current], visited, seen + {n}, queue + [n])
  {
    var alt := distance[current] + 1;
    InsideCount(numRows, numCols, visited);
    assert n != StartTile();
    LinkedLower(layout, numRows, numCols, seen, visited, previous, distance, current, n, alt);
    var distance', seen', queue' := distance[n := alt], seen + {n}, queue + [n];
    forall p | p in seen'
      ensures distance'[p] <= |visited|
    {
      if p != n {
        assert p in seen;
      }
    }
    forall i | 0 <= i < |queue'|
      ensures queue'[i] in seen'
    {
      if i < |queue| {
        assert queue'[i] == queue[i];
      }
    }
    forall p | p in seen' && p !in visited
      ensures p in queue'
    {
      if p != n {
        assert p in queue;
        var j :| 0 <= j < |queue| && queue[j] == p;
        assert queue'[j] == p;
      } else {
        assert queue'[|queue|] == n;
      }
    }
  }

  /** Lowering the distance of a neighbour of the tile being expanded keeps the fields consistent. */
  lemma LowerConsistent(layout: Cells, numRows: int, numCols: int, distance: map<Pos, int>,
                        previous: map<Pos, Pos>, visited: set<Pos>, seen: set<Pos>, queue: seq<Pos>,
                        current: Pos, n: Pos, alt: int)
    requires Coherent(layout, numRows, numCols, distance, previous, visited, seen, queue, {current}, false, false, None, [])
    requires current in visited && distance[current] < |visited| && n !in visited
    requires InBounds(numRows, numCols, current) && InBounds(numRows, numCols, n)
    requires n in AccessibleNeighbors(layout, numRows, numCols, current)
    requires alt == distance[current] + 1 && alt < distance[n]
    ensures alt < IntMax
    ensures Coherent(layout, numRows, numCols, distance[n := alt], previous[n := current], visited, seen + {n},
                     queue + [n], {current}, false, false, None, [])
  {
    ExploredLower(layout, numRows, numCols, distance, previous, visited, seen, queue, current, n);
  }

  /**
   * Lowering, one after the other, the distinct accessible neighbours `pushed` of the tile being
   * expanded, all unvisited and farther than `alt`, keeps the fields consistent.
   */
  lemma {:induction false} PushedConsistent(layout: Cells, numRows: int, numCols: int, distance: map<Pos, int>,
                                            previous: map<Pos, Pos>, visited: set<Pos>, seen: set<Pos>,
                                            queue: seq<Pos>, current: Pos, pushed: seq<Pos>, alt: int)
    requires Coherent(layout, numRows, numCols, distance, previous, visited, seen, queue, {current}, false, false, None, [])
    requires current in visited && current in distance && alt == distance[current] + 1
    requires distance[current] < |visited| && InBounds(numRows, numCols, current)
    requires Distinct(pushed)
    requires forall q | q in pushed :: q in AccessibleNeighbors(layout, numRows, numCols, current) && q !in visited &&
                                      q in distance && alt < distance[q]
    ensures Coherent(layout, numRows, numCols, PutAll(distance, pushed, alt), PutAll(previous, pushed, current),
                     visited, seen + Members(pushed), queue + pushed, {current}, false, false, None, [])
    decreases |pushed|
  {
    if pushed == [] {
      assert seen + Members(pushed) == seen && queue + pushed == queue;
    } else {
      var init, n := pushed[..|pushed| - 1], pushed[|pushed| - 1];
      assert pushed == init + [n];
      assert n !in init by {
        assert forall j | 0 <= j < |init| :: init[j] == pushed[j];
      }
      PushedConsistent(layout, numRows, numCols, distance, previous, visited, seen, queue, current, init, alt);
      AccessibleNeighborsMembers(layout, numRows, numCols, current);
      PushedStep(layout, numRows, numCols, distance, previous, visited, seen, queue, current, init, n, alt);
    }
  }

  /** One more tile `n` lowered, to `alt`, after the tiles `init`. */
  lemma PushedStep(layout: Cells, numRows: int, numCols: int, distance: map<Pos, int>,
                   previous: map<Pos, Pos>, visited: set<Pos>, seen: set<Pos>,
                   queue: seq<Pos>, current: Pos, init: seq<Pos>, n: Pos, alt: int)
    requires current in visited && current in distance && current !in init && alt == distance[current] + 1
    requires Coherent(layout, numRows, numCols, PutAll(distance, init, alt), PutAll(previous, init, current),
                      visited, seen + Members(init), queue + init, {current}, false, false, None, [])
    requires distance[current] < |visited| && InBounds(numRows, numCols, current)
    requires n !in init && n in AccessibleNeighbors(layout, numRows, numCols, current) && InBounds(numRows, numCols, n)
    requires n !in visited && n in distance && alt < distance[n]
    ensures Coherent(layout, numRows, numCols, PutAll(distance, init + [n], alt), PutAll(previous, init + [n], current),
                     visited, seen + Members(init + [n]), queue + (init + [n]), {current}, false, false, None, []) == true
  {
    var d, p := PutAll(distance, init, alt), PutAll(previous, init, current);
    NotPushed(distance, init, alt, current, d);
    NotPushed(distance, init, alt, n, d);
    LowerConsistent(layout, numRows, numCols, d, p, visited, seen + Members(init), queue + init, current, n, alt);
    PushedMap(distance, init, n, alt);
    PushedMap(previous, init, n, current);
    PushedQueue(queue, seen, init, n, queue + init, seen + Members(init), init + [n], queue + init + [n], seen + Members(init) + {n});
    assert Coherent(layout, numRows, numCols, d[n := alt], p[n := current], visited, seen + Members(init) + {n},
                    queue + init + [n], {current}, false, false, None, []);
  }

  /** Once every accessible neighbour of the tile being expanded is seen, nothing is pending. */
  lemma ExpandedConsistent(layout: Cells, numRows: int, numCols: int, distance: map<Pos, int>,
                           previous: map<Pos, Pos>, visited: set<Pos>, seen: set<Pos>, queue: seq<Pos>, current: Pos)
    requires Coherent(layout, numRows, numCols, distance, previous, visited, seen, queue, {current}, false, false, None, [])
    requires current != EndTile(numRows, numCols) && InBounds(numRows, numCols, current)
    requires forall n {:trigger OpenStep(layout, numRows, numCols, current, n)} |
               OpenStep(layout, numRows, numCols, current, n) :: n in seen
    ensures Coherent(layout, numRows, numCols, distance, previous, visited, seen, queue, {}, false, false, None, [])
  {
    forall v, n | v in visited - {} && InBounds(numRows, numCols, v) && OpenStep(layout, numRows, numCols, v, n)
      ensures n in seen
    {
      if v != current {
        assert v in visited - {current};
      }
    }
  }

  /**
   * Expanding `current`: lowering to `alt = distance(current) + 1` each accessible neighbour
   * not visited and farther than `alt`, in the order of the neighbour list, leaves every visited
   * tile expanded and no distance larger than before.
   */
  lemma RelaxedConsistent(layout: Cells, numRows: int, numCols: int, distance: map<Pos, int>,
                          previous: map<Pos, Pos>, visited: set<Pos>, seen: set<Pos>, queue: seq<Pos>,
                          current: Pos, alt: int)
    requires Coherent(layout, numRows, numCols, distance, previous, visited, seen, queue, {current}, false, false, None, []) == true
    requires current in visited && current in distance && alt == distance[current] + 1
    requires distance[current] < |visited| && InBounds(numRows, numCols, current) && current != EndTile(numRows, numCols)
    ensures var pushed := Improvable(AccessibleNeighbors(layout, numRows, numCols, current), visited, distance, alt);
            Coherent(layout, numRows, numCols, PutAll(distance, pushed, alt), PutAll(previous, pushed, current),
                     visited, seen + Members(pushed), queue + pushed, {}, false, false, None, [])
    ensures var pushed := Improvable(AccessibleNeighbors(layout, numRows, numCols, current), visited, distance, alt);
            forall p | p in distance :: p in PutAll(distance, pushed, alt) && PutAll(distance, pushed, alt)[p] <= distance[p]
  {
    var ns := AccessibleNeighbors(layout, numRows, numCols, current);
    var pushed := Improvable(ns, visited, distance, alt);
    AccessibleNeighborsMembers(layout, numRows, numCols, current);
    AccessibleNeighborsDistinct(layout, numRows, numCols, current);
    ImprovableDistinct(ns, visited, distance, alt);
    ImprovableMembers(ns, visited, distance, alt);
    assert alt < IntMax by {
      InsideCount(numRows, numCols, visited);
    }
    PushedConsistent(layout, numRows, numCols, distance, previous, visited, seen, queue, current, pushed, alt);
    var distance', previous', seen', queue' := PutAll(distance, pushed, alt), PutAll(previous, pushed, current),
                                               seen + Members(pushed), queue + pushed;
    Lowered(distance, pushed, alt, distance');
    assert forall q | q in pushed :: q in seen' by {
      assert Members(pushed) <= seen';
    }
    RelaxedSeen(layout, numRows, numCols, distance', previous', visited, seen', queue', ns, distance, alt, pushed);
    forall n | OpenStep(layout, numRows, numCols, current, n)
      ensures n in seen'
    {
      OpenStepAccessible(layout, numRows, numCols, current, n);
    }
    ExpandedConsistent(layout, numRows, numCols, distance', previous', visited, seen', queue', current);
  }

  /** Lowering the improvable neighbours of the tile just visited keeps everything, with that tile expanded. */
  lemma RelaxKept(layout: Cells, numRows: int, numCols: int, tiles: Cells, distance: map<Pos, int>,
                  previous: map<Pos, Pos>, visited: set<Pos>, seen: set<Pos>, queue: seq<Pos>,
                  current: Pos, alt: int, pushed: seq<Pos>)
    requires Kept(layout, numRows, numCols, tiles, distance, previous, visited, seen, queue, {current}, false, false, None, []) == true
    requires current in visited && current in distance && alt == distance[current] + 1
    requires distance[current] < |visited| && InBounds(numRows, numCols, current) && current != EndTile(numRows, numCols)
    requires pushed == Improvable(AccessibleNeighbors(layout, numRows, numCols, current), visited, distance, alt)
    ensures Kept(layout, numRows, numCols, tiles, PutAll(distance, pushed, alt), PutAll(previous, pushed, current),
                 visited, seen + Members(pushed), queue + pushed, {}, false, false, None, [])
    ensures forall p | p in distance :: p in PutAll(distance, pushed, alt) && PutAll(distance, pushed, alt)[p] <= distance[p]
  {
    RelaxedConsistent(layout, numRows, numCols, distance, previous, visited, seen, queue, current, alt);
  }

  /** Polling the end starts the tracing at it. */
  lemma FinishConsistent(layout: Cells, numRows: int, numCols: int, distance: map<Pos, int>,
                         previous: map<Pos, Pos>, visited: set<Pos>, seen: set<Pos>, queue: seq<Pos>)
    requires Coherent(layout, numRows, numCols, distance, previous, visited, seen, queue,
                        {EndTile(numRows, numCols)}, false, false, None, []) == true
    requires EndTile(numRows, numCols) in visited
    ensures Coherent(layout, numRows, numCols, distance, previous, visited, seen, queue, {},
                       true, true, Some(EndTile(numRows, numCols)), [])
  {
  }

  /**
   * Once the queue is empty during the search, every seen tile is visited and the visited
   * tiles are closed under accessible neighbours: the end, not visited, cannot be walked to
   * from the start.
   */
  lemma ExhaustedUnreachable(layout: Cells, numRows: int, numCols: int, distance: map<Pos, int>,
                             previous: map<Pos, Pos>, visited: set<Pos>, seen: set<Pos>)
    requires Explored(layout, numRows, numCols, distance, previous, visited, seen, [])
    requires Enclosed(layout, numRows, numCols, visited, seen)
    requires EndTile(numRows, numCols) !in visited
    ensures seen == visited && EndTile(numRows, numCols) !in seen
    ensures !Reachable(layout, numRows, numCols, StartTile(), EndTile(numRows, numCols))
  {
    forall p | p in seen
      ensures p in visited
    {
      if p !in visited {
        assert false;
      }
    }
    if Reachable(layout, numRows, numCols, StartTile(), EndTile(numRows, numCols)) {
      ClosedHoldsReachable(layout, numRows, numCols, visited, EndTile(numRows, numCols));
    }
  }

  /** Running out of queued tiles starts the tracing at the end, which was not visited. */
  lemma ExhaustConsistent(layout: Cells, numRows: int, numCols: int, distance: map<Pos, int>,
                          previous: map<Pos, Pos>, visited: set<Pos>, seen: set<Pos>)
    requires Coherent(layout, numRows, numCols, distance, previous, visited, seen, [], {}, false, false, None, []) == true
    ensures EndTile(numRows, numCols) !in visited && EndTile(numRows, numCols) !in previous
    ensures !Reachable(layout, numRows, numCols, StartTile(), EndTile(numRows, numCols))
    ensures Coherent(layout, numRows, numCols, distance, previous, visited, seen, [], {},
                       true, true, Some(EndTile(numRows, numCols)), [])
  {
    assert visited - {} == visited;
    ExhaustedUnreachable(layout, numRows, numCols, distance, previous, visited, seen);
  }

  /** A tracing step from a tile with a parent: the tile joins the marked ones and the tracing moves to the parent. */
  lemma TraceOnConsistent(layout: Cells, numRows: int, numCols: int, distance: map<Pos, int>,
                          previous: map<Pos, Pos>, visited: set<Pos>, seen: set<Pos>, queue: seq<Pos>,
                          p: Pos, traced: seq<Pos>)
    requires Coherent(layout, numRows, numCols, distance, previous, visited, seen, queue, {}, true, true, Some(p), traced)
    requires p in previous
    ensures Coherent(layout, numRows, numCols, distance, previous, visited, seen, queue, {},
                       true, true, Some(previous[p]), traced + [p])
  {
    var end := EndTile(numRows, numCols);
    assert previous[p] in seen;
    assert Chain(previous, distance, p) == [p] + Chain(previous, distance, previous[p]);
    AppendAssoc(traced, [p], Chain(previous, distance, previous[p]));
  }

  /** A chain that ends at a tile without a parent ends at the start, when it begins at a reached tile. */
  lemma ChainEndsAtStart(layout: Cells, numRows: int, numCols: int, seen: set<Pos>, previous: map<Pos, Pos>,
                         distance: map<Pos, int>, traced: seq<Pos>, p: Pos, end: Pos)
    requires Linked(layout, numRows, numCols, seen, previous, distance) == true
    requires end in seen && p in distance && p !in previous
    requires traced + Chain(previous, distance, p) == Chain(previous, distance, end)
    ensures p == StartTile() && traced + [p] == Chain(previous, distance, end)
  {
    var c := Chain(previous, distance, end);
    assert Chain(previous, distance, p) == [p];
    assert c == traced + [p];
    assert c[|traced|] == p;
    ChainToStart(layout, numRows, numCols, seen, previous, distance, end);
  }

  /**
   * The last tracing step, from a tile without a parent: when the end was visited that tile
   * is the start, and marking it completes the end's chain; otherwise the tile is the
   * unreached end, which is not the start, and nothing was or is marked.
   */
  lemma TraceEndConsistent(layout: Cells, numRows: int, numCols: int, distance: map<Pos, int>,
                           previous: map<Pos, Pos>, visited: set<Pos>, seen: set<Pos>, queue: seq<Pos>,
                           p: Pos, traced: seq<Pos>)
    requires Coherent(layout, numRows, numCols, distance, previous, visited, seen, queue, {}, true, true, Some(p), traced)
    requires p !in previous
    ensures traced + (if p == StartTile() then [p] else []) ==
              if EndTile(numRows, numCols) in visited then Chain(previous, distance, EndTile(numRows, numCols)) else []
    ensures Coherent(layout, numRows, numCols, distance, previous, visited, seen, queue, {},
                     true, false, None, traced + if p == StartTile() then [p] else [])
  {
    var end := EndTile(numRows, numCols);
    if end in visited {
      ChainEndsAtStart(layout, numRows, numCols, seen, previous, distance, traced, p, end);
    } else {
      assert end !in previous && StartTile() != end;
      assert Chain(previous, distance, end) == [end];
      assert Chain(previous, distance, p) == [p];
    }
  }

  /** Marking the visited tile VISITED keeps the walls, and the traced tiles, none yet, marked. */
  lemma TakeKept(layout: Cells, numRows: int, numCols: int, tiles: Cells, distance: map<Pos, int>,
                 previous: map<Pos, Pos>, visited: set<Pos>, seen: set<Pos>, queue: seq<Pos>, i: int)
    requires Kept(layout, numRows, numCols, tiles, distance, previous, visited, seen, queue, {}, false, false, None, []) == true
    requires 0 <= i < |queue| && queue[i] !in visited
    ensures var current := queue[i];
            InBounds(numRows, numCols, current) && distance[current] < |visited + {current}| &&
            Kept(layout, numRows, numCols, WithStatus(tiles, current, Visited), distance, previous, visited + {current},
                 seen, queue[..i] + queue[i + 1..], {current}, false, false, None, [])
  {
    var current := queue[i];
    TakeConsistent(layout, numRows, numCols, distance, previous, visited, seen, queue, i);
    WithStatusLayout(tiles, numRows, numCols, current, Visited);
    SameLayoutTrans(WithStatus(tiles, current, Visited), tiles, layout, numRows, numCols);
  }

  /** Marking the tile the tracing is at PATH and moving to its parent keeps everything. */
  lemma AdvanceKept(layout: Cells, numRows: int, numCols: int, tiles: Cells, distance: map<Pos, int>,
                    previous: map<Pos, Pos>, visited: set<Pos>, seen: set<Pos>, queue: seq<Pos>,
                    p: Pos, traced: seq<Pos>, tiles': Cells, pathStep': Option<Pos>, traced': seq<Pos>)
    requires Kept(layout, numRows, numCols, tiles, distance, previous, visited, seen, queue, {}, true, true, Some(p), traced) == true
    requires p in previous && InBounds(numRows, numCols, p) && tiles' == WithStatus(tiles, p, Path)
    requires pathStep' == Some(previous[p]) && traced' == traced + [p]
    ensures Kept(layout, numRows, numCols, tiles', distance, previous, visited, seen, queue, {},
                 true, true, pathStep', traced')
  {
    TraceOnConsistent(layout, numRows, numCols, distance, previous, visited, seen, queue, p, traced);
    MarkPath(tiles, numRows, numCols, traced, p);
    WithStatusLayout(tiles, numRows, numCols, p, Path);
    SameLayoutTrans(WithStatus(tiles, p, Path), tiles, layout, numRows, numCols);
  }

  /** The last tracing step, which marks the tile PATH only if it is the start, keeps everything. */
  lemma StopKept(layout: Cells, numRows: int, numCols: int, tiles: Cells, distance: map<Pos, int>,
                 previous: map<Pos, Pos>, visited: set<Pos>, seen: set<Pos>, queue: seq<Pos>,
                 p: Pos, traced: seq<Pos>)
    requires Kept(layout, numRows, numCols, tiles, distance, previous, visited, seen, queue, {}, true, true, Some(p), traced) == true
    requires p !in previous
    ensures InBounds(numRows, numCols, p)
    ensures Kept(layout, numRows, numCols, if p == StartTile() then WithStatus(tiles, p, Path) else tiles,
                 distance, previous, visited, seen, queue, {}, true, false, None, traced + if p == StartTile() then [p] else [])
  {
    TraceEndConsistent(layout, numRows, numCols, distance, previous, visited, seen, queue, p, traced);
    if p == StartTile() {
      MarkPath(tiles, numRows, numCols, traced, p);
      WithStatusLayout(tiles, numRows, numCols, p, Path);
      SameLayoutTrans(WithStatus(tiles, p, Path), tiles, layout, numRows, numCols);
    } else {
      assert traced + [] == traced;
    }
  }

  // ----- One step, as a relation between the fields before and after -----

  /** The entry a poll takes from `queue`: the first of least distance. */
  function Polling(queue: seq<Pos>, distance: map<Pos, int>): Pos
    requires queue != [] && forall j | 0 <= j < |queue| :: queue[j] in distance
  {
    queue[Lightest(queue, distance)]
  }

  /** `queue` without the entry a poll takes. */
  function PollRest(queue: seq<Pos>, distance: map<Pos, int>): seq<Pos>
    requires queue != [] && forall j | 0 <= j < |queue| :: queue[j] in distance
  {
    var i := Lightest(queue, distance);
    queue[..i] + queue[i + 1..]
  }

  /**
   * The search branch of `step()` when the queue is not empty, between the fields before
   * (`queue0`, `visited0`, `distance0`, `previous0`, the tiles `tiles0`) and after. The first
   * tile of least distance, `current`, leaves the queue. A visited one is skipped and nothing
   * else changes. Otherwise it is visited and marked VISITED; the end starts the tracing at
   * itself; any other tile lowers to its distance plus one the distance of each accessible
   * neighbour not visited and further than that, in the order up, down, left, right, gives
   * them `current` as `previous` and queues them.
   */
  ghost predicate Polled(layout: Cells, numRows: int, numCols: int,
                         queue0: seq<Pos>, visited0: set<Pos>, distance0: map<Pos, int>, previous0: map<Pos, Pos>, tiles0: Cells,
                         queue: seq<Pos>, visited: set<Pos>, distance: map<Pos, int>, previous: map<Pos, Pos>, tiles: Cells,
                         isFinished: bool, pathTracing: bool, pathStep: Option<Pos>)
  {
    queue0 != [] && (forall j | 0 <= j < |queue0| :: queue0[j] in distance0) &&
    var current, rest := Polling(queue0, distance0), PollRest(queue0, distance0);
    (current in visited0 ==>
       !isFinished && queue == rest && visited == visited0 && distance == distance0 && previous == previous0 &&
       tiles == tiles0) &&
    (current !in visited0 ==>
       visited == visited0 + {current} && Shaped(tiles0, numRows, numCols) && InBounds(numRows, numCols, current) &&
       tiles == WithStatus(tiles0, current, Visited)) &&
    (current !in visited0 && current == EndTile(numRows, numCols) ==>
       isFinished && pathTracing && pathStep == Some(current) && queue == rest &&
       distance == distance0 && previous == previous0) &&
    (current !in visited0 && current != EndTile(numRows, numCols) ==>
       Shaped(layout, numRows, numCols) &&
       var alt := distance0[current] + 1;
       var pushed := Improvable(AccessibleNeighbors(layout, numRows, numCols, current), visited, distance0, alt);
       !isFinished && queue == rest + pushed &&
       distance == PutAll(distance0, pushed, alt) && previous == PutAll(previous0, pushed, current))
  }

  /** A visit of a tile other than the end, followed by the relaxation of its neighbours, is a poll. */
  lemma RelaxedPolled(layout: Cells, numRows: int, numCols: int,
                      queue0: seq<Pos>, visited0: set<Pos>, distance0: map<Pos, int>, previous0: map<Pos, Pos>, tiles0: Cells,
                      queue: seq<Pos>, visited: set<Pos>, distance: map<Pos, int>, previous: map<Pos, Pos>, tiles: Cells,
                      i: int, alt: int, pushed: seq<Pos>)
    requires queue0 != [] && (forall j | 0 <= j < |queue0| :: queue0[j] in distance0)
    requires i == Lightest(queue0, distance0) && queue0[i] !in visited0 && queue0[i] != EndTile(numRows, numCols)
    requires Shaped(layout, numRows, numCols) && Shaped(tiles0, numRows, numCols) && InBounds(numRows, numCols, queue0[i])
    requires visited == visited0 + {queue0[i]} && tiles == WithStatus(tiles0, queue0[i], Visited)
    requires alt == distance0[queue0[i]] + 1
    requires pushed == Improvable(AccessibleNeighbors(layout, numRows, numCols, queue0[i]), visited, distance0, alt)
    requires queue == queue0[..i] + queue0[i + 1..] + pushed
    requires distance == PutAll(distance0, pushed, alt) && previous == PutAll(previous0, pushed, queue0[i])
    ensures Polled(layout, numRows, numCols, queue0, visited0, distance0, previous0, tiles0,
                   queue, visited, distance, previous, tiles, false, false, None)
  {
  }

  /**
   * One tracing step from `p`, the tile `pathStep` was at, over the tiles `tiles0` before it:
   * a tile with a `previous` is marked PATH and the tracing moves to the parent; one without
   * is marked PATH only if it is the start, and the tracing stops.
   */
  ghost predicate Traced(p: Pos, tiles0: Cells, previous: map<Pos, Pos>, tiles: Cells,
                         pathTracing: bool, pathStep: Option<Pos>)
  {
    0 <= p.row < |tiles0| && 0 <= p.column < |tiles0[p.row]| &&
    if p in previous then
      tiles == WithStatus(tiles0, p, Path) && pathTracing && pathStep == Some(previous[p])
    else
      tiles == (if p == StartTile() then WithStatus(tiles0, p, Path) else tiles0) &&
      pathStep.None? && !pathTracing
  }

  /** `for r, for c: distance.put(tiles[r][c], Integer.MAX_VALUE)`: every tile of the grid, unreached. */
  method Unreached(numRows: int, numCols: int) returns (distance: map<Pos, int>)
    requires 0 <= numRows && 0 <= numCols
    ensures forall p {:trigger p in distance} :: p in distance <==> InBounds(numRows, numCols, p)
    ensures forall p | p in distance :: distance[p] == IntMax
  {
    distance := map[];
    for r := 0 to numRows
      invariant forall p {:trigger p in distance} :: p in distance <==> 0 <= p.row < r && 0 <= p.column < numCols
      invariant forall p | p in distance :: distance[p] == IntMax
    {
      for c := 0 to numCols
        invariant forall p {:trigger p in distance} :: p in distance <==>
                    (0 <= p.row < r && 0 <= p.column < numCols) || (p.row == r && 0 <= p.column < c)
        invariant forall p | p in distance :: distance[p] == IntMax
      {
        distance := distance[Pos(r, c) := IntMax];
      }
    }
  }
}
