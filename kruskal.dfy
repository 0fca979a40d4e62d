/**
 * `KruskalMazeGenerator`: the grid's edges in a shuffled order, consumed one per `step`; an
 * edge whose tiles are not yet connected in the disjoint set is unioned and its wall knocked
 * down. The knocked-down walls grow into a spanning tree of the grid.
 */
module Kruskal {
  import opened Enums
  import opened Wrappers
  import opened TileModel
  import opened EdgeModel
  import opened Grid
  import opened Maze
  import opened UnionFind
  import opened Carving

  /** A permutation of `0..n`: `n` indices, each in range, every one of them present. */
  predicate IsPermutation(perm: seq<int>, n: int)
  {
    |perm| == n && (forall i | 0 <= i < |perm| :: 0 <= perm[i] < n) && (forall j | 0 <= j < n :: j in perm)
  }

  /** `Collections.shuffle`, with the random permutation chosen by the caller. */
  function Shuffled(all: seq<Edge>, perm: seq<int>): (r: seq<Edge>)
    requires IsPermutation(perm, |all|)
  {
    seq(|perm|, i requires 0 <= i < |perm| => all[perm[i]])
  }

  /** Shuffling keeps the length and exactly the same edges. */
  lemma ShuffledMembers(all: seq<Edge>, perm: seq<int>)
    requires IsPermutation(perm, |all|)
    ensures |Shuffled(all, perm)| == |all|
    ensures forall e :: e in Shuffled(all, perm) <==> e in all
  {
    var r := Shuffled(all, perm);
    forall e | e in all ensures e in r {
      var j :| 0 <= j < |all| && all[j] == e;
      assert j in perm;
      var i :| 0 <= i < |perm| && perm[i] == j;
      assert r[i] == e;
    }
  }

  /** The tiles registered in the disjoint set are exactly the maze's. */
  ghost predicate Registered(parent: map<Pos, Pos>, numRows: int, numCols: int)
  {
    forall p :: p in parent <==> InBounds(numRows, numCols, p)
  }

  ghost predicate GridEdges(edges: seq<Edge>, numRows: int, numCols: int)
  {
    forall i | 0 <= i < |edges| :: IsGridEdge(numRows, numCols, edges[i])
  }

  /** `connected(a, b)` on the abstract state. */
  ghost predicate SameSet(parent: map<Pos, Pos>, rank: map<Pos, int>, bound: int, a: Pos, b: Pos)
    requires Ranked(parent, rank, bound)
  {
    a in parent && b in parent && Root(parent, rank, bound, a) == Root(parent, rank, bound, b)
  }

  /** Every carved edge is a grid edge within one set. */
  ghost predicate CarvedWithin(parent: map<Pos, Pos>, rank: map<Pos, int>, bound: int, carved: set<Edge>,
                               numRows: int, numCols: int)
    requires Ranked(parent, rank, bound)
  {
    forall e {:trigger e in carved} | e in carved ::
      IsGridEdge(numRows, numCols, e) && SameSet(parent, rank, bound, e.tile1, e.tile2)
  }

  /** Every tile is joined to its root through carved walls. */
  ghost predicate JoinedToRoot(parent: map<Pos, Pos>, rank: map<Pos, int>, bound: int, carved: set<Edge>)
    requires Ranked(parent, rank, bound)
  {
    forall p {:trigger Root(parent, rank, bound, p)} | p in parent :: Joined(carved, p, Root(parent, rank, bound, p))
  }

  /** The first `n` edges each lie within one set. */
  ghost predicate ConsumedWithin(parent: map<Pos, Pos>, rank: map<Pos, int>, bound: int, edges: seq<Edge>, n: int)
    requires Ranked(parent, rank, bound) && 0 <= n <= |edges|
  {
    forall i | 0 <= i < n :: SameSet(parent, rank, bound, edges[i].tile1, edges[i].tile2)
  }

  /**
   * What the disjoint set knows about the carved walls: the registered tiles are exactly the
   * grid's; the carved edges and the first `n` shuffled edges join tiles of one set; every
   * tile is joined to its root through carved walls; and each carved edge merged two sets, so
   * carved edges and sets add up to the number of tiles.
   */
  ghost predicate Tracks(parent: map<Pos, Pos>, rank: map<Pos, int>, bound: int, carved: set<Edge>,
                         numRows: int, numCols: int, edges: seq<Edge>, n: int)
  {
    Ranked(parent, rank, bound) && Registered(parent, numRows, numCols) && GridEdges(edges, numRows, numCols) &&
    0 <= n <= |edges| &&
    CarvedWithin(parent, rank, bound, carved, numRows, numCols) &&
    JoinedToRoot(parent, rank, bound, carved) &&
    ConsumedWithin(parent, rank, bound, edges, n) &&
    |carved| + |Roots(parent)| == numRows * numCols
  }

  /** Every tile its own set, nothing carved: the state after the constructor. */
  lemma TracksInit(parent: map<Pos, Pos>, rank: map<Pos, int>, bound: int, numRows: int, numCols: int, edges: seq<Edge>)
    requires Ranked(parent, rank, bound) && 0 <= numRows && 0 <= numCols
    requires Registered(parent, numRows, numCols) && GridEdges(edges, numRows, numCols)
    requires forall p | p in parent :: parent[p] == p
    ensures Tracks(parent, rank, bound, {}, numRows, numCols, edges, 0)
  {
    assert Roots(parent) == AllPositions(numRows, numCols) by {
      forall p ensures p in Roots(parent) <==> p in AllPositions(numRows, numCols) {
        AllPositionsMembers(numRows, numCols, p);
      }
    }
    AllPositionsCount(numRows, numCols);
    forall p | p in parent ensures Joined({}, p, Root(parent, rank, bound, p)) {
      JoinedRefl({}, p);
    }
  }

  /** After `union` of the sets rooted at `ra` and `rb`: `ra`'s tiles now have root `rb`. */
  ghost predicate Renamed(p0: map<Pos, Pos>, r0: map<Pos, int>, b0: int, p1: map<Pos, Pos>, r1: map<Pos, int>, b1: int,
                          ra: Pos, rb: Pos)
  {
    Ranked(p0, r0, b0) && Ranked(p1, r1, b1) && p1.Keys == p0.Keys &&
    forall y {:trigger Root(p1, r1, b1, y)} | y in p1 ::
      Root(p1, r1, b1, y) == if Root(p0, r0, b0, y) == ra then rb else Root(p0, r0, b0, y)
  }

  /** Renaming one root into another never separates two tiles. */
  lemma RenamedSameSet(p0: map<Pos, Pos>, r0: map<Pos, int>, b0: int, p1: map<Pos, Pos>, r1: map<Pos, int>, b1: int,
                       ra: Pos, rb: Pos, a: Pos, b: Pos)
    requires Renamed(p0, r0, b0, p1, r1, b1, ra, rb) && SameSet(p0, r0, b0, a, b)
    ensures SameSet(p1, r1, b1, a, b)
  {
  }

  lemma CarvedWithinRenamed(p0: map<Pos, Pos>, r0: map<Pos, int>, b0: int, p1: map<Pos, Pos>, r1: map<Pos, int>, b1: int,
                            ra: Pos, rb: Pos, carved: set<Edge>, numRows: int, numCols: int)
    requires Renamed(p0, r0, b0, p1, r1, b1, ra, rb) && CarvedWithin(p0, r0, b0, carved, numRows, numCols)
    ensures CarvedWithin(p1, r1, b1, carved, numRows, numCols)
  {
    forall e | e in carved ensures SameSet(p1, r1, b1, e.tile1, e.tile2) {
      RenamedSameSet(p0, r0, b0, p1, r1, b1, ra, rb, e.tile1, e.tile2);
    }
  }

  lemma ConsumedWithinRenamed(p0: map<Pos, Pos>, r0: map<Pos, int>, b0: int, p1: map<Pos, Pos>, r1: map<Pos, int>, b1: int,
                              ra: Pos, rb: Pos, edges: seq<Edge>, n: int)
    requires Renamed(p0, r0, b0, p1, r1, b1, ra, rb) && 0 <= n <= |edges| && ConsumedWithin(p0, r0, b0, edges, n)
    ensures ConsumedWithin(p1, r1, b1, edges, n)
  {
    forall i | 0 <= i < n ensures SameSet(p1, r1, b1, edges[i].tile1, edges[i].tile2) {
      RenamedSameSet(p0, r0, b0, p1, r1, b1, ra, rb, edges[i].tile1, edges[i].tile2);
    }
  }

  /** A union that renames no root moves no tile to another set, so it keeps what the sets track. */
  lemma TracksSameRoots(p0: map<Pos, Pos>, r0: map<Pos, int>, b0: int, p1: map<Pos, Pos>, r1: map<Pos, int>, b1: int,
                        z: Pos, carved: set<Edge>, numRows: int, numCols: int, edges: seq<Edge>, n: int)
    requires Tracks(p0, r0, b0, carved, numRows, numCols, edges, n)
    requires Renamed(p0, r0, b0, p1, r1, b1, z, z) && Roots(p1) == Roots(p0)
    ensures Tracks(p1, r1, b1, carved, numRows, numCols, edges, n)
  {
    CarvedWithinRenamed(p0, r0, b0, p1, r1, b1, z, z, carved, numRows, numCols);
    ConsumedWithinRenamed(p0, r0, b0, p1, r1, b1, z, z, edges, n);
    assert JoinedToRoot(p1, r1, b1, carved) by {
      forall p | p in p1 ensures Joined(carved, p, Root(p1, r1, b1, p)) {
        assert p in p0;
      }
    }
  }

  /** An edge whose tiles are already in one set is passed over. */
  lemma TracksAdvance(parent: map<Pos, Pos>, rank: map<Pos, int>, bound: int, carved: set<Edge>,
                      numRows: int, numCols: int, edges: seq<Edge>, n: int)
    requires Tracks(parent, rank, bound, carved, numRows, numCols, edges, n) && n < |edges|
    requires SameSet(parent, rank, bound, edges[n].tile1, edges[n].tile2)
    ensures Tracks(parent, rank, bound, carved, numRows, numCols, edges, n + 1)
  {
    assert ConsumedWithin(parent, rank, bound, edges, n + 1) by {
      forall i | 0 <= i < n + 1 ensures SameSet(parent, rank, bound, edges[i].tile1, edges[i].tile2) {
        if i < n {
        }
      }
    }
  }

  /** After the union of the sets of edge `e`'s tiles, `e` and every carved edge lie within one set. */
  lemma UnionCarvedWithin(p0: map<Pos, Pos>, r0: map<Pos, int>, b0: int, p1: map<Pos, Pos>, r1: map<Pos, int>, b1: int,
                          carved: set<Edge>, numRows: int, numCols: int, e: Edge)
    requires Ranked(p0, r0, b0) && CarvedWithin(p0, r0, b0, carved, numRows, numCols)
    requires e.tile1 in p0 && e.tile2 in p0 && IsGridEdge(numRows, numCols, e)
    requires Renamed(p0, r0, b0, p1, r1, b1, Root(p0, r0, b0, e.tile1), Root(p0, r0, b0, e.tile2))
    ensures CarvedWithin(p1, r1, b1, carved + {e}, numRows, numCols)
  {
    CarvedWithinRenamed(p0, r0, b0, p1, r1, b1, Root(p0, r0, b0, e.tile1), Root(p0, r0, b0, e.tile2), carved, numRows, numCols);
    assert SameSet(p1, r1, b1, e.tile1, e.tile2);
  }

  /** After the union of the sets of `edges[n]`'s tiles, the first `n + 1` edges lie within one set. */
  lemma UnionConsumedWithin(p0: map<Pos, Pos>, r0: map<Pos, int>, b0: int, p1: map<Pos, Pos>, r1: map<Pos, int>, b1: int,
                            edges: seq<Edge>, n: int)
    requires Ranked(p0, r0, b0) && 0 <= n < |edges| && ConsumedWithin(p0, r0, b0, edges, n)
    requires edges[n].tile1 in p0 && edges[n].tile2 in p0
    requires Renamed(p0, r0, b0, p1, r1, b1, Root(p0, r0, b0, edges[n].tile1), Root(p0, r0, b0, edges[n].tile2))
    ensures ConsumedWithin(p1, r1, b1, edges, n + 1)
  {
    var ra, rb := Root(p0, r0, b0, edges[n].tile1), Root(p0, r0, b0, edges[n].tile2);
    ConsumedWithinRenamed(p0, r0, b0, p1, r1, b1, ra, rb, edges, n);
    forall i | 0 <= i < n + 1 ensures SameSet(p1, r1, b1, edges[i].tile1, edges[i].tile2) {
      if i < n {
      }
    }
  }

  /** After the union of the sets of `e`'s tiles and carving `e`, every tile is joined to its new root. */
  lemma UnionJoinedToRoot(p0: map<Pos, Pos>, r0: map<Pos, int>, b0: int, p1: map<Pos, Pos>, r1: map<Pos, int>, b1: int,
                          carved: set<Edge>, e: Edge)
    requires Ranked(p0, r0, b0) && JoinedToRoot(p0, r0, b0, carved)
    requires e.tile1 in p0 && e.tile2 in p0
    requires Renamed(p0, r0, b0, p1, r1, b1, Root(p0, r0, b0, e.tile1), Root(p0, r0, b0, e.tile2))
    ensures JoinedToRoot(p1, r1, b1, carved + {e})
  {
    var ra, rb := Root(p0, r0, b0, e.tile1), Root(p0, r0, b0, e.tile2);
    forall p | p in p1 ensures Joined(carved + {e}, p, Root(p1, r1, b1, p)) {
      assert p in p0;
      JoinedThroughEdge(carved, e, p, Root(p0, r0, b0, p), ra, rb);
    }
  }

  /**
   * An edge between two sets is unioned and carved: the sets after `union` still match the
   * carved walls, with one edge more and one set less.
   */
  lemma TracksUnion(p0: map<Pos, Pos>, r0: map<Pos, int>, b0: int, p1: map<Pos, Pos>, r1: map<Pos, int>, b1: int,
                    carved: set<Edge>, more: set<Edge>, numRows: int, numCols: int, edges: seq<Edge>, n: int)
    requires Tracks(p0, r0, b0, carved, numRows, numCols, edges, n) && n < |edges| && more == carved + {edges[n]}
    requires edges[n].tile1 in p0 && edges[n].tile2 in p0
    requires !SameSet(p0, r0, b0, edges[n].tile1, edges[n].tile2)
    requires Renamed(p0, r0, b0, p1, r1, b1, Root(p0, r0, b0, edges[n].tile1), Root(p0, r0, b0, edges[n].tile2))
    requires |Roots(p1)| == |Roots(p0)| - 1
    ensures Tracks(p1, r1, b1, more, numRows, numCols, edges, n + 1)
  {
    var e := edges[n];
    assert e !in carved;
    assert |carved + {e}| == |carved| + 1;
    UnionCarvedWithin(p0, r0, b0, p1, r1, b1, carved, numRows, numCols, e);
    UnionConsumedWithin(p0, r0, b0, p1, r1, b1, edges, n);
    UnionJoinedToRoot(p0, r0, b0, p1, r1, b1, carved, e);
  }

  /** A tile joined to root `r` is, once edge `e` is carved, joined to `r` renamed by the union. */
  lemma JoinedThroughEdge(carved: set<Edge>, e: Edge, p: Pos, r: Pos, ra: Pos, rb: Pos)
    requires Joined(carved, p, r) && Joined(carved, e.tile1, ra) && Joined(carved, e.tile2, rb)
    ensures Joined(carved + {e}, p, if r == ra then rb else r)
  {
    var more := carved + {e};
    JoinedMono(carved, more, p, r);
    if r == ra {
      JoinedMono(carved, more, e.tile1, ra);
      JoinedSym(more, e.tile1, ra);
      JoinedEdge(more, e.tile1, e.tile2);
      JoinedMono(carved, more, e.tile2, rb);
      JoinedTrans(more, p, ra, e.tile1);
      JoinedTrans(more, p, e.tile1, e.tile2);
      JoinedTrans(more, p, e.tile2, rb);
    }
  }

  /** The tiles joined by carved walls are exactly the tiles of one set. */
  lemma SetsAreComponents(parent: map<Pos, Pos>, rank: map<Pos, int>, bound: int, carved: set<Edge>,
                          numRows: int, numCols: int, edges: seq<Edge>, n: int, p: Pos, q: Pos)
    requires Tracks(parent, rank, bound, carved, numRows, numCols, edges, n)
    requires InBounds(numRows, numCols, p) && InBounds(numRows, numCols, q)
    ensures Root(parent, rank, bound, p) == Root(parent, rank, bound, q) <==> Joined(carved, p, q)
  {
    var rp, rq := Root(parent, rank, bound, p), Root(parent, rank, bound, q);
    if rp == rq {
      JoinedSym(carved, q, rq);
      JoinedTrans(carved, p, rp, q);
    }
    if Joined(carved, p, q) {
      var labels := map y | y in parent :: Root(parent, rank, bound, y);
      JoinedSameLabel(carved, labels, p, q);
    }
  }

  /** Some set always remains, so at most R·C − 1 walls are ever carved. */
  lemma CarvedAtMost(parent: map<Pos, Pos>, rank: map<Pos, int>, bound: int, carved: set<Edge>,
                     numRows: int, numCols: int, edges: seq<Edge>, n: int)
    requires Tracks(parent, rank, bound, carved, numRows, numCols, edges, n)
    requires 1 <= numRows && 1 <= numCols
    ensures |carved| <= numRows * numCols - 1
  {
    assert InBounds(numRows, numCols, Pos(0, 0));
    RootIsRoot(parent, rank, bound, Pos(0, 0));
    assert Root(parent, rank, bound, Pos(0, 0)) in Roots(parent);
  }

  /**
   * Once every edge of the grid has been consumed, one set is left and exactly R·C − 1 walls
   * are carved, joining every tile to every other: the carved walls form a spanning tree.
   */
  lemma TracksComplete(parent: map<Pos, Pos>, rank: map<Pos, int>, bound: int, carved: set<Edge>,
                       numRows: int, numCols: int, edges: seq<Edge>)
    requires Tracks(parent, rank, bound, carved, numRows, numCols, edges, |edges|)
    requires forall e | e in Edges(numRows, numCols) :: e in edges
    requires 1 <= numRows && 1 <= numCols
    ensures |Roots(parent)| == 1 && |carved| == numRows * numCols - 1
    ensures forall p | InBounds(numRows, numCols, p) :: Root(parent, rank, bound, p) == Root(parent, rank, bound, Pos(0, 0))
    ensures forall p, q {:trigger Joined(carved, p, q)} | InBounds(numRows, numCols, p) && InBounds(numRows, numCols, q) ::
              Joined(carved, p, q)
  {
    var labels := map y | y in parent :: Root(parent, rank, bound, y);
    forall e | e in Edges(numRows, numCols)
      ensures e.tile1 in labels && e.tile2 in labels && labels[e.tile1] == labels[e.tile2]
    {
      var i :| 0 <= i < |edges| && edges[i] == e;
    }
    var origin := Pos(0, 0);
    assert InBounds(numRows, numCols, origin);
    var top := Root(parent, rank, bound, origin);
    forall p | InBounds(numRows, numCols, p) ensures Root(parent, rank, bound, p) == top {
      EdgesConnect(numRows, numCols, labels, p);
    }
    assert Roots(parent) == {top} by {
      RootIsRoot(parent, rank, bound, origin);
      forall r | r in Roots(parent) ensures r == top {
        assert Root(parent, rank, bound, r) == r;
      }
    }
    forall p, q | InBounds(numRows, numCols, p) && InBounds(numRows, numCols, q)
      ensures Joined(carved, p, q)
    {
      SetsAreComponents(parent, rank, bound, carved, numRows, numCols, edges, |edges|, p, q);
    }
  }

  /** The generator: the shuffled edges, a cursor into them and the disjoint set of tiles. */
  class KruskalMazeGenerator {
    var currentIndex: int
    var edges: seq<Edge>
    const disjointSet: DisjointSet
    /** The maze whose tiles the edges refer to and whose walls `step` knocks down. */
    const maze: MazeModel
    /** The maze's tiles when the generator was built. */
    ghost const initial: Cells
    /** The edges whose wall `step` has knocked down so far. */
    ghost var carved: set<Edge>

    ghost predicate Valid()
      reads this, maze, disjointSet
    {
      maze.Valid() && disjointSet.Valid() &&
      |edges| == |Edges(maze.numRows, maze.numCols)| &&
      (forall e | e in Edges(maze.numRows, maze.numCols) :: e in edges) &&
      WellFormed(initial, maze.numRows, maze.numCols) &&
      CarvedFrom(maze.tiles, initial, maze.numRows, maze.numCols, carved) &&
      Tracks(disjointSet.parent, disjointSet.rank, disjointSet.bound, carved, maze.numRows, maze.numCols,
             edges, currentIndex)
    }

    /**
     * The constructor: the maze's edges in the order the shuffle `perm` gives them, and every
     * tile of the maze made a set of its own.
     */
    constructor(maze: MazeModel, perm: seq<int>)
      requires maze.Valid() && IsPermutation(perm, |Edges(maze.numRows, maze.numCols)|)
      ensures Valid() && fresh(disjointSet)
      ensures this.maze == maze && maze.tiles == old(maze.tiles) && initial == maze.tiles
      ensures edges == Shuffled(Edges(maze.numRows, maze.numCols), perm) && currentIndex == 0
      ensures carved == {}
      ensures forall p | InBounds(maze.numRows, maze.numCols, p) ::
                p in disjointSet.parent && disjointSet.RootOf(p) == p
    {
      var ds := new DisjointSet();
      var all := maze.GetEdges();
      ShuffledMembers(all, perm);
      var shuffled := Shuffled(all, perm);
      for row := 0 to maze.numRows
        invariant ds.Valid()
        invariant forall p :: p in ds.parent <==> InBounds(row, maze.numCols, p)
        invariant forall p | p in ds.parent :: ds.parent[p] == p
      {
        for column := 0 to maze.numCols
          invariant ds.Valid()
          invariant forall p {:trigger p in ds.parent} {:trigger InBounds(row, maze.numCols, p)} :: p in ds.parent <==>
                                  InBounds(row, maze.numCols, p) || (p.row == row && 0 <= p.column < column)
          invariant forall p | p in ds.parent :: ds.parent[p] == p
        {
          var tile := At(maze.tiles, Pos(row, column));
          ds.MakeSet(Pos(tile.row, tile.column));
        }
      }
      this.maze := maze;
      disjointSet := ds;
      edges := shuffled;
      currentIndex := 0;
      initial := maze.tiles;
      carved := {};
      new;
      forall i | 0 <= i < |shuffled| ensures IsGridEdge(maze.numRows, maze.numCols, shuffled[i]) {
        EdgesMembers(maze.numRows, maze.numCols, shuffled[i]);
      }
      TracksInit(ds.parent, ds.rank, ds.bound, maze.numRows, maze.numCols, shuffled);
      CarvedFromNothing(maze.tiles, maze.numRows, maze.numCols);
    }

    /** `isComplete`: every edge has been consumed. */
    predicate IsComplete()
      reads this
    {
      currentIndex >= |edges|
    }

    /**
     * `if (!connected(a, b)) union(a, b)`: `merged` tells whether the two tiles were in
     * different sets, whose roots the union then renames.
     */
    method Join(a: Pos, b: Pos) returns (merged: bool)
      requires disjointSet.Valid() && a in disjointSet.parent && b in disjointSet.parent
      modifies disjointSet
      ensures disjointSet.Valid()
      ensures merged == old(disjointSet.RootOf(a) != disjointSet.RootOf(b))
      ensures Renamed(old(disjointSet.parent), old(disjointSet.rank), old(disjointSet.bound),
                      disjointSet.parent, disjointSet.rank, disjointSet.bound, old(disjointSet.RootOf(a)),
                      if merged then old(disjointSet.RootOf(b)) else old(disjointSet.RootOf(a)))
      ensures merged ==> |Roots(disjointSet.parent)| == old(|Roots(disjointSet.parent)|) - 1
      ensures !merged ==> Roots(disjointSet.parent) == old(Roots(disjointSet.parent))
    {
      ghost var p0, r0, b0 := disjointSet.parent, disjointSet.rank, disjointSet.bound;
      ghost var ra, rb := disjointSet.RootOf(a), disjointSet.RootOf(b);
      label before:
      var connected := disjointSet.Connected(a, b);
      merged := !connected;
      ghost var p1, r1, b1 := disjointSet.parent, disjointSet.rank, disjointSet.bound;
      forall y {:trigger Root(p1, r1, b1, y)} | y in p1 ensures Root(p1, r1, b1, y) == Root(p0, r0, b0, y) {
        assert disjointSet.RootOf(y) == old@before(disjointSet.RootOf(y));
      }
      if merged {
        label merging:
        disjointSet.Union(a, b);
        forall y {:trigger Root(disjointSet.parent, disjointSet.rank, disjointSet.bound, y)} | y in disjointSet.parent
          ensures Root(disjointSet.parent, disjointSet.rank, disjointSet.bound, y) ==
                  if Root(p0, r0, b0, y) == ra then rb else Root(p0, r0, b0, y)
        {
          assert disjointSet.RootOf(y) ==
                 if old@merging(disjointSet.RootOf(y)) == old@merging(disjointSet.RootOf(a))
                 then old@merging(disjointSet.RootOf(b)) else old@merging(disjointSet.RootOf(y));
        }
      }
    }

    /**
     * The wall between the two tiles of `e` is removed on both sides and both tiles are
     * marked visited.
     */
    method KnockDown(e: Edge)
      requires maze.Valid() && IsGridEdge(maze.numRows, maze.numCols, e)
      requires CarvedFrom(maze.tiles, initial, maze.numRows, maze.numCols, carved)
      modifies maze, this`carved
      ensures maze.Valid() && InCells(old(maze.tiles), e) && maze.tiles == Carve(old(maze.tiles), e)
      ensures carved == old(carved) + {e}
      ensures CarvedFrom(maze.tiles, initial, maze.numRows, maze.numCols, carved)
    {
      CarvePreserves(maze.tiles, initial, maze.numRows, maze.numCols, carved, e);
      maze.tiles := Carve(maze.tiles, e);
      carved := carved + {e};
    }

    /**
     * The wall of edge `e`, whose tiles were in different sets before the union that has just
     * merged them, is knocked down; the generator again tracks the edges consumed so far.
     */
    method Unite(e: Edge, ghost n: int, ghost p0: map<Pos, Pos>, ghost r0: map<Pos, int>, ghost b0: int)
      requires maze.Valid() && disjointSet.Valid() && IsGridEdge(maze.numRows, maze.numCols, e)
      requires CarvedFrom(maze.tiles, initial, maze.numRows, maze.numCols, carved)
      requires Tracks(p0, r0, b0, carved, maze.numRows, maze.numCols, edges, n) && n < |edges| && edges[n] == e
      requires e.tile1 in p0 && e.tile2 in p0 && !SameSet(p0, r0, b0, e.tile1, e.tile2)
      requires Renamed(p0, r0, b0, disjointSet.parent, disjointSet.rank, disjointSet.bound,
                       Root(p0, r0, b0, e.tile1), Root(p0, r0, b0, e.tile2))
      requires |Roots(disjointSet.parent)| == |Roots(p0)| - 1
      modifies maze, this`carved
      ensures maze.Valid() && maze.tiles == Carve(old(maze.tiles), e) && carved == old(carved) + {e}
      ensures CarvedFrom(maze.tiles, initial, maze.numRows, maze.numCols, carved)
      ensures Tracks(disjointSet.parent, disjointSet.rank, disjointSet.bound, carved, maze.numRows, maze.numCols,
                     edges, n + 1)
    {
      ghost var c0 := carved;
      KnockDown(e);
      TracksUnion(p0, r0, b0, disjointSet.parent, disjointSet.rank, disjointSet.bound, c0, carved,
                  maze.numRows, maze.numCols, edges, n);
    }

    /**
     * `step`: nothing to do once complete. Otherwise the next edge is consumed; when its
     * tiles are in different sets they are unioned, the wall between them is knocked down on
     * both sides and both tiles are marked visited, otherwise walls and sets stay as they are.
     */
    method Step() returns (progressed: bool)
      requires Valid()
      modifies this, maze, disjointSet
      ensures Valid()
      ensures edges == old(edges)
      ensures progressed == !old(IsComplete())
      ensures !progressed ==> currentIndex == old(currentIndex) && maze.tiles == old(maze.tiles) &&
                              disjointSet.parent == old(disjointSet.parent) && carved == old(carved)
      ensures progressed ==> currentIndex == old(currentIndex) + 1
      ensures progressed && old(disjointSet.RootOf(edges[currentIndex].tile1) == disjointSet.RootOf(edges[currentIndex].tile2)) ==>
                maze.tiles == old(maze.tiles) && carved == old(carved) &&
                Roots(disjointSet.parent) == old(Roots(disjointSet.parent))
      ensures progressed && old(disjointSet.RootOf(edges[currentIndex].tile1) != disjointSet.RootOf(edges[currentIndex].tile2)) ==>
                maze.tiles == Carve(old(maze.tiles), old(edges[currentIndex])) &&
                carved == old(carved) + {old(edges[currentIndex])} &&
                |Roots(disjointSet.parent)| == old(|Roots(disjointSet.parent)|) - 1
    {
      if currentIndex >= |edges| {
        return false;
      }
      var e := edges[currentIndex];
      ghost var n := currentIndex;
      ghost var p0, r0, b0 := disjointSet.parent, disjointSet.rank, disjointSet.bound;
      assert IsGridEdge(maze.numRows, maze.numCols, e);
      assert InBounds(maze.numRows, maze.numCols, e.tile2) by {
        var d := Crossing(maze.numRows, maze.numCols, e);
      }
      currentIndex := currentIndex + 1;
      var merged := Join(e.tile1, e.tile2);
      if merged {
        Unite(e, n, p0, r0, b0);
      } else {
        TracksSameRoots(p0, r0, b0, disjointSet.parent, disjointSet.rank, disjointSet.bound, Root(p0, r0, b0, e.tile1),
                        carved, maze.numRows, maze.numCols, edges, n);
        TracksAdvance(disjointSet.parent, disjointSet.rank, disjointSet.bound, carved, maze.numRows, maze.numCols, edges, n);
      }
      progressed := true;
    }

    /**
     * Invariant of the generator: two tiles are in the same set exactly when the walls knocked
     * down so far join them, and at most R·C − 1 walls have been knocked down.
     */
    lemma SetsMatchCarvedWalls(p: Pos, q: Pos)
      requires Valid() && InBounds(maze.numRows, maze.numCols, p) && InBounds(maze.numRows, maze.numCols, q)
      ensures p in disjointSet.parent && q in disjointSet.parent
      ensures disjointSet.RootOf(p) == disjointSet.RootOf(q) <==> Joined(carved, p, q)
      ensures maze.numCols >= 1 ==> |carved| <= maze.numRows * maze.numCols - 1
    {
      SetsAreComponents(disjointSet.parent, disjointSet.rank, disjointSet.bound, carved, maze.numRows,
                        maze.numCols, edges, currentIndex, p, q);
      if maze.numCols >= 1 {
        CarvedAtMost(disjointSet.parent, disjointSet.rank, disjointSet.bound, carved, maze.numRows,
                     maze.numCols, edges, currentIndex);
      }
    }

    /**
     * At completion all tiles share one root and exactly R·C − 1 walls have been knocked down,
     * joining every pair of tiles: a spanning tree. The walls of the maze are its initial
     * walls minus exactly those, on both sides.
     */
    lemma SpanningTree()
      requires Valid() && IsComplete() && maze.numCols >= 1
      ensures |Roots(disjointSet.parent)| == 1
      ensures |carved| == maze.numRows * maze.numCols - 1
      ensures forall p | InBounds(maze.numRows, maze.numCols, p) ::
                p in disjointSet.parent && disjointSet.RootOf(p) == disjointSet.RootOf(Pos(0, 0))
      ensures forall p, q {:trigger Joined(carved, p, q)} | InBounds(maze.numRows, maze.numCols, p) && InBounds(maze.numRows, maze.numCols, q) ::
                Joined(carved, p, q)
      ensures Mirrored(initial, maze.numRows, maze.numCols) ==> Mirrored(maze.tiles, maze.numRows, maze.numCols)
    {
      TracksComplete(disjointSet.parent, disjointSet.rank, disjointSet.bound, carved, maze.numRows,
                     maze.numCols, edges);
      if Mirrored(initial, maze.numRows, maze.numCols) {
        CarvedMirrored(maze.tiles, initial, maze.numRows, maze.numCols, carved);
      }
    }
  }
}
