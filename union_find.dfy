/**
 * `DisjointSet`: a parent map over tiles with path compression in `find` and linking of one
 * root under the other in `union`. Tiles are identified by their position.
 *
 * The map holds no ranks; termination of the parent walk is argued with a ghost rank that
 * strictly increases from a node to its parent, bounded by a ghost `bound`.
 */
module UnionFind {
  import opened TileModel

  /**
   * Every registered node's parent is registered; ranks lie in `0..bound` and strictly increase
   * from a node that is not a root to its parent.
   */
  ghost predicate Ranked(parent: map<Pos, Pos>, rank: map<Pos, int>, bound: int)
  {
    0 <= bound && parent.Values <= parent.Keys && parent.Keys <= rank.Keys &&
    (forall y {:trigger rank[y]} | y in rank :: 0 <= rank[y] <= bound) &&
    (forall x {:trigger parent[x]} | x in parent && parent[x] != x :: rank[x] < rank[parent[x]])
  }

  /** The root reached from `x` by following parents: what `find(x)` returns. */
  ghost function Root(parent: map<Pos, Pos>, rank: map<Pos, int>, bound: int, x: Pos): Pos
    requires Ranked(parent, rank, bound) && x in parent
    decreases bound - rank[x]
  {
    if parent[x] == x then x else Root(parent, rank, bound, parent[x])
  }

  /** The nodes visited from `x` up to its root, both included. */
  ghost function PathTo(parent: map<Pos, Pos>, rank: map<Pos, int>, bound: int, x: Pos): set<Pos>
    requires Ranked(parent, rank, bound) && x in parent
    decreases bound - rank[x]
  {
    if parent[x] == x then {x} else {x} + PathTo(parent, rank, bound, parent[x])
  }

  /** The representatives: registered nodes that are their own parent. */
  ghost function Roots(parent: map<Pos, Pos>): set<Pos>
  {
    set x | x in parent && parent[x] == x
  }

  /**
   * The root is registered, is its own parent, lies on the path, and is its own root, so
   * `find(find(x)) == find(x)`; below the root the rank strictly increases towards it.
   */
  lemma {:induction false} RootIsRoot(parent: map<Pos, Pos>, rank: map<Pos, int>, bound: int, x: Pos)
    requires Ranked(parent, rank, bound) && x in parent
    ensures Root(parent, rank, bound, x) in parent
    ensures parent[Root(parent, rank, bound, x)] == Root(parent, rank, bound, x)
    ensures Root(parent, rank, bound, Root(parent, rank, bound, x)) == Root(parent, rank, bound, x)
    ensures Root(parent, rank, bound, x) in PathTo(parent, rank, bound, x)
    ensures Root(parent, rank, bound, x) != x ==> rank[x] < rank[Root(parent, rank, bound, x)]
    decreases bound - rank[x]
  {
    if parent[x] != x {
      RootIsRoot(parent, rank, bound, parent[x]);
    }
  }

  /** Every node on the walk up from `x` is registered and has the same root as `x`. */
  lemma {:induction false} PathToSameRoot(parent: map<Pos, Pos>, rank: map<Pos, int>, bound: int, x: Pos, y: Pos)
    requires Ranked(parent, rank, bound) && x in parent && y in PathTo(parent, rank, bound, x)
    ensures y in parent && Root(parent, rank, bound, y) == Root(parent, rank, bound, x)
    decreases bound - rank[x]
  {
    if y != x {
      PathToSameRoot(parent, rank, bound, parent[x], y);
    }
  }

  /** The root does not depend on the ghost ranks used to reach it. */
  lemma {:induction false} RootIndependent(parent: map<Pos, Pos>, rank1: map<Pos, int>, bound1: int,
                                           rank2: map<Pos, int>, bound2: int, x: Pos)
    requires Ranked(parent, rank1, bound1) && Ranked(parent, rank2, bound2) && x in parent
    ensures Root(parent, rank1, bound1, x) == Root(parent, rank2, bound2, x)
    decreases bound1 - rank1[x]
  {
    if parent[x] != x {
      RootIndependent(parent, rank1, bound1, rank2, bound2, parent[x]);
    }
  }

  /**
   * The parent map after `find(x)`: the parent's walk is compressed first, then `x` is
   * pointed at the root.
   */
  ghost function Compressed(parent: map<Pos, Pos>, rank: map<Pos, int>, bound: int, x: Pos): (c: map<Pos, Pos>)
    requires Ranked(parent, rank, bound) && x in parent
    ensures c.Keys == parent.Keys
    decreases bound - rank[x]
  {
    if parent[x] == x then parent
    else Compressed(parent, rank, bound, parent[x])[x := Root(parent, rank, bound, x)]
  }

  /**
   * After compression from `x`, exactly the nodes on `x`'s walk up point at its root; every
   * other node keeps its parent.
   */
  lemma {:induction false} CompressedAt(parent: map<Pos, Pos>, rank: map<Pos, int>, bound: int, x: Pos, y: Pos)
    requires Ranked(parent, rank, bound) && x in parent && y in parent
    ensures y in Compressed(parent, rank, bound, x)
    ensures Compressed(parent, rank, bound, x)[y] ==
              if y in PathTo(parent, rank, bound, x) then Root(parent, rank, bound, x) else parent[y]
    decreases bound - rank[x]
  {
    if parent[x] != x {
      CompressedAt(parent, rank, bound, parent[x], y);
    }
  }

  /** Compression keeps the ranks valid. */
  lemma {:induction false} CompressedRanked(parent: map<Pos, Pos>, rank: map<Pos, int>, bound: int, x: Pos)
    requires Ranked(parent, rank, bound) && x in parent
    ensures Ranked(Compressed(parent, rank, bound, x), rank, bound)
  {
    var c := Compressed(parent, rank, bound, x);
    var root := Root(parent, rank, bound, x);
    RootIsRoot(parent, rank, bound, x);
    forall y | y in c
      ensures c[y] in c && (c[y] != y ==> rank[y] < rank[c[y]])
    {
      CompressedAt(parent, rank, bound, x, y);
      if y in PathTo(parent, rank, bound, x) {
        PathToSameRoot(parent, rank, bound, x, y);
        RootIsRoot(parent, rank, bound, y);
      } else {
        assert parent[y] in parent.Values;
      }
    }
    assert c.Values <= c.Keys by {
      forall v | v in c.Values ensures v in c {
        var u :| u in c && c[u] == v;
      }
    }
  }

  /** Compression changes no node's root. */
  lemma {:induction false} CompressedRoot(parent: map<Pos, Pos>, rank: map<Pos, int>, bound: int, x: Pos, y: Pos)
    requires Ranked(parent, rank, bound) && x in parent && y in parent
    ensures Ranked(Compressed(parent, rank, bound, x), rank, bound)
    ensures Root(Compressed(parent, rank, bound, x), rank, bound, y) == Root(parent, rank, bound, y)
    decreases bound - rank[y]
  {
    CompressedRanked(parent, rank, bound, x);
    var c := Compressed(parent, rank, bound, x);
    var root := Root(parent, rank, bound, x);
    CompressedAt(parent, rank, bound, x, y);
    if y in PathTo(parent, rank, bound, x) {
      RootIsRoot(parent, rank, bound, x);
      PathToSameRoot(parent, rank, bound, x, y);
      CompressedAt(parent, rank, bound, x, root);
      assert c[root] == root;
      assert Root(c, rank, bound, root) == root;
    } else if parent[y] != y {
      CompressedRoot(parent, rank, bound, x, parent[y]);
    }
  }

  /** Compression keeps the set of roots. */
  lemma {:induction false} CompressedRootSet(parent: map<Pos, Pos>, rank: map<Pos, int>, bound: int, x: Pos)
    requires Ranked(parent, rank, bound) && x in parent
    ensures Roots(Compressed(parent, rank, bound, x)) == Roots(parent)
  {
    var c := Compressed(parent, rank, bound, x);
    forall y {:trigger c[y]} | y in parent
      ensures c[y] == y <==> parent[y] == y
    {
      CompressedAt(parent, rank, bound, x, y);
      if y in PathTo(parent, rank, bound, x) {
        RootIsRoot(parent, rank, bound, x);
        PathToSameRoot(parent, rank, bound, x, y);
        RootIsRoot(parent, rank, bound, y);
      }
    }
  }

  /** The ranks after linking root `r1` under root `r2`: `r2` rises above `r1` if needed. */
  ghost function LinkRank(rank: map<Pos, int>, r1: Pos, r2: Pos): map<Pos, int>
    requires r1 in rank && r2 in rank
  {
    rank[r2 := if rank[r2] > rank[r1] then rank[r2] else rank[r1] + 1]
  }

  /** The bound after linking root `r1` under root `r2`. */
  ghost function LinkBound(rank: map<Pos, int>, bound: int, r1: Pos): int
    requires r1 in rank
  {
    if bound > rank[r1] then bound else rank[r1] + 1
  }

  /** Linking root `r1` under a different root `r2` keeps the ranks valid. */
  lemma {:induction false} LinkRanked(parent: map<Pos, Pos>, rank: map<Pos, int>, bound: int, r1: Pos, r2: Pos)
    requires Ranked(parent, rank, bound) && r1 in parent && r2 in parent
    requires parent[r1] == r1 && parent[r2] == r2 && r1 != r2
    ensures Ranked(parent[r1 := r2], LinkRank(rank, r1, r2), LinkBound(rank, bound, r1))
  {
  }

  /**
   * Linking root `r1` under a different root `r2` sends every node of `r1`'s set to `r2`
   * and leaves every other node's root alone.
   */
  lemma {:induction false} LinkRoots(parent: map<Pos, Pos>, rank: map<Pos, int>, bound: int, r1: Pos, r2: Pos, y: Pos)
    requires Ranked(parent, rank, bound) && r1 in parent && r2 in parent && y in parent
    requires parent[r1] == r1 && parent[r2] == r2 && r1 != r2
    ensures Ranked(parent[r1 := r2], LinkRank(rank, r1, r2), LinkBound(rank, bound, r1))
    ensures Root(parent[r1 := r2], LinkRank(rank, r1, r2), LinkBound(rank, bound, r1), y) ==
              if Root(parent, rank, bound, y) == r1 then r2 else Root(parent, rank, bound, y)
    decreases bound - rank[y]
  {
    LinkRanked(parent, rank, bound, r1, r2);
    var parent', rank', bound' := parent[r1 := r2], LinkRank(rank, r1, r2), LinkBound(rank, bound, r1);
    if parent[y] == y {
      if y == r1 {
        assert Root(parent', rank', bound', r2) == r2;
      }
    } else {
      LinkRoots(parent, rank, bound, r1, r2, parent[y]);
    }
  }

  /** Linking one root under another removes exactly that root from the roots. */
  lemma {:induction false} LinkRootSet(parent: map<Pos, Pos>, r1: Pos, r2: Pos)
    requires r1 in parent && r2 in parent && parent[r1] == r1 && parent[r2] == r2 && r1 != r2
    ensures Roots(parent[r1 := r2]) == Roots(parent) - {r1}
  {
  }

  /** The parent map of `DisjointSet`, with the ghost ranks that order it. */
  class DisjointSet {
    var parent: map<Pos, Pos>
    ghost var rank: map<Pos, int>
    ghost var bound: int

    ghost predicate Valid()
      reads this
    {
      Ranked(parent, rank, bound)
    }

    /** The root of `x` in the current map. */
    ghost function RootOf(x: Pos): Pos
      requires Valid() && x in parent
      reads this
    {
      Root(parent, rank, bound, x)
    }

    /** An empty disjoint set. */
    constructor()
      ensures Valid() && parent == map[]
    {
      parent := map[];
      rank := map[];
      bound := 0;
    }

    /** `makeSet(tile)`: the tile becomes its own parent, hence its own root. */
    method MakeSet(t: Pos)
      requires Valid()
      modifies this
      ensures Valid()
      ensures parent == old(parent)[t := t]
      ensures RootOf(t) == t
    {
      if t !in parent {
        rank := rank[t := 0];
      }
      parent := parent[t := t];
    }

    /**
     * `find(tile)`: the root of the tile, with every node on the walk up re-pointed straight
     * at the root; no node's root changes and the roots stay the same.
     */
    method Find(x: Pos) returns (r: Pos)
      requires Valid() && x in parent
      modifies this
      ensures Valid() && rank == old(rank) && bound == old(bound)
      ensures r == old(RootOf(x))
      ensures parent == Compressed(old(parent), rank, bound, x)
      ensures forall y {:trigger RootOf(y)} | y in parent :: RootOf(y) == old(RootOf(y))
      ensures Roots(parent) == old(Roots(parent))
      decreases bound - rank[x]
    {
      ghost var before := parent;
      if parent[x] != x {
        var root := Find(parent[x]);
        parent := parent[x := root];
      }
      r := parent[x];
      assert r == Root(before, rank, bound, x) by {
        RootIsRoot(before, rank, bound, x);
      }
      CompressedRanked(before, rank, bound, x);
      forall y {:trigger Root(parent, rank, bound, y)} | y in parent
        ensures Root(parent, rank, bound, y) == Root(before, rank, bound, y)
      {
        CompressedRoot(before, rank, bound, x, y);
      }
      CompressedRootSet(before, rank, bound, x);
    }

    /**
     * The linking step of `union`: root `r1` is pointed at the different root `r2`, so `r1`'s
     * whole set joins `r2`'s and `r1` stops being a root.
     */
    method Link(r1: Pos, r2: Pos)
      requires Valid() && r1 in parent && r2 in parent
      requires parent[r1] == r1 && parent[r2] == r2 && r1 != r2
      modifies this
      ensures Valid()
      ensures parent == old(parent)[r1 := r2]
      ensures forall y {:trigger RootOf(y)} | y in parent ::
                RootOf(y) == if old(RootOf(y)) == r1 then r2 else old(RootOf(y))
      ensures Roots(parent) == old(Roots(parent)) - {r1}
    {
      ghost var p0, r0, b0 := parent, rank, bound;
      parent := parent[r1 := r2];
      rank := LinkRank(r0, r1, r2);
      bound := LinkBound(r0, b0, r1);
      assert Valid() by {
        LinkRanked(p0, r0, b0, r1, r2);
      }
      forall y {:trigger RootOf(y)} | y in parent
        ensures RootOf(y) == if Root(p0, r0, b0, y) == r1 then r2 else Root(p0, r0, b0, y)
      {
        LinkRoots(p0, r0, b0, r1, r2, y);
      }
      LinkRootSet(p0, r1, r2);
    }

    /** `union(tile1, tile2)`: when the roots differ, the first root is linked under the second. */
    method Union(a: Pos, b: Pos)
      requires Valid() && a in parent && b in parent
      modifies this
      ensures Valid()
      ensures parent.Keys == old(parent).Keys
      ensures forall y {:trigger RootOf(y)} | y in parent ::
                RootOf(y) == if old(RootOf(y)) == old(RootOf(a)) then old(RootOf(b)) else old(RootOf(y))
      ensures RootOf(a) == RootOf(b)
      ensures Roots(parent) == old(Roots(parent)) - {old(RootOf(a))} + {old(RootOf(b))}
      ensures old(RootOf(a)) != old(RootOf(b)) ==> |Roots(parent)| == |old(Roots(parent))| - 1
    {
      var root1 := Find(a);
      assert RootOf(a) == root1;
      var root2 := Find(b);
      assert RootOf(a) == root1 && RootOf(b) == root2;
      assert root1 in parent && parent[root1] == root1 by {
        RootIsRoot(parent, rank, bound, a);
      }
      assert root2 in parent && parent[root2] == root2 by {
        RootIsRoot(parent, rank, bound, b);
      }
      if root1 != root2 {
        assert root1 in Roots(parent);
        Link(root1, root2);
      }
    }

    /** `connected(tile1, tile2)`: whether both tiles have the same root. */
    method Connected(a: Pos, b: Pos) returns (c: bool)
      requires Valid() && a in parent && b in parent
      modifies this
      ensures Valid() && parent.Keys == old(parent).Keys
      ensures c <==> old(RootOf(a)) == old(RootOf(b))
      ensures forall y {:trigger RootOf(y)} | y in parent :: RootOf(y) == old(RootOf(y))
      ensures Roots(parent) == old(Roots(parent))
    {
      var r1 := Find(a);
      var r2 := Find(b);
      c := r1 == r2;
    }
  }
}
