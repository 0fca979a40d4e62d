/**
 * The walls the Kruskal generator has knocked down, as a set of grid edges, and what they do
 * to the maze: the state of every wall and every `isVisited` flag, and which tiles they join.
 */
module Carving {
  import opened Enums
  import opened Helpers
  import opened Wrappers
  import opened TileModel
  import opened EdgeModel
  import opened Grid

  /** `p` and `q` are the two ends of a carved edge, in either order. */
  ghost predicate Opened(carved: set<Edge>, p: Pos, q: Pos)
  {
    Edge(p, q) in carved || Edge(q, p) in carved
  }

  /** The tiles at either end of a carved edge: those whose `isVisited` the generator sets. */
  ghost function Touched(carved: set<Edge>): set<Pos>
  {
    (set e | e in carved :: e.tile1) + (set e | e in carved :: e.tile2)
  }

  /** Both tiles of an edge lie inside the array. */
  predicate InCells(cells: Cells, e: Edge)
  {
    0 <= e.tile1.row < |cells| && 0 <= e.tile1.column < |cells[e.tile1.row]| &&
    0 <= e.tile2.row < |cells| && 0 <= e.tile2.column < |cells[e.tile2.row]|
  }

  /**
   * One carving step of the generator: `edge.tile1.removeWall(edge.tile2)`, then both tiles
   * get `isVisited = true`.
   */
  function Carve(cells: Cells, e: Edge): (r: Cells)
    requires InCells(cells, e)
  {
    var pair := RemoveWallWith(At(cells, e.tile1), At(cells, e.tile2));
    var once := WithTile(cells, e.tile1, pair.0.(isVisited := true));
    WithTile(once, e.tile2, pair.1.(isVisited := true))
  }

  /** The side of `e.tile1` that a grid edge crosses: TOP for an edge upwards, LEFT otherwise. */
  function Crossing(numRows: int, numCols: int, e: Edge): (d: WallDirection)
    requires IsGridEdge(numRows, numCols, e)
    ensures e.tile2 == Move(e.tile1, d) && InBounds(numRows, numCols, e.tile2)
  {
    if e.tile1.row > 0 && e.tile2 == Move(e.tile1, Top) then Top else Left
  }

  /**
   * Carving a grid edge clears the crossed side of its first tile and the opposite side of its
   * second tile, marks both visited, and changes no other tile.
   */
  lemma CarveAt(cells: Cells, numRows: int, numCols: int, e: Edge, q: Pos)
    requires WellFormed(cells, numRows, numCols) && IsGridEdge(numRows, numCols, e)
    requires InBounds(numRows, numCols, q)
    ensures InCells(cells, e)
    ensures Shaped(Carve(cells, e), numRows, numCols)
    ensures At(Carve(cells, e), q) ==
              if q == e.tile1 then SetWall(At(cells, q), Crossing(numRows, numCols, e), false).(isVisited := true)
              else if q == e.tile2 then SetWall(At(cells, q), Opposite(Crossing(numRows, numCols, e)), false).(isVisited := true)
              else At(cells, q)
  {
    var d := Crossing(numRows, numCols, e);
    MoveFacing(cells, numRows, numCols, e.tile1, d);
    assert e.tile1 != e.tile2;
  }

  /**
   * The grid `cells` is `initial` with the walls of the `carved` edges knocked down and their
   * tiles marked visited; positions, statuses and every other wall are as in `initial`.
   */
  ghost predicate CarvedFrom(cells: Cells, initial: Cells, numRows: int, numCols: int, carved: set<Edge>)
  {
    Shaped(cells, numRows, numCols) && Shaped(initial, numRows, numCols) &&
    FieldsFrom(cells, initial, numRows, numCols, carved) && WallsFrom(cells, initial, numRows, numCols, carved)
  }

  /** Positions, statuses and wall keys are those of `initial`; the carved edges' tiles are visited. */
  ghost predicate FieldsFrom(cells: Cells, initial: Cells, numRows: int, numCols: int, carved: set<Edge>)
    requires Shaped(cells, numRows, numCols) && Shaped(initial, numRows, numCols)
  {
    forall p {:trigger At(cells, p)} | InBounds(numRows, numCols, p) ::
      At(cells, p).row == At(initial, p).row && At(cells, p).column == At(initial, p).column &&
      At(cells, p).status == At(initial, p).status && SameKeys(At(cells, p).walls, At(initial, p).walls) &&
      At(cells, p).isVisited == (At(initial, p).isVisited || p in Touched(carved))
  }

  /** A wall stands exactly when it stood in `initial` and no carved edge crosses it. */
  ghost predicate WallsFrom(cells: Cells, initial: Cells, numRows: int, numCols: int, carved: set<Edge>)
    requires Shaped(cells, numRows, numCols) && Shaped(initial, numRows, numCols)
  {
    forall p, d {:trigger HasWall(At(cells, p).walls, d)} | InBounds(numRows, numCols, p) ::
      HasWall(At(cells, p).walls, d) == WallFrom(initial, numRows, numCols, carved, p, d)
  }

  /** Whether the wall on side `d` of `p` stands once the `carved` edges are knocked down in `initial`. */
  ghost predicate WallFrom(initial: Cells, numRows: int, numCols: int, carved: set<Edge>, p: Pos, d: WallDirection)
    requires Shaped(initial, numRows, numCols) && InBounds(numRows, numCols, p)
  {
    HasWall(At(initial, p).walls, d) && !(InBounds(numRows, numCols, Move(p, d)) && Opened(carved, p, Move(p, d)))
  }

  /** Before any edge is carved, the grid is the initial grid. */
  lemma CarvedFromNothing(cells: Cells, numRows: int, numCols: int)
    requires Shaped(cells, numRows, numCols)
    ensures CarvedFrom(cells, cells, numRows, numCols, {})
  {
    assert Touched({}) == {};
  }

  /** A step of `Move` in two different directions never lands on the same tile. */
  lemma MoveInjective(p: Pos, d1: WallDirection, d2: WallDirection)
    requires Move(p, d1) == Move(p, d2)
    ensures d1 == d2
  {
  }

  /** One more carved edge opens the crossing between its own two tiles and no other. */
  lemma OpenedAdd(carved: set<Edge>, e: Edge, p: Pos, q: Pos)
    ensures Opened(carved + {e}, p, q) == (Opened(carved, p, q) || Edge(p, q) == e || Edge(q, p) == e)
  {
  }

  /** One more carved edge touches its own two tiles besides those touched before. */
  lemma TouchedAdd(carved: set<Edge>, e: Edge)
    ensures Touched(carved + {e}) == Touched(carved) + {e.tile1, e.tile2}
  {
  }

  /** The wall on side `f` of `p` after one more edge is carved. */
  lemma CarveWallAt(cells: Cells, initial: Cells, numRows: int, numCols: int, carved: set<Edge>, e: Edge,
                    p: Pos, f: WallDirection)
    requires WellFormed(cells, numRows, numCols) && Shaped(initial, numRows, numCols)
    requires IsGridEdge(numRows, numCols, e) && InBounds(numRows, numCols, p)
    requires HasWall(At(cells, p).walls, f) == WallFrom(initial, numRows, numCols, carved, p, f)
    ensures InCells(cells, e) && Shaped(Carve(cells, e), numRows, numCols)
    ensures HasWall(At(Carve(cells, e), p).walls, f) == WallFrom(initial, numRows, numCols, carved + {e}, p, f)
  {
    CarveAt(cells, numRows, numCols, e, p);
    var d := Crossing(numRows, numCols, e);
    var q := Move(p, f);
    MoveOpposite(e.tile1, d);
    assert e.tile1 != e.tile2;
    var extra := Edge(p, q) == e || Edge(q, p) == e;
    OpenedAdd(carved, e, p, q);
    if p == e.tile1 {
      if f == d {
        assert extra;
      } else {
        assert !extra by {
          if q == e.tile2 {
            MoveInjective(p, f, d);
          }
        }
      }
    } else if p == e.tile2 {
      if f == Opposite(d) {
        assert extra;
      } else {
        assert !extra by {
          if q == e.tile1 {
            MoveInjective(p, f, Opposite(d));
          }
        }
      }
    } else {
      assert !extra;
    }
  }

  /** Carving keeps every tile's position, status and wall keys, and marks the edge's tiles visited. */
  lemma CarveFields(cells: Cells, initial: Cells, numRows: int, numCols: int, carved: set<Edge>, e: Edge)
    requires WellFormed(cells, numRows, numCols) && Shaped(initial, numRows, numCols)
    requires FieldsFrom(cells, initial, numRows, numCols, carved)
    requires IsGridEdge(numRows, numCols, e)
    ensures InCells(cells, e) && Shaped(Carve(cells, e), numRows, numCols)
    ensures forall p {:trigger At(Carve(cells, e), p)} | InBounds(numRows, numCols, p) ::
              At(Carve(cells, e), p).row == At(initial, p).row &&
              At(Carve(cells, e), p).column == At(initial, p).column &&
              At(Carve(cells, e), p).status == At(initial, p).status &&
              SameKeys(At(Carve(cells, e), p).walls, At(initial, p).walls) &&
              At(Carve(cells, e), p).isVisited == (At(initial, p).isVisited || p in Touched(carved + {e})) &&
              At(Carve(cells, e), p).row == p.row && At(Carve(cells, e), p).column == p.column &&
              AllEntries(At(Carve(cells, e), p).walls)
  {
    CarveAt(cells, numRows, numCols, e, e.tile1);
    forall p | InBounds(numRows, numCols, p)
      ensures At(Carve(cells, e), p).row == At(initial, p).row
      ensures At(Carve(cells, e), p).column == At(initial, p).column
      ensures At(Carve(cells, e), p).status == At(initial, p).status
      ensures SameKeys(At(Carve(cells, e), p).walls, At(initial, p).walls)
      ensures At(Carve(cells, e), p).isVisited == (At(initial, p).isVisited || p in Touched(carved + {e}))
      ensures At(Carve(cells, e), p).row == p.row && At(Carve(cells, e), p).column == p.column
      ensures AllEntries(At(Carve(cells, e), p).walls)
    {
      CarveAt(cells, numRows, numCols, e, p);
      CarveTileFields(At(cells, p), At(initial, p), At(Carve(cells, e), p), numRows, numCols, carved, e, p);
    }
  }

  /**
   * The fields of the tile at `p` after carving `e`, where `t` is the tile there before and `t0`
   * the tile there initially; `after` is the carved tile as `CarveAt` describes it.
   */
  lemma CarveTileFields(t: Tile, t0: Tile, after: Tile, numRows: int, numCols: int, carved: set<Edge>, e: Edge, p: Pos)
    requires IsGridEdge(numRows, numCols, e)
    requires t.row == p.row && t.column == p.column && AllEntries(t.walls)
    requires t.row == t0.row && t.column == t0.column && t.status == t0.status && SameKeys(t.walls, t0.walls)
    requires t.isVisited == (t0.isVisited || p in Touched(carved))
    requires after == if p == e.tile1 then SetWall(t, Crossing(numRows, numCols, e), false).(isVisited := true)
                      else if p == e.tile2 then SetWall(t, Opposite(Crossing(numRows, numCols, e)), false).(isVisited := true)
                      else t
    ensures after.row == t0.row && after.column == t0.column
    ensures after.status == t0.status && SameKeys(after.walls, t0.walls)
    ensures after.isVisited == (t0.isVisited || p in Touched(carved + {e}))
    ensures after.row == p.row && after.column == p.column && AllEntries(after.walls)
  {
    TouchedAdd(carved, e);
  }

  /** Carving one more grid edge extends the set of carved edges by that edge. */
  lemma CarvePreserves(cells: Cells, initial: Cells, numRows: int, numCols: int, carved: set<Edge>, e: Edge)
    requires WellFormed(cells, numRows, numCols) && CarvedFrom(cells, initial, numRows, numCols, carved)
    requires IsGridEdge(numRows, numCols, e)
    ensures InCells(cells, e)
    ensures WellFormed(Carve(cells, e), numRows, numCols)
    ensures CarvedFrom(Carve(cells, e), initial, numRows, numCols, carved + {e})
  {
    CarveFields(cells, initial, numRows, numCols, carved, e);
    var c := Carve(cells, e);
    forall p, f | InBounds(numRows, numCols, p)
      ensures HasWall(At(c, p).walls, f) == WallFrom(initial, numRows, numCols, carved + {e}, p, f)
    {
      CarveWallAt(cells, initial, numRows, numCols, carved, e, p, f);
    }
  }

  /** A grid carved from a grid whose walls are mirrored has mirrored walls. */
  lemma CarvedMirrored(cells: Cells, initial: Cells, numRows: int, numCols: int, carved: set<Edge>)
    requires CarvedFrom(cells, initial, numRows, numCols, carved) && Mirrored(initial, numRows, numCols)
    ensures Mirrored(cells, numRows, numCols)
  {
    forall p, d | InBounds(numRows, numCols, p) && InBounds(numRows, numCols, Move(p, d))
      ensures HasWall(At(cells, p).walls, d) == HasWall(At(cells, Move(p, d)).walls, Opposite(d))
    {
      MoveOpposite(p, d);
    }
  }

  /** After the carve, neither tile of the edge has a wall towards the other. */
  lemma CarveOpens(cells: Cells, numRows: int, numCols: int, e: Edge)
    requires WellFormed(cells, numRows, numCols) && IsGridEdge(numRows, numCols, e)
    ensures InCells(cells, e) && InCells(Carve(cells, e), e)
    ensures !HasWallWith(At(Carve(cells, e), e.tile1), At(Carve(cells, e), e.tile2))
    ensures !HasWallWith(At(Carve(cells, e), e.tile2), At(Carve(cells, e), e.tile1))
  {
    CarveAt(cells, numRows, numCols, e, e.tile1);
    CarveAt(cells, numRows, numCols, e, e.tile2);
    var d := Crossing(numRows, numCols, e);
    MoveFacing(cells, numRows, numCols, e.tile1, d);
    FacingReversed(At(cells, e.tile1), At(cells, e.tile2));
  }

  // ----- Walks through carved walls -----

  /** A walk that crosses only carved edges. */
  ghost predicate Walk(carved: set<Edge>, w: seq<Pos>)
  {
    |w| >= 1 && forall i | 0 <= i < |w| - 1 :: Opened(carved, w[i], w[i + 1])
  }

  /** `a` and `b` are joined through knocked-down walls. */
  ghost predicate Joined(carved: set<Edge>, a: Pos, b: Pos)
  {
    exists w :: Walk(carved, w) && w[0] == a && w[|w| - 1] == b
  }

  lemma JoinedRefl(carved: set<Edge>, a: Pos)
    ensures Joined(carved, a, a)
  {
    assert Walk(carved, [a]);
  }

  lemma JoinedEdge(carved: set<Edge>, a: Pos, b: Pos)
    requires Opened(carved, a, b)
    ensures Joined(carved, a, b)
  {
    assert Walk(carved, [a, b]);
  }

  /** The walk `w` backwards. */
  function Reverse(w: seq<Pos>): (r: seq<Pos>)
    ensures |r| == |w| && forall i | 0 <= i < |w| :: r[i] == w[|w| - 1 - i]
  {
    seq(|w|, i requires 0 <= i < |w| => w[|w| - 1 - i])
  }

  lemma {:induction false} JoinedSym(carved: set<Edge>, a: Pos, b: Pos)
    requires Joined(carved, a, b)
    ensures Joined(carved, b, a)
  {
    var w :| Walk(carved, w) && w[0] == a && w[|w| - 1] == b;
    var r := Reverse(w);
    forall i | 0 <= i < |r| - 1 ensures Opened(carved, r[i], r[i + 1]) {
      assert r[i] == w[|w| - 1 - i] && r[i + 1] == w[|w| - 2 - i];
      assert Opened(carved, w[|w| - 2 - i], w[|w| - 2 - i + 1]);
    }
    assert Walk(carved, r);
  }

  lemma {:induction false} JoinedTrans(carved: set<Edge>, a: Pos, b: Pos, c: Pos)
    requires Joined(carved, a, b) && Joined(carved, b, c)
    ensures Joined(carved, a, c)
  {
    var w1 :| Walk(carved, w1) && w1[0] == a && w1[|w1| - 1] == b;
    var w2 :| Walk(carved, w2) && w2[0] == b && w2[|w2| - 1] == c;
    var w := w1 + w2[1..];
    forall i | 0 <= i < |w| - 1 ensures Opened(carved, w[i], w[i + 1]) {
      if i < |w1| - 1 {
        assert w[i] == w1[i] && w[i + 1] == w1[i + 1];
      } else {
        var j := i - |w1| + 1;
        assert w[i] == w2[j] && w[i + 1] == w2[j + 1];
      }
    }
    assert Walk(carved, w);
  }

  /** Opening more edges keeps joined tiles joined. */
  lemma {:induction false} JoinedMono(carved: set<Edge>, more: set<Edge>, a: Pos, b: Pos)
    requires Joined(carved, a, b) && carved <= more
    ensures Joined(more, a, b)
  {
    var w :| Walk(carved, w) && w[0] == a && w[|w| - 1] == b;
    assert Walk(more, w);
  }

  /**
   * A labelling that agrees across every carved edge agrees along every walk: joined tiles
   * carry the same label.
   */
  lemma {:induction false} WalkKeepsLabel<T>(carved: set<Edge>, labels: map<Pos, T>, w: seq<Pos>)
    requires Walk(carved, w)
    requires forall e | e in carved :: e.tile1 in labels && e.tile2 in labels && labels[e.tile1] == labels[e.tile2]
    requires w[0] in labels
    ensures w[|w| - 1] in labels && labels[w[|w| - 1]] == labels[w[0]]
    decreases |w|
  {
    if |w| > 1 {
      assert Opened(carved, w[0], w[1]);
      var rest := w[1..];
      assert Walk(carved, rest) by {
        forall i | 0 <= i < |rest| - 1 ensures Opened(carved, rest[i], rest[i + 1]) {
          assert rest[i] == w[i + 1] && rest[i + 1] == w[i + 2];
        }
      }
      WalkKeepsLabel(carved, labels, rest);
    }
  }

  lemma JoinedSameLabel<T>(carved: set<Edge>, labels: map<Pos, T>, a: Pos, b: Pos)
    requires Joined(carved, a, b)
    requires forall e | e in carved :: e.tile1 in labels && e.tile2 in labels && labels[e.tile1] == labels[e.tile2]
    requires a in labels
    ensures b in labels && labels[b] == labels[a]
  {
    var w :| Walk(carved, w) && w[0] == a && w[|w| - 1] == b;
    WalkKeepsLabel(carved, labels, w);
  }
}
