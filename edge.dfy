/** An edge of the grid: two tiles that the generator may connect by removing a wall. */
module EdgeModel {
  import opened Wrappers
  import opened TileModel

  /** The two tile references, kept in the order they were given. */
  datatype Edge = Edge(tile1: Pos, tile2: Pos)

  /** The constructor's `IllegalArgumentException("Tiles cannot be null")`. */
  datatype EdgeError = NullTile

  /**
   * The constructor `EdgeModel(tile1, tile2)`: a null tile is rejected; any two tiles are
   * accepted otherwise (adjacency is not checked) and stored without reordering.
   */
  function NewEdge(tile1: Option<Pos>, tile2: Option<Pos>): (r: Result<Edge, EdgeError>)
    ensures r.Failure? <==> tile1.None? || tile2.None?
    ensures r.Success? ==> r.value.tile1 == tile1.value && r.value.tile2 == tile2.value
  {
    if tile1.None? || tile2.None? then Failure(NullTile)
    else Success(Edge(tile1.value, tile2.value))
  }
}
