/** The range of a Java `int`, shared by the parser, the hash codes and the Dijkstra distances. */
module JavaInt {
  /** `Integer.MIN_VALUE`. */
  const IntMin: int := -0x8000_0000
  /** `Integer.MAX_VALUE`. */
  const IntMax: int := 0x7fff_ffff
}
