/**
 * `MazeWriter.write`: the text a maze is saved as. The first line is the size
 * `numRows,numCols`; then every tile of the array, row by row, writes
 * `row,column,wallBits` on a line of its own. Opening and writing the file is not modelled:
 * `Write` returns the text the `FileWriter` receives.
 */
module MazeWriter {
  import opened TileModel
  import opened Grid
  import opened Maze
  import opened JavaText

  /** The size line, `String.format("%d,%d", numRows, numCols)`. */
  function HeaderLine(numRows: int, numCols: int): string
  {
    IntToString(numRows) + "," + IntToString(numCols)
  }

  /** A tile's line, `String.format("%d,%d,%s", tile.row, tile.column, tile.getWallBits())`. */
  function TileLine(t: Tile): string
  {
    IntToString(t.row) + "," + IntToString(t.column) + "," + GetWallBits(t.walls)
  }

  /** The tiles of an array of rows, row by row and left to right within a row. */
  function Flatten(rows: seq<seq<Tile>>): (r: seq<Tile>)
  {
    if rows == [] then [] else Flatten(rows[..|rows| - 1]) + rows[|rows| - 1]
  }

  /** The lines of a list of tiles, one per tile, in the same order. */
  function TileLines(tiles: seq<Tile>): (r: seq<string>)
    ensures |r| == |tiles| && forall i | 0 <= i < |r| :: r[i] == TileLine(tiles[i])
  {
    seq(|tiles|, i requires 0 <= i < |tiles| => TileLine(tiles[i]))
  }

  /** The lines the writer writes, without their line ends: the size, then every tile. */
  function FileLines(numRows: int, numCols: int, cells: Cells): seq<string>
  {
    [HeaderLine(numRows, numCols)] + TileLines(Flatten(cells))
  }

  /**
   * `write(maze, file)`: the size line, then for each row of `maze.tiles` and each tile of
   * that row the tile's line, each line followed by "\n".
   */
  method Write(maze: MazeModel) returns (text: string)
    ensures text == Unlines(FileLines(maze.numRows, maze.numCols, maze.tiles))
  {
    var header := HeaderLine(maze.numRows, maze.numCols);
    text := header + "\n";
    assert text == Unlines([header] + TileLines(Flatten(maze.tiles[..0])));
    for r := 0 to |maze.tiles|
      invariant text == Unlines([header] + TileLines(Flatten(maze.tiles[..r])))
    {
      var row := maze.tiles[r];
      assert Flatten(maze.tiles[..r]) + row[..0] == Flatten(maze.tiles[..r]);
      for c := 0 to |row|
        invariant text == Unlines([header] + TileLines(Flatten(maze.tiles[..r]) + row[..c]))
      {
        WriteStep(header, Flatten(maze.tiles[..r]), row, c);
        text := text + TileLine(row[c]) + "\n";
      }
      FlattenNext(maze.tiles, r);
    }
    assert maze.tiles[..|maze.tiles|] == maze.tiles;
  }

  /** The text after one more tile of the row being written. */
  lemma WriteStep(header: string, done: seq<Tile>, row: seq<Tile>, c: nat)
    requires c < |row|
    ensures Unlines([header] + TileLines(done + row[..c + 1])) ==
            Unlines([header] + TileLines(done + row[..c])) + TileLine(row[c]) + "\n"
  {
    var before := done + row[..c];
    assert done + row[..c + 1] == before + [row[c]];
    TileLinesSnoc(before, row[c]);
    var lines := TileLines(before);
    assert [header] + (lines + [TileLine(row[c])]) == ([header] + lines) + [TileLine(row[c])];
    UnlinesSnoc([header] + lines, TileLine(row[c]));
  }

  /** One more tile, one more line at the end. */
  lemma TileLinesSnoc(tiles: seq<Tile>, t: Tile)
    ensures TileLines(tiles + [t]) == TileLines(tiles) + [TileLine(t)]
  {
  }

  /** The tiles of the first `r + 1` rows are those of the first `r`, then row `r`. */
  lemma FlattenNext(rows: seq<seq<Tile>>, r: nat)
    requires r < |rows|
    ensures Flatten(rows[..r + 1]) == Flatten(rows[..r]) + rows[r][..|rows[r]|]
  {
    assert rows[..r + 1][..r] == rows[..r];
    assert rows[r][..|rows[r]|] == rows[r];
  }

  /** The tiles of rows one after another are those of the first rows, then those of the rest. */
  lemma {:induction false} FlattenAppend(a: seq<seq<Tile>>, b: seq<seq<Tile>>)
    ensures Flatten(a + b) == Flatten(a) + Flatten(b)
    decreases |b|
  {
    if b != [] {
      FlattenAppend(a, b[..|b| - 1]);
      assert (a + b)[..|a + b| - 1] == a + b[..|b| - 1];
      assert Flatten(a + b) == Flatten(a) + Flatten(b[..|b| - 1]) + b[|b| - 1];
    } else {
      assert a + b == a;
    }
  }

  /** A grid of `numRows` rows of `numCols` tiles has `numRows * numCols` tiles. */
  lemma {:induction false} FlattenLength(cells: Cells, numRows: nat, numCols: nat)
    requires Shaped(cells, numRows, numCols)
    ensures |Flatten(cells)| == numRows * numCols
    decreases numRows
  {
    if numRows > 0 {
      FlattenLength(cells[..numRows - 1], numRows - 1, numCols);
    }
  }

  /** Tile `(r, c)` is number `r * numCols + c` in row-major order. */
  lemma {:induction false} FlattenAt(cells: Cells, numRows: nat, numCols: nat, r: nat, c: nat)
    requires Shaped(cells, numRows, numCols) && r < numRows && c < numCols
    ensures 0 <= r * numCols + c < |Flatten(cells)| && Flatten(cells)[r * numCols + c] == cells[r][c]
    decreases numRows
  {
    var front := cells[..numRows - 1];
    FlattenLength(front, numRows - 1, numCols);
    assert Flatten(cells) == Flatten(front) + cells[numRows - 1];
    if r < numRows - 1 {
      FlattenAt(front, numRows - 1, numCols, r, c);
      EarlierRow(r, c, numRows - 1, numCols);
    } else {
      assert r * numCols == |Flatten(front)|;
    }
  }

  /** A tile of an earlier row comes before every tile of the rows from `rows` on. */
  lemma EarlierRow(r: nat, c: nat, rows: nat, numCols: nat)
    requires r < rows && c < numCols
    ensures r * numCols + c < rows * numCols
  {
    assert (r + 1) * numCols <= rows * numCols;
  }

  /** The number of the line of tile `(r, c)` in a file whose rows have `numCols` tiles. */
  function LineNumber(numCols: nat, r: nat, c: nat): nat
  {
    1 + r * numCols + c
  }

  /** The line of tile `(r, c)` is line number `LineNumber(numCols, r, c)` of the file. */
  lemma FileLineAt(cells: Cells, numRows: nat, numCols: nat, r: nat, c: nat)
    requires Shaped(cells, numRows, numCols) && r < numRows && c < numCols
    ensures 1 <= LineNumber(numCols, r, c) < |FileLines(numRows, numCols, cells)|
    ensures FileLines(numRows, numCols, cells)[LineNumber(numCols, r, c)] == TileLine(cells[r][c])
  {
    FlattenAt(cells, numRows, numCols, r, c);
    var k := r * numCols + c;
    FileLineOfTile(numRows, numCols, cells, k);
    assert LineNumber(numCols, r, c) == 1 + k;
  }

  /** Line `1 + k` of the file is the line of tile number `k` in row-major order. */
  lemma FileLineOfTile(numRows: int, numCols: int, cells: Cells, k: nat)
    requires k < |Flatten(cells)|
    ensures 1 + k < |FileLines(numRows, numCols, cells)|
    ensures FileLines(numRows, numCols, cells)[1 + k] == TileLine(Flatten(cells)[k])
  {
    var lines := TileLines(Flatten(cells));
    assert lines[k] == TileLine(Flatten(cells)[k]);
  }

  /**
   * The file has one line more than the maze has tiles: the size line first, then the line
   * of tile `(r, c)` at number `LineNumber(numCols, r, c)`, so row-major order.
   */
  lemma FileLinesLayout(cells: Cells, numRows: nat, numCols: nat)
    requires Shaped(cells, numRows, numCols)
    ensures |FileLines(numRows, numCols, cells)| == numRows * numCols + 1
    ensures FileLines(numRows, numCols, cells)[0] == HeaderLine(numRows, numCols)
    ensures forall r, c | 0 <= r < numRows && 0 <= c < numCols ::
              LineNumber(numCols, r, c) < |FileLines(numRows, numCols, cells)| &&
              FileLines(numRows, numCols, cells)[LineNumber(numCols, r, c)] == TileLine(cells[r][c])
  {
    FlattenLength(cells, numRows, numCols);
    forall r, c | 0 <= r < numRows && 0 <= c < numCols
      ensures LineNumber(numCols, r, c) < |FileLines(numRows, numCols, cells)|
      ensures FileLines(numRows, numCols, cells)[LineNumber(numCols, r, c)] == TileLine(cells[r][c])
    {
      FileLineAt(cells, numRows, numCols, r, c);
    }
  }

  /** The size line holds no line end. */
  lemma HeaderLinePlain(numRows: int, numCols: int)
    ensures OneLine(HeaderLine(numRows, numCols))
  {
    IntToStringNumeral(numRows);
    IntToStringNumeral(numCols);
    NumeralPlain(IntToString(numRows));
    NumeralPlain(IntToString(numCols));
  }

  /** A tile's line holds no line end. */
  lemma TileLinePlain(t: Tile)
    ensures OneLine(TileLine(t))
  {
    IntToStringNumeral(t.row);
    IntToStringNumeral(t.column);
    NumeralPlain(IntToString(t.row));
    NumeralPlain(IntToString(t.column));
    var bits := GetWallBits(t.walls);
    assert '\n' !in bits && '\r' !in bits by {
      forall k | 0 <= k < 4 ensures bits[k] != '\n' && bits[k] != '\r' { }
    }
  }

  /** The line of one tile of a list holds no line end. */
  lemma TileLinesPlain(tiles: seq<Tile>, j: nat)
    requires j < |tiles|
    ensures OneLine(TileLines(tiles)[j])
  {
    TileLinePlain(tiles[j]);
  }

  /** No line the writer writes holds a line end, so each is one line of the file. */
  lemma FileLinesPlain(numRows: int, numCols: int, cells: Cells)
    ensures forall i | 0 <= i < |FileLines(numRows, numCols, cells)| :: OneLine(FileLines(numRows, numCols, cells)[i])
  {
    var tiles := Flatten(cells);
    HeaderLinePlain(numRows, numCols);
    forall j | 0 <= j < |tiles|
      ensures OneLine(TileLines(tiles)[j])
    {
      TileLinesPlain(tiles, j);
    }
    ConsOneLine(HeaderLine(numRows, numCols), TileLines(tiles));
  }

  /** A line without line ends before lines without line ends. */
  lemma ConsOneLine(first: string, rest: seq<string>)
    requires OneLine(first) && forall j | 0 <= j < |rest| :: OneLine(rest[j])
    ensures forall i | 0 <= i < |[first] + rest| :: OneLine(([first] + rest)[i])
  {
  }

  /** Reading the written text back line by line gives exactly the lines written. */
  lemma WrittenLines(numRows: int, numCols: int, cells: Cells)
    ensures Lines(Unlines(FileLines(numRows, numCols, cells))) == FileLines(numRows, numCols, cells)
  {
    FileLinesPlain(numRows, numCols, cells);
    LinesUnlines(FileLines(numRows, numCols, cells));
  }
}
