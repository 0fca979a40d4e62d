/**
 * `MazeReader.read`: the maze rebuilt from the lines of a `.maze` file. The first line gives
 * the size `numRows,numCols`; every later line that is not empty stores one tile
 * `row,column,wallBits` into a `numRows` by `numCols` array, a later line for the same
 * position replacing an earlier one. Each Java exception is a `ReadError`. Reading the file
 * is not modelled: `Read` receives the list `Files.readAllLines` returns, and it returns
 * the filled array, null entries as `None`, instead of wrapping it in a `MazeModel`.
 */
module MazeReader {
  import opened Wrappers
  import opened Enums
  import opened TileModel
  import opened Grid
  import opened JavaText
  import opened JavaInt
  import opened MazeWriter

  /** What `read` throws, with the one-based line number the message names. */
  datatype ReadError =
    | EmptyFile                        // the file has no line at all
    | SizeParts                        // the first line does not split into two parts
    | SizeNotInteger                   // a size part is not an int
    | NegativeSize                     // NegativeArraySizeException from the array creation
    | TileParts(line: int)             // a tile line does not split into three parts
    | CoordinateNotInteger(line: int)  // its row or column is not an int
    | OutsideMaze(line: int)           // its row or column is outside the maze
    | BadWallBits(line: int)           // its wall bits are not four '0'/'1' characters
    | NoRows                           // `new MazeModel(tiles)` refuses an array of no rows

  /** The array `read` fills: `None` where no line stored a tile (a Java null). */
  type Slots = seq<seq<Option<Tile>>>

  /** `numRows` rows of `numCols` entries each. */
  predicate SlotsShaped(grid: Slots, numRows: int, numCols: int)
  {
    |grid| == numRows && forall r | 0 <= r < |grid| :: |grid[r]| == numCols
  }

  /**
   * The first line: `split(",")` must give two parts, each an `int` after `trim`; the
   * parse errors come in the order the source checks them.
   */
  function ParseSize(line: string): (r: Result<(int, int), ReadError>)
    ensures r.Failure? ==> r.error == SizeParts || r.error == SizeNotInteger
    ensures r.Success? ==> |Split(line, ',')| == 2 &&
                           ParseInt(Trim(Split(line, ',')[0])) == Some(r.value.0) &&
                           ParseInt(Trim(Split(line, ',')[1])) == Some(r.value.1)
  {
    var parts := Split(line, ',');
    if |parts| != 2 then Failure(SizeParts)
    else
      var rows := ParseInt(Trim(parts[0]));
      var cols := ParseInt(Trim(parts[1]));
      if rows.None? || cols.None? then Failure(SizeNotInteger)
      else Success((rows.value, cols.value))
  }

  /**
   * A tile line, number `number` counted from one: three parts, an `int` row and column
   * inside the maze, and four wall bits after `trim`. The tile is the one the three-argument
   * constructor builds: not visited, status UNVISITED, walls from `getWalls`.
   */
  function ParseTile(line: string, number: int, numRows: int, numCols: int): (r: Result<Tile, ReadError>)
    ensures r.Failure? ==> (r.error.TileParts? || r.error.CoordinateNotInteger? || r.error.OutsideMaze? || r.error.BadWallBits?) &&
                           r.error.line == number
    ensures r.Success? ==> InBounds(numRows, numCols, Pos(r.value.row, r.value.column)) &&
                           AllEntries(r.value.walls) && !r.value.isVisited && r.value.status == Unvisited
  {
    var parts := Split(line, ',');
    if |parts| != 3 then Failure(TileParts(number))
    else
      var row := ParseInt(Trim(parts[0]));
      var column := ParseInt(Trim(parts[1]));
      if row.None? || column.None? then Failure(CoordinateNotInteger(number))
      else if !InBounds(numRows, numCols, Pos(row.value, column.value)) then Failure(OutsideMaze(number))
      else
        var bits := Trim(parts[2]);
        if !IsWallBits(bits) then Failure(BadWallBits(number))
        else Success(Tile(row.value, column.value, GetWalls(bits), false, Unvisited))
  }

  /** `new TileModel[numRows][numCols]`: every entry null. */
  function Empty(numRows: nat, numCols: nat): (grid: Slots)
    ensures SlotsShaped(grid, numRows, numCols)
    ensures forall r, c | 0 <= r < numRows && 0 <= c < numCols :: grid[r][c].None?
  {
    seq(numRows, r => seq(numCols, c => None))
  }

  /** `tiles[t.row][t.column] = t`. */
  function Place(grid: Slots, t: Tile): (r: Slots)
    requires 0 <= t.row < |grid| && 0 <= t.column < |grid[t.row]|
  {
    grid[t.row := grid[t.row][t.column := Some(t)]]
  }

  /** Storing a tile changes its own entry only, and keeps the shape. */
  lemma PlaceAt(grid: Slots, t: Tile, numRows: int, numCols: int, p: Pos)
    requires SlotsShaped(grid, numRows, numCols) && InBounds(numRows, numCols, Pos(t.row, t.column))
    requires InBounds(numRows, numCols, p)
    ensures SlotsShaped(Place(grid, t), numRows, numCols)
    ensures Place(grid, t)[p.row][p.column] ==
            if p == Pos(t.row, t.column) then Some(t) else grid[p.row][p.column]
  {
  }

  // ----- the loop over the lines -----

  /**
   * What one turn of the loop does with a line: nothing (`None`) for an empty line, else the
   * line's tile or its error.
   */
  type Outcome = Option<Result<Tile, ReadError>>

  /** Every tile an outcome stores lies inside the maze. */
  predicate Fits(outcomes: seq<Outcome>, numRows: int, numCols: int)
  {
    forall k | 0 <= k < |outcomes| ::
      outcomes[k].Some? && outcomes[k].value.Success? ==>
        InBounds(numRows, numCols, Pos(outcomes[k].value.value.row, outcomes[k].value.value.column))
  }

  /**
   * The outcome of every line: line `k` (zero-based) is line number `k + 1` of the messages;
   * the size line and empty lines store nothing.
   */
  function Outcomes(lines: seq<string>, numRows: int, numCols: int): (r: seq<Outcome>)
    ensures |r| == |lines| && Fits(r, numRows, numCols)
  {
    seq(|lines|, k requires 0 <= k < |lines| =>
      if k == 0 || lines[k] == "" then None else Some(ParseTile(lines[k], k + 1, numRows, numCols)))
  }

  /**
   * The loop of `read` from line `i` on, over an array already filled by the lines before
   * it: empty lines are skipped, the first bad line throws, a tile is stored.
   */
  function Fill(outcomes: seq<Outcome>, i: nat, numRows: int, numCols: int, grid: Slots): (r: Result<Slots, ReadError>)
    requires i <= |outcomes| && Fits(outcomes, numRows, numCols) && SlotsShaped(grid, numRows, numCols)
    ensures r.Success? ==> SlotsShaped(r.value, numRows, numCols)
    decreases |outcomes| - i
  {
    if i == |outcomes| then Success(grid)
    else
      match outcomes[i]
      case None => Fill(outcomes, i + 1, numRows, numCols, grid)
      case Some(Failure(e)) => Failure(e)
      case Some(Success(t)) =>
        PlaceAt(grid, t, numRows, numCols, Pos(t.row, t.column));
        Fill(outcomes, i + 1, numRows, numCols, Place(grid, t))
  }

  /**
   * What `read` does once it has the size: a negative size throws where the array is
   * created; then the tile lines fill it; finally `new MazeModel(tiles)` refuses an array
   * of no rows.
   */
  function FillArray(lines: seq<string>, numRows: int, numCols: int): (r: Result<Slots, ReadError>)
    requires 1 <= |lines|
    ensures r.Success? ==> SlotsShaped(r.value, numRows, numCols)
  {
    if numRows < 0 || numCols < 0 then Failure(NegativeSize)
    else
      match Fill(Outcomes(lines, numRows, numCols), 1, numRows, numCols, Empty(numRows, numCols))
      case Failure(e) => Failure(e)
      case Success(grid) => if numRows == 0 then Failure(NoRows) else Success(grid)
  }

  /** `read` on the lines of a file: an empty file or a bad size line throw first. */
  function Parse(lines: seq<string>): (r: Result<Slots, ReadError>)
  {
    if lines == [] then Failure(EmptyFile)
    else
      match ParseSize(lines[0])
      case Failure(e) => Failure(e)
      case Success(size) => FillArray(lines, size.0, size.1)
  }

  // ----- what the loop leaves: the first bad line, and the last tile at each position -----

  /** An outcome that makes the loop throw. */
  predicate Bad(outcome: Outcome)
  {
    outcome.Some? && outcome.value.Failure?
  }

  /** An outcome that stores a tile at `p`. */
  predicate Stores(outcome: Outcome, p: Pos)
  {
    outcome.Some? && outcome.value.Success? && Pos(outcome.value.value.row, outcome.value.value.column) == p
  }

  /** The first bad outcome from `i` on, or `|outcomes|` when there is none. */
  function FirstBad(outcomes: seq<Outcome>, i: nat): (k: nat)
    requires i <= |outcomes|
    ensures i <= k <= |outcomes| && (k < |outcomes| ==> Bad(outcomes[k]))
    ensures forall j | i <= j < k :: !Bad(outcomes[j])
    decreases |outcomes| - i
  {
    if i == |outcomes| || Bad(outcomes[i]) then i else FirstBad(outcomes, i + 1)
  }

  /** The loop throws exactly when some outcome is bad, and then with the error of the first. */
  lemma {:induction false} FillFirstBad(outcomes: seq<Outcome>, i: nat, numRows: int, numCols: int, grid: Slots)
    requires i <= |outcomes| && Fits(outcomes, numRows, numCols) && SlotsShaped(grid, numRows, numCols)
    ensures FirstBad(outcomes, i) == |outcomes| ==> Fill(outcomes, i, numRows, numCols, grid).Success?
    ensures FirstBad(outcomes, i) < |outcomes| ==>
              Fill(outcomes, i, numRows, numCols, grid) == Failure(outcomes[FirstBad(outcomes, i)].value.error)
    decreases |outcomes| - i
  {
    if i < |outcomes| {
      match outcomes[i]
      case None =>
        FillFirstBad(outcomes, i + 1, numRows, numCols, grid);
      case Some(Failure(e)) =>
      case Some(Success(t)) =>
        PlaceAt(grid, t, numRows, numCols, Pos(t.row, t.column));
        FillFirstBad(outcomes, i + 1, numRows, numCols, Place(grid, t));
    }
  }

  /**
   * The entry at `p` once the outcomes in `[lo, hi)` are stored over `before`: the tile of
   * the last one that stores at `p`, else `before`.
   */
  function LastAt(outcomes: seq<Outcome>, lo: nat, hi: nat, p: Pos, before: Option<Tile>): (r: Option<Tile>)
    requires lo <= hi <= |outcomes|
    decreases hi - lo
  {
    if hi == lo then before
    else if Stores(outcomes[hi - 1], p) then Some(outcomes[hi - 1].value.value)
    else LastAt(outcomes, lo, hi - 1, p, before)
  }

  /** Storing the first outcome first and the rest after it. */
  lemma {:induction false} LastAtStep(outcomes: seq<Outcome>, lo: nat, hi: nat, p: Pos, before: Option<Tile>)
    requires lo < hi <= |outcomes|
    ensures LastAt(outcomes, lo, hi, p, before) ==
            LastAt(outcomes, lo + 1, hi, p, if Stores(outcomes[lo], p) then Some(outcomes[lo].value.value) else before)
    decreases hi - lo
  {
    if hi > lo + 1 && !Stores(outcomes[hi - 1], p) {
      LastAtStep(outcomes, lo, hi - 1, p, before);
    }
  }

  /** Where the loop finishes, every entry holds the last tile stored there, or what it held. */
  lemma {:induction false} FillLastWins(outcomes: seq<Outcome>, i: nat, numRows: int, numCols: int, grid: Slots, p: Pos)
    requires i <= |outcomes| && Fits(outcomes, numRows, numCols) && SlotsShaped(grid, numRows, numCols)
    requires InBounds(numRows, numCols, p) && Fill(outcomes, i, numRows, numCols, grid).Success?
    ensures Fill(outcomes, i, numRows, numCols, grid).value[p.row][p.column] ==
            LastAt(outcomes, i, |outcomes|, p, grid[p.row][p.column])
    decreases |outcomes| - i
  {
    if i < |outcomes| {
      LastAtStep(outcomes, i, |outcomes|, p, grid[p.row][p.column]);
      match outcomes[i]
      case None =>
        FillLastWins(outcomes, i + 1, numRows, numCols, grid, p);
      case Some(Success(t)) =>
        PlaceAt(grid, t, numRows, numCols, p);
        FillLastWins(outcomes, i + 1, numRows, numCols, Place(grid, t), p);
    }
  }

  /** The last outcome storing at `p` decides the entry. */
  lemma {:induction false} LastAtFinds(outcomes: seq<Outcome>, lo: nat, hi: nat, p: Pos, before: Option<Tile>, k: nat)
    requires lo <= k < hi <= |outcomes| && Stores(outcomes[k], p)
    requires forall j | k < j < hi :: !Stores(outcomes[j], p)
    ensures LastAt(outcomes, lo, hi, p, before) == Some(outcomes[k].value.value)
    decreases hi - lo
  {
    if hi - 1 != k {
      LastAtFinds(outcomes, lo, hi - 1, p, before, k);
    }
  }

  /** Where no outcome stores, the entry keeps what it held. */
  lemma {:induction false} LastAtNone(outcomes: seq<Outcome>, lo: nat, hi: nat, p: Pos, before: Option<Tile>)
    requires lo <= hi <= |outcomes| && forall j | lo <= j < hi :: !Stores(outcomes[j], p)
    ensures LastAt(outcomes, lo, hi, p, before) == before
    decreases hi - lo
  {
    if lo < hi {
      LastAtNone(outcomes, lo, hi - 1, p, before);
    }
  }

  // ----- the same, line by line -----

  /** Line `k` (zero-based) is a tile line that parses to a tile at `p`. */
  predicate LineStores(lines: seq<string>, k: nat, numRows: int, numCols: int, p: Pos)
    requires k < |lines|
  {
    1 <= k && lines[k] != "" && ParseTile(lines[k], k + 1, numRows, numCols).Success? &&
    Pos(ParseTile(lines[k], k + 1, numRows, numCols).value.row, ParseTile(lines[k], k + 1, numRows, numCols).value.column) == p
  }

  /** Line `k` (zero-based) is a tile line that does not parse. */
  predicate LineBad(lines: seq<string>, k: nat, numRows: int, numCols: int)
    requires k < |lines|
  {
    1 <= k && lines[k] != "" && ParseTile(lines[k], k + 1, numRows, numCols).Failure?
  }

  lemma OutcomeAt(lines: seq<string>, numRows: int, numCols: int, k: nat, p: Pos)
    requires k < |lines|
    ensures Bad(Outcomes(lines, numRows, numCols)[k]) <==> LineBad(lines, k, numRows, numCols)
    ensures Stores(Outcomes(lines, numRows, numCols)[k], p) <==> LineStores(lines, k, numRows, numCols, p)
    ensures LineBad(lines, k, numRows, numCols) ==>
              Outcomes(lines, numRows, numCols)[k].value.error == ParseTile(lines[k], k + 1, numRows, numCols).error
    ensures LineStores(lines, k, numRows, numCols, p) ==>
              Outcomes(lines, numRows, numCols)[k].value.value == ParseTile(lines[k], k + 1, numRows, numCols).value
  {
  }

  /** `read` gets past its size line exactly when the size is positive rows and no tile line is bad. */
  lemma FillArraySucceeds(lines: seq<string>, numRows: int, numCols: int)
    requires 1 <= |lines|
    ensures FillArray(lines, numRows, numCols).Success? <==>
            0 < numRows && 0 <= numCols && forall k | 0 <= k < |lines| :: !LineBad(lines, k, numRows, numCols)
  {
    if 0 <= numRows && 0 <= numCols {
      var outcomes := Outcomes(lines, numRows, numCols);
      FillFirstBad(outcomes, 1, numRows, numCols, Empty(numRows, numCols));
      var k := FirstBad(outcomes, 1);
      if k < |lines| {
        OutcomeAt(lines, numRows, numCols, k, Pos(0, 0));
      } else {
        forall j | 0 <= j < |lines| ensures !LineBad(lines, j, numRows, numCols) {
          OutcomeAt(lines, numRows, numCols, j, Pos(0, 0));
        }
      }
    }
  }

  /** The first bad tile line is the one `read` reports. */
  lemma FillArrayReportsFirstBadLine(lines: seq<string>, numRows: int, numCols: int, k: nat)
    requires 0 <= numRows && 0 <= numCols && k < |lines| && LineBad(lines, k, numRows, numCols)
    requires forall j | 0 <= j < k :: !LineBad(lines, j, numRows, numCols)
    ensures FillArray(lines, numRows, numCols) == Failure(ParseTile(lines[k], k + 1, numRows, numCols).error)
  {
    var outcomes := Outcomes(lines, numRows, numCols);
    FillFirstBad(outcomes, 1, numRows, numCols, Empty(numRows, numCols));
    OutcomeAt(lines, numRows, numCols, k, Pos(0, 0));
    var first := FirstBad(outcomes, 1);
    if first != k {
      OutcomeAt(lines, numRows, numCols, first, Pos(0, 0));
    }
  }

  /** A position holds the tile of the last line that names it: later lines overwrite earlier ones. */
  lemma FillArrayLastLine(lines: seq<string>, numRows: int, numCols: int, p: Pos, k: nat)
    requires 1 <= |lines| && FillArray(lines, numRows, numCols).Success? && InBounds(numRows, numCols, p)
    requires k < |lines| && LineStores(lines, k, numRows, numCols, p)
    requires forall j | k < j < |lines| :: !LineStores(lines, j, numRows, numCols, p)
    ensures FillArray(lines, numRows, numCols).value[p.row][p.column] == Some(ParseTile(lines[k], k + 1, numRows, numCols).value)
  {
    var outcomes := Outcomes(lines, numRows, numCols);
    FillLastWins(outcomes, 1, numRows, numCols, Empty(numRows, numCols), p);
    OutcomeAt(lines, numRows, numCols, k, p);
    forall j | k < j < |lines| ensures !Stores(outcomes[j], p) {
      OutcomeAt(lines, numRows, numCols, j, p);
    }
    LastAtFinds(outcomes, 1, |lines|, p, None, k);
  }

  /** A position no line names stays null. */
  lemma FillArrayUnnamed(lines: seq<string>, numRows: int, numCols: int, p: Pos)
    requires 1 <= |lines| && FillArray(lines, numRows, numCols).Success? && InBounds(numRows, numCols, p)
    requires forall j | 0 <= j < |lines| :: !LineStores(lines, j, numRows, numCols, p)
    ensures FillArray(lines, numRows, numCols).value[p.row][p.column].None?
  {
    var outcomes := Outcomes(lines, numRows, numCols);
    FillLastWins(outcomes, 1, numRows, numCols, Empty(numRows, numCols), p);
    forall j | 1 <= j < |lines| ensures !Stores(outcomes[j], p) {
      OutcomeAt(lines, numRows, numCols, j, p);
    }
    LastAtNone(outcomes, 1, |lines|, p, None);
  }

  // ----- reading back what the writer wrote -----

  /** Two numerals joined by a comma split back into the two. */
  lemma JoinTwo(a: string, b: string)
    requires ',' !in a && ',' !in b && b != ""
    ensures Split(a + "," + b, ',') == [a, b]
  {
    assert Join([a, b], ',') == a + "," + b by {
      assert [a, b][1..] == [b];
    }
    SplitJoin([a, b], ',');
  }

  /** Three pieces joined by commas split back into the three. */
  lemma JoinThree(a: string, b: string, c: string)
    requires ',' !in a && ',' !in b && ',' !in c && c != ""
    ensures Split(a + "," + b + "," + c, ',') == [a, b, c]
  {
    assert Join([a, b, c], ',') == a + "," + b + "," + c by {
      assert [a, b, c][1..] == [b, c] && [b, c][1..] == [c];
      assert Join([b, c], ',') == b + "," + c;
    }
    SplitJoin([a, b, c], ',');
  }

  /** The size line the writer writes parses back to the same size. */
  lemma HeaderParses(numRows: int, numCols: int)
    requires IntMin <= numRows <= IntMax && IntMin <= numCols <= IntMax
    ensures ParseSize(HeaderLine(numRows, numCols)) == Success((numRows, numCols))
  {
    var a, b := IntToString(numRows), IntToString(numCols);
    IntToStringNumeral(numRows);
    IntToStringNumeral(numCols);
    NumeralPlain(a);
    NumeralPlain(b);
    NumeralTrimmed(a);
    NumeralTrimmed(b);
    ParseIntToString(numRows);
    ParseIntToString(numCols);
    JoinTwo(a, b);
  }

  /** The wall bits the writer writes are wall bits the reader accepts, and need no trimming. */
  lemma WallBitsValid(walls: Walls)
    ensures ',' !in GetWallBits(walls) && GetWallBits(walls) != ""
    ensures Trim(GetWallBits(walls)) == GetWallBits(walls) && IsWallBits(GetWallBits(walls))
  {
    var bits := GetWallBits(walls);
    forall i | 0 <= i < 4 ensures IsBit(bits[i]) && bits[i] != ',' { }
    TrimKeeps(bits);
  }

  /**
   * A tile's line, wherever it stands, parses back to a tile at the same position with the
   * same walls, not visited and UNVISITED.
   */
  lemma TileLineParses(t: Tile, number: int, numRows: int, numCols: int)
    requires InBounds(numRows, numCols, Pos(t.row, t.column)) && numRows <= IntMax && numCols <= IntMax
    requires AllEntries(t.walls)
    ensures TileLine(t) != ""
    ensures ParseTile(TileLine(t), number, numRows, numCols) == Success(Tile(t.row, t.column, t.walls, false, Unvisited))
  {
    var a, b, bits := IntToString(t.row), IntToString(t.column), GetWallBits(t.walls);
    IntToStringNumeral(t.row);
    IntToStringNumeral(t.column);
    NumeralPlain(a);
    NumeralPlain(b);
    NumeralTrimmed(a);
    NumeralTrimmed(b);
    ParseIntToString(t.row);
    ParseIntToString(t.column);
    WallBitsValid(t.walls);
    WallsRoundTrip(t.walls);
    JoinThree(a, b, bits);
  }

  /** Every line after the size line of a full `numRows` by `numCols` file belongs to one tile. */
  lemma {:induction false} TileOfLine(numRows: nat, numCols: nat, k: nat) returns (r: nat, c: nat)
    requires 1 <= k <= numRows * numCols
    ensures r < numRows && c < numCols && LineNumber(numCols, r, c) == k
    decreases numRows
  {
    assert numRows * numCols == (numRows - 1) * numCols + numCols;
    if k <= (numRows - 1) * numCols {
      r, c := TileOfLine(numRows - 1, numCols, k);
    } else {
      r, c := numRows - 1, k - 1 - (numRows - 1) * numCols;
    }
  }

  /** The line of tile `(r, c)` in the written file parses back to that tile. */
  lemma FileLineTile(cells: Cells, numRows: int, numCols: int, r: nat, c: nat)
    requires WellFormed(cells, numRows, numCols) && numRows <= IntMax && numCols <= IntMax
    requires r < numRows && c < numCols
    ensures 1 <= LineNumber(numCols, r, c) < |FileLines(numRows, numCols, cells)|
    ensures FileLines(numRows, numCols, cells)[LineNumber(numCols, r, c)] != ""
    ensures ParseTile(FileLines(numRows, numCols, cells)[LineNumber(numCols, r, c)], LineNumber(numCols, r, c) + 1, numRows, numCols) ==
            Success(Tile(r, c, cells[r][c].walls, false, Unvisited))
  {
    FileLineAt(cells, numRows, numCols, r, c);
    var t := At(cells, Pos(r, c));
    assert t == cells[r][c] && t.row == r && t.column == c;
    var k := LineNumber(numCols, r, c);
    var line := FileLines(numRows, numCols, cells)[k];
    assert line == TileLine(t);
    TileLineParses(t, k + 1, numRows, numCols);
    assert ParseTile(line, k + 1, numRows, numCols) == ParseTile(TileLine(t), k + 1, numRows, numCols);
  }

  /** The line of tile `(r, c)` in the written file is not a bad line, and it names `(r, c)` only. */
  lemma FileLineParses(cells: Cells, numRows: int, numCols: int, r: nat, c: nat, p: Pos)
    requires WellFormed(cells, numRows, numCols) && numRows <= IntMax && numCols <= IntMax
    requires r < numRows && c < numCols
    ensures LineNumber(numCols, r, c) < |FileLines(numRows, numCols, cells)|
    ensures !LineBad(FileLines(numRows, numCols, cells), LineNumber(numCols, r, c), numRows, numCols)
    ensures LineStores(FileLines(numRows, numCols, cells), LineNumber(numCols, r, c), numRows, numCols, p) <==> p == Pos(r, c)
  {
    FileLineTile(cells, numRows, numCols, r, c);
    ParsedLine(FileLines(numRows, numCols, cells), LineNumber(numCols, r, c), numRows, numCols,
               Tile(r, c, cells[r][c].walls, false, Unvisited), p);
  }

  /** A tile line that parses is not bad, and names the position of its tile only. */
  lemma ParsedLine(lines: seq<string>, k: nat, numRows: int, numCols: int, t: Tile, p: Pos)
    requires 1 <= k < |lines| && lines[k] != "" && ParseTile(lines[k], k + 1, numRows, numCols) == Success(t)
    ensures !LineBad(lines, k, numRows, numCols)
    ensures LineStores(lines, k, numRows, numCols, p) <==> p == Pos(t.row, t.column)
  {
  }

  /**
   * Reading back the text the writer writes for a well-formed maze gives an array of the same
   * size holding, at every position, the tile there with its walls, not visited and UNVISITED.
   */
  lemma ReadWritten(cells: Cells, numRows: int, numCols: int)
    requires WellFormed(cells, numRows, numCols) && 1 <= numRows <= IntMax && 0 <= numCols <= IntMax
    ensures Parse(Lines(Unlines(FileLines(numRows, numCols, cells)))).Success?
    ensures SlotsShaped(Parse(Lines(Unlines(FileLines(numRows, numCols, cells)))).value, numRows, numCols)
    ensures forall r, c | 0 <= r < numRows && 0 <= c < numCols ::
              Parse(Lines(Unlines(FileLines(numRows, numCols, cells)))).value[r][c] ==
              Some(Tile(r, c, cells[r][c].walls, false, Unvisited))
  {
    var lines := FileLines(numRows, numCols, cells);
    WrittenLines(numRows, numCols, cells);
    FileLinesLayout(cells, numRows, numCols);
    HeaderParses(numRows, numCols);
    assert Parse(lines) == FillArray(lines, numRows, numCols);
    forall k | 0 <= k < |lines| ensures !LineBad(lines, k, numRows, numCols) {
      if k >= 1 {
        var r, c := TileOfLine(numRows, numCols, k);
        FileLineParses(cells, numRows, numCols, r, c, Pos(r, c));
      }
    }
    FillArraySucceeds(lines, numRows, numCols);
    forall r, c | 0 <= r < numRows && 0 <= c < numCols
      ensures FillArray(lines, numRows, numCols).value[r][c] == Some(Tile(r, c, cells[r][c].walls, false, Unvisited))
    {
      ReadBackAt(cells, numRows, numCols, r, c);
    }
  }

  /** The entry at `(r, c)` read back from the written text: the last line naming it is its own. */
  lemma ReadBackAt(cells: Cells, numRows: int, numCols: int, r: nat, c: nat)
    requires WellFormed(cells, numRows, numCols) && 1 <= numRows <= IntMax && 0 <= numCols <= IntMax
    requires r < numRows && c < numCols
    requires FillArray(FileLines(numRows, numCols, cells), numRows, numCols).Success?
    ensures FillArray(FileLines(numRows, numCols, cells), numRows, numCols).value[r][c] ==
            Some(Tile(r, c, cells[r][c].walls, false, Unvisited))
  {
    var lines := FileLines(numRows, numCols, cells);
    var k := LineNumber(numCols, r, c);
    FileLineTile(cells, numRows, numCols, r, c);
    FileLineParses(cells, numRows, numCols, r, c, Pos(r, c));
    LaterLinesElsewhere(cells, numRows, numCols, r, c);
    FillArrayLastLine(lines, numRows, numCols, Pos(r, c), k);
  }

  /** No line after the one of tile `(r, c)` in the written file names `(r, c)`. */
  lemma LaterLinesElsewhere(cells: Cells, numRows: int, numCols: int, r: nat, c: nat)
    requires WellFormed(cells, numRows, numCols) && 1 <= numRows <= IntMax && 0 <= numCols <= IntMax
    requires r < numRows && c < numCols
    ensures forall j | LineNumber(numCols, r, c) < j < |FileLines(numRows, numCols, cells)| ::
              !LineStores(FileLines(numRows, numCols, cells), j, numRows, numCols, Pos(r, c))
  {
    var lines := FileLines(numRows, numCols, cells);
    FileLinesLayout(cells, numRows, numCols);
    forall j | LineNumber(numCols, r, c) < j < |lines| ensures !LineStores(lines, j, numRows, numCols, Pos(r, c)) {
      var r', c' := TileOfLine(numRows, numCols, j);
      FileLineParses(cells, numRows, numCols, r', c', Pos(r, c));
    }
  }

  // ----- the method -----

  /** The entries of a two-dimensional array, row by row. */
  function Contents(tiles: array2<Option<Tile>>): (grid: Slots)
    reads tiles
    ensures SlotsShaped(grid, tiles.Length0, tiles.Length1)
    ensures forall r, c | 0 <= r < tiles.Length0 && 0 <= c < tiles.Length1 :: grid[r][c] == tiles[r, c]
  {
    seq(tiles.Length0, r requires 0 <= r < tiles.Length0 reads tiles =>
      seq(tiles.Length1, c requires 0 <= c < tiles.Length1 reads tiles => tiles[r, c]))
  }

  /** `tiles[row][col] = new TileModel(row, col, walls)` on the array itself. */
  method Store(tiles: array2<Option<Tile>>, t: Tile)
    requires 0 <= t.row < tiles.Length0 && 0 <= t.column < tiles.Length1
    modifies tiles
    ensures Contents(tiles) == Place(old(Contents(tiles)), t)
  {
    ghost var before := Contents(tiles);
    tiles[t.row, t.column] := Some(t);
    var after := Contents(tiles);
    forall r | 0 <= r < tiles.Length0
      ensures after[r] == Place(before, t)[r]
    {
    }
  }

  /**
   * `read(file)` given the file's lines: the same checks in the same order, and the result
   * `Parse` describes.
   */
  method Read(lines: seq<string>) returns (r: Result<Slots, ReadError>)
    ensures r == Parse(lines)
  {
    if |lines| == 0 {
      return Failure(EmptyFile);
    }
    var size := ParseSize(lines[0]);
    if size.Failure? {
      return Failure(size.error);
    }
    r := ReadArray(lines, size.value.0, size.value.1);
  }

  /**
   * The part of `read` after the size line: one array, created once, into which the tile
   * lines are stored as they come.
   */
  method ReadArray(lines: seq<string>, numRows: int, numCols: int) returns (r: Result<Slots, ReadError>)
    requires 1 <= |lines|
    ensures r == FillArray(lines, numRows, numCols)
  {
    if numRows < 0 || numCols < 0 {
      return Failure(NegativeSize);
    }
    var tiles := new Option<Tile>[numRows, numCols]((r, c) => None);
    assert Contents(tiles) == Empty(numRows, numCols) by {
      forall r | 0 <= r < numRows
        ensures Contents(tiles)[r] == Empty(numRows, numCols)[r]
      {
      }
    }
    ghost var outcomes := Outcomes(lines, numRows, numCols);
    ghost var result := Fill(outcomes, 1, numRows, numCols, Empty(numRows, numCols));
    for i := 1 to |lines|
      invariant tiles.Length0 == numRows && tiles.Length1 == numCols
      invariant Fill(outcomes, i, numRows, numCols, Contents(tiles)) == result
    {
      var error := ReadLine(tiles, lines, i, outcomes);
      if error.Some? {
        return Failure(error.value);
      }
    }
    if numRows == 0 {
      return Failure(NoRows);
    }
    return Success(Contents(tiles));
  }

  /**
   * One turn of the loop: an empty line is skipped, a bad line reports its error, a valid
   * one is stored.
   */
  method ReadLine(tiles: array2<Option<Tile>>, lines: seq<string>, i: nat, ghost outcomes: seq<Outcome>)
      returns (error: Option<ReadError>)
    requires 1 <= i < |lines| && outcomes == Outcomes(lines, tiles.Length0, tiles.Length1)
    modifies tiles
    ensures error.Some? ==> Fill(outcomes, i, tiles.Length0, tiles.Length1, old(Contents(tiles))) == Failure(error.value)
    ensures error.None? ==> Fill(outcomes, i + 1, tiles.Length0, tiles.Length1, Contents(tiles)) ==
                            Fill(outcomes, i, tiles.Length0, tiles.Length1, old(Contents(tiles)))
  {
    var line := lines[i];
    if line == "" {
      return None;
    }
    var tile := ParseTile(line, i + 1, tiles.Length0, tiles.Length1);
    assert outcomes[i] == Some(tile);
    if tile.Failure? {
      return Some(tile.error);
    }
    Store(tiles, tile.value);
    return None;
  }
}
