/**
 * The text grid that printMaze and saveToText fill row by row: n+1 rows of
 * 2n+1 glyphs, each chosen by `getToPrintStr`.  Cell (r, c) is drawn at row
 * r+1, column 2c+1, where its "_" is its bottom wall; the "|" to its right at
 * column 2c+2 is its right wall.  Row 0 is the top border and columns 0 and 2n
 * are the side borders.  A position listed in toDelWalls is drawn blank
 * instead.
 */
module Render {
  import opened Walls
  import opened Generation

  /** The glyph `getToPrintStr` draws at row i, column j when that position is not open. */
  function DefaultGlyph(i: int, j: int): (r: string)
    ensures |r| == 1
    ensures j % 2 != 0 ==> r == "_"
    ensures j % 2 == 0 && i == 0 ==> r == " "
    ensures j % 2 == 0 && i != 0 ==> r == "|"
  {
    if i % 2 == 0 then
      if j % 2 == 0 then (if i == 0 then " " else "|") else "_"
    else
      if j % 2 == 0 then "|" else "_"
  }

  /** The position (row, col) lies in the text grid of a maze of order n. */
  predicate InGrid(n: nat, c: Coord)
  {
    0 <= c.row <= n && 0 <= c.col <= 2 * n
  }

  /** The position c lies in the grid and comes before (i, j) in row-major order. */
  predicate Before(n: nat, c: Coord, i: nat, j: nat)
  {
    InGrid(n, c) && (c.row < i || (c.row == i && c.col < j))
  }

  /**
   * `getToPrintStr(i, j, toDelWalls)`: a position listed in toDelWalls is drawn
   * blank and its key is taken out of the set; any other position gets its
   * default glyph and leaves the set as it was.
   */
  method GetToPrintStr(i: nat, j: nat, toDelWalls: set<Coord>) returns (toPrintStr: string, rest: set<Coord>)
    ensures Coord(i, j) in toDelWalls ==> toPrintStr == " "
    ensures Coord(i, j) !in toDelWalls ==> toPrintStr == DefaultGlyph(i, j)
    ensures rest == toDelWalls - {Coord(i, j)}
  {
    toPrintStr := DefaultGlyph(i, j);
    rest := toDelWalls;
    if Coord(i, j) in toDelWalls {
      toPrintStr := " ";
      rest := rest - {Coord(i, j)};
    }
  }

  /** The glyph shown at row i, column j for the open positions `open`. */
  function Shown(i: int, j: int, open: set<Coord>): char
  {
    if Coord(i, j) in open then ' ' else DefaultGlyph(i, j)[0]
  }

  /**
   * The two nested loops of printMaze and saveToText, collecting the rows
   * instead of writing them out.  Each position shows its glyph, and every
   * position of the grid has been taken out of the set afterwards.
   */
  method BuildGrid(n: nat, toDelWalls: set<Coord>) returns (rows: seq<string>, rest: set<Coord>)
    ensures |rows| == n + 1
    ensures forall i :: 0 <= i < |rows| ==> |rows[i]| == 2 * n + 1
    ensures forall i, j :: 0 <= i < |rows| && 0 <= j < |rows[i]| ==> rows[i][j] == Shown(i, j, toDelWalls)
    ensures rest == set c | c in toDelWalls && !InGrid(n, c)
  {
    rows, rest := [], toDelWalls;
    var i: nat := 0;
    while i < n + 1
      invariant i <= n + 1 && |rows| == i
      invariant forall r :: 0 <= r < i ==> |rows[r]| == 2 * n + 1
      invariant forall r, j :: 0 <= r < i && 0 <= j < 2 * n + 1 ==> rows[r][j] == Shown(r, j, toDelWalls)
      invariant rest == set c | c in toDelWalls && !Before(n, c, i, 0)
    {
      var line := "";
      var j: nat := 0;
      while j < 2 * n + 1
        invariant j <= 2 * n + 1 && |line| == j
        invariant forall k :: 0 <= k < j ==> line[k] == Shown(i, k, toDelWalls)
        invariant rest == set c | c in toDelWalls && !Before(n, c, i, j)
      {
        assert Coord(i, j) in rest <==> Coord(i, j) in toDelWalls;
        var glyph;
        glyph, rest := GetToPrintStr(i, j, rest);
        line := line + glyph;
        j := j + 1;
      }
      rows := rows + [line];
      i := i + 1;
    }
  }

  /** An internal wall is drawn as "|" when it is a right wall and as "_" when it is a bottom wall. */
  lemma WallGlyph(n: nat, w: Wall)
    requires n >= 1 && IsGridWall(n, w)
    ensures IsRightWall(n, w) ==> DefaultGlyph(Coordinate(n, w).row, Coordinate(n, w).col) == "|"
    ensures IsBottomWall(n, w) ==> DefaultGlyph(Coordinate(n, w).row, Coordinate(n, w).col) == "_"
  {
    CoordinateOfWall(n, w);
  }

  /** A position on the border of the text grid, other than the entrance and the exit. */
  predicate OnBorder(n: nat, c: Coord)
  {
    InGrid(n, c) && c != Entrance() && c != Exit(n) &&
    (c.row == 0 || c.col == 0 || c.col == 2 * n || (c.row == n && c.col % 2 == 1))
  }

  /** No wall lies on the border: an internal wall's position is never a border position. */
  lemma WallsInside(n: nat, w: Wall)
    requires n >= 1 && w in Grid(n)
    ensures !OnBorder(n, Coordinate(n, w))
  {
    GridMembers(n);
    CoordinateOfWall(n, w);
    CoordinateInjective(n, w, w);
  }

  /**
   * Whatever the draws, the maze stays closed except for its entrance and exit:
   * no border position is ever marked open, so each shows its default glyph,
   * which is "_" on odd columns and "|" on even columns below the top row.
   */
  lemma EnclosedMaze(n: nat, g: Gen, c: Coord)
    requires Inv(n, g) && OnBorder(n, c)
    ensures c !in g.toDel
    ensures Shown(c.row, c.col, g.toDel) == DefaultGlyph(c.row, c.col)[0]
    ensures c.col % 2 == 1 ==> DefaultGlyph(c.row, c.col) == "_"
    ensures c.col % 2 == 0 && c.row > 0 ==> DefaultGlyph(c.row, c.col) == "|"
  {
    if c in RemovedCoords(n, g.data) {
      var w :| w in Grid(n) && w !in g.data && Coordinate(n, w) == c;
      WallsInside(n, w);
    }
  }

  /** An internal wall's position is among the positions a run opened exactly when the run took the wall out. */
  lemma OpenedWall(n: nat, data: seq<Wall>, w: Wall)
    requires n >= 1 && w in Grid(n)
    ensures Coordinate(n, w) in Fixed(n) + RemovedCoords(n, data) <==> w !in data
  {
    var c := Coordinate(n, w);
    GridMembers(n);
    CoordinateInjective(n, w, w);
    if w in data && c in RemovedCoords(n, data) {
      var v :| v in Grid(n) && v !in data && Coordinate(n, v) == c;
      CoordinateInjective(n, v, w);
    }
  }

  /** An internal wall is never drawn as a blank by default. */
  lemma WallNotBlank(n: nat, w: Wall)
    requires n >= 1 && w in Grid(n)
    ensures DefaultGlyph(Coordinate(n, w).row, Coordinate(n, w).col)[0] != ' '
  {
    GridMembers(n);
    WallGlyph(n, w);
  }

  /**
   * In the drawing of a run's toDelWalls, an internal wall's position is blank
   * exactly when the run removed that wall; otherwise it shows the wall.
   */
  lemma DrawnWall(n: nat, g: Gen, w: Wall)
    requires Inv(n, g) && w in Grid(n)
    ensures Shown(Coordinate(n, w).row, Coordinate(n, w).col, g.toDel) == ' ' <==> w !in g.data
  {
    var c := Coordinate(n, w);
    WallNotBlank(n, w);
    OpenedWall(n, g.data, w);
    assert c in g.toDel <==> w !in g.data;
  }
}
