/**
 * The walls of an n×n grid of cells (cell i sits at row i / n, column i % n),
 * the list `getAllWalls` builds, and the position in the rendered text grid
 * that the `Wall` constructor computes for each wall.
 */
module Walls {

  /** The wall between cells `first` and `second` (firstCellCode, secondCellCode). */
  datatype Wall = Wall(first: nat, second: nat)

  /** A (row, column) position in the rendered grid; the source keys it as the text "row,col". */
  datatype Coord = Coord(row: int, col: int)

  /** The position the `Wall` constructor computes on a grid of order n. */
  function Coordinate(n: nat, w: Wall): (c: Coord)
    requires n >= 1
    ensures c.row >= 1 && 0 <= c.col < 2 * n
  {
    var y :=
      if n == w.second - w.first then (w.second % n) * 2 + 1
      else if 1 == w.second - w.first then (w.second % n) * 2
      else 0;
    Coord(w.first / n + 1, y)
  }

  /** The wall to the right of cell `first`, inside its row. */
  predicate IsRightWall(n: nat, w: Wall)
    requires n >= 1
  {
    w.second == w.first + 1 && (w.first + 1) % n != 0 && w.second < n * n
  }

  /** The wall below cell `first`, above the last row. */
  predicate IsBottomWall(n: nat, w: Wall)
    requires n >= 1
  {
    w.second == w.first + n && w.second < n * n
  }

  predicate IsGridWall(n: nat, w: Wall)
    requires n >= 1
  {
    IsRightWall(n, w) || IsBottomWall(n, w)
  }

  /** The walls one iteration of the `getAllWalls` loop appends for cell i. */
  function CellWalls(n: nat, i: nat): (r: seq<Wall>)
    requires n >= 1
    ensures 1 <= |r| <= 2
    ensures forall k :: 0 <= k < |r| ==> r[k].first == i && (r[k].second == i + 1 || r[k].second == i + n)
  {
    if (i + 1) % n == 0 then [Wall(i, i + n)]
    else if n * n - n <= i then [Wall(i, i + 1)]
    else [Wall(i, i + 1), Wall(i, i + n)]
  }

  /** The list `getAllWalls` has built once it has handled cells 0 .. m-1. */
  function WallsBefore(n: nat, m: nat): (r: seq<Wall>)
    requires n >= 1 && m < n * n
    ensures forall k :: 0 <= k < |r| ==> r[k].first < m && r[k].first < r[k].second < n * n
  {
    if m == 0 then [] else
      MultipleBelowSquare(n, m - 1);
      WallsBefore(n, m - 1) + CellWalls(n, m - 1)
  }

  /** One more iteration of `getAllWalls`, branch by branch: what it appends for cell m. */
  lemma WallsBeforeNext(n: nat, m: nat)
    requires n >= 1 && m + 1 < n * n
    ensures (m + 1) % n == 0 ==> WallsBefore(n, m + 1) == WallsBefore(n, m) + [Wall(m, m + n)]
    ensures (m + 1) % n != 0 && n * n - n <= m ==> WallsBefore(n, m + 1) == WallsBefore(n, m) + [Wall(m, m + 1)]
    ensures (m + 1) % n != 0 && m < n * n - n ==>
      WallsBefore(n, m + 1) == WallsBefore(n, m) + [Wall(m, m + 1)] + [Wall(m, m + n)]
  {
    var prefix := WallsBefore(n, m);
    assert WallsBefore(n, m + 1) == prefix + CellWalls(n, m);
    assert prefix + [Wall(m, m + 1), Wall(m, m + n)] == prefix + [Wall(m, m + 1)] + [Wall(m, m + n)];
  }

  /** The complete list `getAllWalls` returns. */
  function Grid(n: nat): (r: seq<Wall>)
    requires n >= 1
    ensures forall w :: w in r ==> w.first < w.second < n * n
  {
    SquarePositive(n);
    WallsBefore(n, n * n - 1)
  }

  /** u comes before w when listed by first cell, then by second cell. */
  predicate Precedes(u: Wall, w: Wall)
  {
    u.first < w.first || (u.first == w.first && u.second < w.second)
  }

  // ---------------------------------------------------------------------------
  // Arithmetic on cell numbers.

  lemma SquarePositive(n: nat)
    requires n >= 1
    ensures n * n >= n >= 1
  {
  }

  lemma MulAtLeast(k: int, n: int)
    requires k >= 1 && n > 0
    ensures k * n >= n
  {
  }

  lemma MulMonotone(a: int, b: int, n: int)
    requires a <= b && n >= 0
    ensures a * n <= b * n
  {
    assert b * n - a * n == (b - a) * n;
  }

  /** Division and remainder are determined by any decomposition a == q * n + r. */
  lemma DivModUnique(a: int, n: int, q: int, r: int)
    requires n > 0 && 0 <= r < n && a == q * n + r
    ensures a / n == q && a % n == r
  {
    var q', r' := a / n, a % n;
    assert a == q' * n + r';
    var d := q - q';
    assert d * n == r' - r;
    if d > 0 {
      MulAtLeast(d, n);
    } else if d < 0 {
      MulAtLeast(-d, n);
    }
  }

  /** The cell after i lies one column to the right unless i ends its row. */
  lemma NextCell(n: nat, i: nat)
    requires n >= 1
    ensures (i + 1) % n == 0 <==> i % n == n - 1
    ensures (i + 1) % n != 0 ==> (i + 1) % n == i % n + 1 && (i + 1) / n == i / n
    ensures (i + 1) % n == 0 ==> (i + 1) / n == i / n + 1
  {
    var q, r := i / n, i % n;
    if r == n - 1 {
      DivModUnique(i + 1, n, q + 1, 0);
    } else {
      DivModUnique(i + 1, n, q, r + 1);
    }
  }

  /** The cell n further on lies one row down, in the same column. */
  lemma CellBelow(n: nat, i: nat)
    requires n >= 1
    ensures (i + n) % n == i % n && (i + n) / n == i / n + 1
  {
    DivModUnique(i + n, n, i / n + 1, i % n);
  }

  /** A cell of an n×n grid lies in one of its n rows, and one above the last row lies in the first n-1. */
  lemma RowBound(n: nat, i: nat)
    requires n >= 1 && i < n * n
    ensures i / n < n
    ensures i + n < n * n ==> i / n < n - 1
  {
    var q := i / n;
    assert i == q * n + i % n;
    if q >= n {
      MulMonotone(n, q, n);
    }
    if i + n < n * n && q >= n - 1 {
      MulMonotone(n - 1, q, n);
    }
  }

  /** The last cell of a row that is not the last row has a cell below it. */
  lemma MultipleBelowSquare(n: nat, i: nat)
    requires n >= 1
    ensures (i + 1) % n == 0 && i + 1 < n * n ==> i + n < n * n
  {
    if (i + 1) % n == 0 && i + 1 < n * n {
      var q := (i + 1) / n;
      assert i + 1 == q * n;
      if q >= n {
        MulMonotone(n, q, n);
      }
      MulMonotone(q, n - 1, n);
    }
  }

  /** A cell other than 0 at the start of a row has a row above it. */
  lemma RowStart(n: nat, c: nat)
    requires n >= 1 && c > 0 && c % n == 0
    ensures c >= n
  {
    var q := c / n;
    assert c == q * n;
    if q >= 1 {
      MulAtLeast(q, n);
    }
  }

  // ---------------------------------------------------------------------------
  // The wall list.

  /** What cell i contributes: its right wall, if any, and its bottom wall, if any. */
  lemma CellWallsMembers(n: nat, i: nat)
    requires n >= 1 && i + 1 < n * n
    ensures forall w :: w in CellWalls(n, i) <==> w.first == i && IsGridWall(n, w)
    ensures |CellWalls(n, i)| ==
      (if (i + 1) % n != 0 then 1 else 0) + (if i + n < n * n then 1 else 0)
  {
    if (i + 1) % n == 0 {
      MultipleBelowSquare(n, i);
    }
  }

  lemma {:induction false} WallsBeforeMembers(n: nat, m: nat)
    requires n >= 1 && m < n * n
    ensures forall w :: w in WallsBefore(n, m) <==> w.first < m && IsGridWall(n, w)
  {
    if m > 0 {
      WallsBeforeMembers(n, m - 1);
      CellWallsMembers(n, m - 1);
      var prefix, cell := WallsBefore(n, m - 1), CellWalls(n, m - 1);
      assert WallsBefore(n, m) == prefix + cell;
      forall w: Wall | w in prefix + cell
        ensures w.first < m && IsGridWall(n, w)
      {
        assert w in prefix || w in cell;
      }
      forall w: Wall | w.first < m && IsGridWall(n, w)
        ensures w in prefix + cell
      {
        if w.first < m - 1 {
          assert w in prefix;
        } else {
          assert w in cell;
        }
      }
    }
  }

  /**
   * `getAllWalls` lists exactly the walls between grid-adjacent cells: (i, i+1)
   * when i does not end its row, and (i, i+n) when i is above the last row.
   */
  lemma GridMembers(n: nat)
    requires n >= 1
    ensures forall w :: w in Grid(n) <==> IsGridWall(n, w)
  {
    SquarePositive(n);
    WallsBeforeMembers(n, n * n - 1);
    forall w | IsGridWall(n, w)
      ensures w.first < n * n - 1
    {
    }
  }

  lemma {:induction false} WallsBeforeSize(n: nat, m: nat)
    requires n >= 1 && m < n * n
    ensures |WallsBefore(n, m)| == (m - m / n) + (if m < n * n - n then m else n * n - n)
  {
    if m == 0 {
      DivModUnique(0, n, 0, 0);
    } else {
      var i := m - 1;
      WallsBeforeSize(n, i);
      NextCell(n, i);
      MultipleBelowSquare(n, i);
      assert |WallsBefore(n, m)| == |WallsBefore(n, i)| + |CellWalls(n, i)|;
      if (i + 1) % n == 0 {
        assert m / n == i / n + 1 && i < n * n - n;
      } else {
        assert m / n == i / n;
      }
    }
  }

  /** An n×n grid has 2·n·(n-1) internal walls: none at all for n = 1. */
  lemma GridSize(n: nat)
    requires n >= 1
    ensures |Grid(n)| == 2 * n * (n - 1)
  {
    SquarePositive(n);
    WallsBeforeSize(n, n * n - 1);
    DivModUnique(n * n - 1, n, n - 1, n - 1);
  }

  lemma {:induction false} WallsBeforeSorted(n: nat, m: nat)
    requires n >= 1 && m < n * n
    ensures forall a, b :: 0 <= a < b < |WallsBefore(n, m)| ==>
      Precedes(WallsBefore(n, m)[a], WallsBefore(n, m)[b])
  {
    if m > 0 {
      WallsBeforeSorted(n, m - 1);
      var prefix, cell := WallsBefore(n, m - 1), CellWalls(n, m - 1);
      var s := WallsBefore(n, m);
      assert s == prefix + cell;
      forall a, b | 0 <= a < b < |s|
        ensures Precedes(s[a], s[b])
      {
        if b < |prefix| {
          assert s[a] == prefix[a] && s[b] == prefix[b];
        } else if a < |prefix| {
          assert s[a] == prefix[a] && s[a] in prefix;
          assert s[b] == cell[b - |prefix|];
        } else {
          assert s[a] == cell[a - |prefix|] && s[b] == cell[b - |prefix|];
        }
      }
    }
  }

  /**
   * `getAllWalls` lists the walls in increasing order of their first cell, a
   * cell's right wall before its bottom wall, and so never lists a wall twice.
   */
  lemma GridSorted(n: nat)
    requires n >= 1
    ensures forall a, b :: 0 <= a < b < |Grid(n)| ==> Precedes(Grid(n)[a], Grid(n)[b])
    ensures forall a, b :: 0 <= a < b < |Grid(n)| ==> Grid(n)[a] != Grid(n)[b]
  {
    SquarePositive(n);
    WallsBeforeSorted(n, n * n - 1);
  }

  // ---------------------------------------------------------------------------
  // Wall positions in the rendered grid.

  /** The entrance opened to the left of cell 0. */
  function Entrance(): Coord { Coord(1, 0) }

  /** The exit opened to the right of the last cell. */
  function Exit(n: nat): Coord { Coord(n, 2 * n) }

  /**
   * Cell i is drawn around row i/n + 1, column 2·(i%n) + 1 of the text grid; its
   * right wall sits one column to the right of that, its bottom wall under it.
   * Both lie strictly inside the text grid's borders.
   */
  lemma CoordinateOfWall(n: nat, w: Wall)
    requires n >= 1 && IsGridWall(n, w)
    ensures IsRightWall(n, w) ==> Coordinate(n, w) == Coord(w.first / n + 1, 2 * (w.first % n) + 2)
    ensures IsBottomWall(n, w) ==> Coordinate(n, w) == Coord(w.first / n + 1, 2 * (w.first % n) + 1)
    ensures 1 <= Coordinate(n, w).row <= n && 1 <= Coordinate(n, w).col < 2 * n
    ensures IsBottomWall(n, w) ==> Coordinate(n, w).row < n
  {
    var i := w.first;
    RowBound(n, i);
    if IsRightWall(n, w) {
      assert n != 1;
      NextCell(n, i);
    } else {
      CellBelow(n, i);
    }
  }

  /** A cell is determined by its row and its column. */
  lemma SameCell(n: nat, a: nat, b: nat)
    requires n >= 1 && a / n == b / n && a % n == b % n
    ensures a == b
  {
    assert a == (a / n) * n + a % n;
    assert b == (b / n) * n + b % n;
  }

  /**
   * Distinct walls are drawn at distinct positions, and none of them at the
   * entrance (1, 0) or at the exit (n, 2n).
   */
  lemma CoordinateInjective(n: nat, u: Wall, w: Wall)
    requires n >= 1 && IsGridWall(n, u) && IsGridWall(n, w)
    ensures Coordinate(n, u) == Coordinate(n, w) ==> u == w
    ensures Coordinate(n, w) != Entrance() && Coordinate(n, w) != Exit(n)
  {
    CoordinateOfWall(n, u);
    CoordinateOfWall(n, w);
    if Coordinate(n, u) == Coordinate(n, w) {
      var a, b := u.first, w.first;
      assert a / n == b / n;
      if IsRightWall(n, u) {
        assert IsRightWall(n, w);
        assert a % n == b % n;
      } else {
        assert IsBottomWall(n, w);
        assert a % n == b % n;
      }
      SameCell(n, a, b);
    }
  }
}
