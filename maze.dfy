/**
 * The MazeGenerate object.  It owns the union-find forest (`array`, with -1
 * for a root) and the set allCell of absorbed cells.  It builds the wall
 * list, then runs the randomised Kruskal-style loop that removes walls until
 * all cells form one tree.  Each method is proved against the state-based
 * model in module Generation.
 */
module Maze {
  import opened UnionFind
  import opened Walls
  import opened Generation

  class MazeGenerate {
    /** The number of cells, n·n. */
    const size: nat
    /** The order n of the grid. */
    const sqrt: nat
    /** The source's `array`: parent links of the forest, -1 for a root, otherwise a larger cell. */
    const parent: array<int>
    /** The cells some union has hung under another root. */
    var allCell: set<int>

    ghost predicate Valid()
      reads this
    {
      sqrt >= 1 && size == sqrt * sqrt && parent.Length == size
    }

    /** The forest has been initialised: every parent link points to a larger cell. */
    ghost predicate Forest()
      reads this, parent
    {
      Valid() && Ordered(parent[..])
    }

    /** `new MazeGenerate(n)`: an n×n grid; `array` is zero-filled until a run resets it. */
    constructor (n: nat)
      requires n >= 1
      ensures Valid() && sqrt == n && size == n * n && allCell == {}
      ensures fresh(parent) && forall x :: 0 <= x < size ==> parent[x] == 0
    {
      size := n * n;
      sqrt := n;
      parent := new int[n * n](_ => 0);
      allCell := {};
    }

    /** `find(i)`: follows parent links from i up to its root. */
    method Find(i: nat) returns (result: nat)
      requires Forest() && i < size
      ensures result == Root(parent[..], i)
    {
      result := i;
      while parent[result] != -1
        invariant result < size
        invariant Root(parent[..], result) == Root(parent[..], i)
        decreases size - result
      {
        assert parent[..][result] == parent[result];
        result := parent[result];
      }
    }

    /** `union(i, j)`: hangs the smaller of the two roots under the larger and records it in allCell. */
    method Union(i: nat, j: nat)
      requires Forest() && i < size && j < size
      modifies parent, this`allCell
      ensures Forest()
      ensures parent[..] == Link(old(parent[..]), i, j)
      ensures allCell == old(allCell) + Absorbed(old(parent[..]), i, j)
    {
      var result1 := Find(i);
      var result2 := Find(j);
      if result1 == result2 {
        return;
      }
      if result1 > result2 {
        parent[result2] := result1;
        allCell := allCell + {result2};
      } else {
        parent[result1] := result2;
        allCell := allCell + {result1};
      }
    }

    /** `getAllWalls()`: the right and bottom wall of every cell that has one. */
    method GetAllWalls() returns (allWalls: seq<Wall>)
      requires Valid()
      ensures allWalls == Grid(sqrt)
      ensures |allWalls| == 2 * sqrt * (sqrt - 1)
    {
      SquarePositive(sqrt);
      allWalls := [];
      var i: nat := 0;
      while i < size - 1
        invariant i <= size - 1
        invariant allWalls == WallsBefore(sqrt, i)
      {
        WallsBeforeNext(sqrt, i);
        var k := i + 1;
        var l := i + sqrt;
        if (i + 1) % sqrt == 0 {
          allWalls := allWalls + [Wall(i, l)];
          assert allWalls == WallsBefore(sqrt, i + 1);
        } else if size - sqrt <= i {
          allWalls := allWalls + [Wall(i, k)];
          assert allWalls == WallsBefore(sqrt, i + 1);
        } else {
          allWalls := allWalls + [Wall(i, k)];
          allWalls := allWalls + [Wall(i, l)];
          assert allWalls == WallsBefore(sqrt, i + 1);
        }
        i := i + 1;
      }
      GridSize(sqrt);
    }

    /** `isContinue()`: whether the loop of `generateMaze` goes on. */
    method IsContinue() returns (b: bool)
      requires Forest()
      ensures b == Continue(parent[..], allCell)
    {
      SquarePositive(sqrt);
      var r := Find(0);
      if r != size - 1 {
        return true;
      }
      return |allCell| < size - 1;
    }

    /**
     * `generateMaze(data)`, drawing its random indices from `draws`.  The run
     * is the one the model in module Generation describes, and `remaining` is
     * what is left of the wall list the source shrinks in place.  The run never
     * draws from an empty list, and toDelWalls holds the entrance, the exit and
     * the positions of the walls taken out.  When it finishes, the forest is one
     * tree, n·n-1 walls are gone and they connect every cell to every other.
     * Unlike the source, allCell is cleared before the loop.
     */
    method GenerateMaze(data: seq<Wall>, draws: seq<nat>) returns (toDelWalls: set<Coord>, remaining: seq<Wall>, finished: bool)
      requires Valid() && data == Grid(sqrt)
      modifies parent, this`allCell
      ensures Forest()
      ensures var o := Run(sqrt, Start(sqrt), draws);
        !o.Stuck? && finished == o.Done? &&
        parent[..] == o.g.parent && allCell == o.g.allCell && toDelWalls == o.g.toDel && remaining == o.g.data
      ensures toDelWalls == Fixed(sqrt) + RemovedCoords(sqrt, remaining)
      ensures finished ==>
        (forall c :: 0 <= c < size ==> Root(parent[..], c) == size - 1) &&
        |data| - |remaining| == size - 1 && |toDelWalls| == size + 1
      ensures finished ==> forall x, y :: 0 <= x < size && 0 <= y < size ==> Connected(sqrt, remaining, x, y)
    {
      SquarePositive(sqrt);
      toDelWalls := {Coord(1, 0), Coord(sqrt, 2 * sqrt)};
      var j := 0;
      while j < size
        invariant 0 <= j <= size
        invariant forall x :: 0 <= x < j ==> parent[x] == -1
      {
        parent[j] := -1;
        j := j + 1;
      }
      allCell := {};
      ghost var start := Start(sqrt);
      assert parent[..] == start.parent;
      StartInv(sqrt);

      remaining := data;
      var t := 0;
      var cont := IsContinue();
      while cont && t < |draws|
        invariant Forest()
        invariant 0 <= t <= |draws|
        invariant Inv(sqrt, Gen(parent[..], allCell, remaining, toDelWalls))
        invariant Run(sqrt, start, draws) == Run(sqrt, Gen(parent[..], allCell, remaining, toDelWalls), draws[t..])
        invariant cont == Continue(parent[..], allCell)
        decreases |draws| - t
      {
        ghost var g := Gen(parent[..], allCell, remaining, toDelWalls);
        Progress(sqrt, g);
        var wallCode := draws[t] % |remaining|;
        remaining, toDelWalls := TryRemove(remaining, toDelWalls, wallCode);
        StepInv(sqrt, g, wallCode);
        assert draws[t..][1..] == draws[t + 1..];
        t := t + 1;
        cont := IsContinue();
      }
      finished := !cont;
      ghost var last := Gen(parent[..], allCell, remaining, toDelWalls);
      assert Run(sqrt, start, draws) == (if cont then OutOfDraws(last) else Done(last));
      Generate(sqrt, draws);
      assert finished ==> forall c :: 0 <= c < size ==> Root(last.parent, c) == size - 1;
    }

    /**
     * The body of the `generateMaze` loop for the drawn index `wallCode`: if the
     * wall's cells are in different classes, swap it with the last wall and
     * pop it, unite the classes and record the wall's position.
     */
    method TryRemove(data: seq<Wall>, toDelWalls: set<Coord>, wallCode: nat)
      returns (data': seq<Wall>, toDelWalls': set<Coord>)
      requires Forest() && Ready(sqrt, Gen(parent[..], allCell, data, toDelWalls)) && wallCode < |data|
      modifies parent, this`allCell
      ensures Forest()
      ensures Gen(parent[..], allCell, data', toDelWalls') ==
        Step(sqrt, Gen(old(parent[..]), old(allCell), data, toDelWalls), wallCode)
    {
      data', toDelWalls' := data, toDelWalls;
      var wall := data[wallCode];
      var firstCellCode := wall.first;
      var secondCellCode := wall.second;
      var root1 := Find(firstCellCode);
      var root2 := Find(secondCellCode);
      if root1 != root2 {
        var maxIndex := |data| - 1;
        data' := data'[wallCode := data'[maxIndex]];
        data' := data'[..maxIndex];
        Union(firstCellCode, secondCellCode);
        toDelWalls' := toDelWalls' + {Coordinate(sqrt, wall)};
      }
    }

    /**
     * `getDeletedWalls()`: builds the wall list and runs `generateMaze` on it;
     * the walls whose positions it returns connect every cell when the run finishes.
     */
    method GetDeletedWalls(draws: seq<nat>) returns (toDelWalls: set<Coord>, finished: bool)
      requires Valid()
      modifies parent, this`allCell
      ensures Forest()
      ensures var o := Run(sqrt, Start(sqrt), draws);
        !o.Stuck? && finished == o.Done? &&
        parent[..] == o.g.parent && allCell == o.g.allCell && toDelWalls == o.g.toDel
      ensures finished ==>
        (forall c :: 0 <= c < size ==> Root(parent[..], c) == size - 1) &&
        |toDelWalls| == size + 1 && Fixed(sqrt) <= toDelWalls
      ensures var left := Run(sqrt, Start(sqrt), draws).g.data;
        toDelWalls == Fixed(sqrt) + RemovedCoords(sqrt, left) &&
        (finished ==> forall x, y :: 0 <= x < size && 0 <= y < size ==> Connected(sqrt, left, x, y))
    {
      var allWalls := GetAllWalls();
      var remaining;
      toDelWalls, remaining, finished := GenerateMaze(allWalls, draws);
    }
  }
}
