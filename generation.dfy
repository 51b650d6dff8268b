/**
 * One run of `generateMaze` as a sequence of states.  A state holds the
 * parent array, allCell, the remaining wall list `data` and the positions
 * collected in toDelWalls.  Each loop iteration draws an index into `data`.
 * If the wall there joins two classes, it is swapped with the last wall and
 * popped, the classes are united, and its position is recorded.  Otherwise
 * nothing changes.  The loop stops once `isContinue()` is false.
 *
 * The random source is a finite sequence of draws: the t-th iteration uses
 * data[draws[t] % |data|].  A run either finishes, runs out of draws, or would
 * call nextInt(0) on an empty list; the last case is proved impossible.
 */
module Generation {
  import opened UnionFind
  import opened Walls

  /** The state of a `generateMaze` run. */
  datatype Gen = Gen(parent: seq<int>, allCell: set<int>, data: seq<Wall>, toDel: set<Coord>)

  /** How a run with finitely many draws ends. */
  datatype Outcome =
    | Done(g: Gen)        // isContinue() became false
    | OutOfDraws(g: Gen)  // the draws ran out while isContinue() still held
    | Stuck(g: Gen)       // isContinue() held with `data` empty: nextInt(0) would throw

  /** The entrance and exit positions opened before the loop starts. */
  function Fixed(n: nat): (r: set<Coord>)
    ensures |r| == 2
    ensures forall c :: c in r ==> c.col == 0 || c.col == 2 * n
  {
    {Entrance(), Exit(n)}
  }

  /** The shape every state has: an ordered forest over n·n cells and walls between those cells. */
  predicate Ready(n: nat, g: Gen)
  {
    n >= 1 && |g.parent| == n * n && |g.parent| >= 1 && Ordered(g.parent) &&
    forall w :: w in g.data ==> w.first < n * n && w.second < n * n
  }

  /**
   * `isContinue()`: cell 0 is not yet under the last cell, or fewer than size-1
   * cells were absorbed.  While allCell records the absorbed cells, that is
   * exactly while some cell is outside the last cell's class.
   */
  predicate Continue(p: seq<int>, allCell: set<int>)
    requires Ordered(p) && |p| >= 1
  {
    Root(p, 0) != |p| - 1 || |allCell| < |p| - 1
  }

  /** While allCell is the set of absorbed cells, `isContinue()` holds exactly while some cell lies outside the last cell's class. */
  lemma ContinueMeans(p: seq<int>, allCell: set<int>)
    requires Ordered(p) && |p| >= 1 && allCell == NonRoots(p)
    ensures Continue(p, allCell) <==> exists x :: 0 <= x < |p| && Root(p, x) != |p| - 1
  {
    var last := |p| - 1;
    OneTree(p);
    if Continue(p, allCell) {
      if Root(p, 0) == last {
        assert |NonRoots(p)| < last;
        assert !(forall x :: 0 <= x < |p| ==> Root(p, x) == last);
        var x :| 0 <= x < |p| && Root(p, x) != last;
        assert 0 <= x < |p| && Root(p, x) != |p| - 1;
        assert exists y :: 0 <= y < |p| && Root(p, y) != |p| - 1;
        assert Continue(p, allCell);
      } else {
        var x := 0;
        assert 0 <= x < |p| && Root(p, x) != last;
      }
    } else {
      assert forall x :: 0 <= x < |p| ==> Root(p, x) == last;
    }
  }

  /** The list after `data.set(k, data.get(last)); data.remove(last)`. */
  function SwapPop<T>(s: seq<T>, k: nat): (r: seq<T>)
    requires k < |s|
    ensures |r| == |s| - 1
    ensures multiset(r) == multiset(s) - multiset{s[k]}
  {
    var last := |s| - 1;
    var t := s[k := s[last]];
    assert t == t[..last] + [t[last]];
    assert s == s[..last] + [s[last]];
    t[..last]
  }

  predicate NoDup<T(==)>(s: seq<T>)
  {
    forall a, b :: 0 <= a < b < |s| ==> s[a] != s[b]
  }

  /** One iteration of the loop in `generateMaze`, with index k drawn into `data`. */
  function Step(n: nat, g: Gen, k: nat): (h: Gen)
    requires Ready(n, g) && k < |g.data|
    ensures Ready(n, h)
  {
    var w := g.data[k];
    if Root(g.parent, w.first) == Root(g.parent, w.second) then g
    else
      var data := SwapPop(g.data, k);
      assert forall v :: v in data ==> v in g.data by {
        forall v | v in data ensures v in g.data {
          assert multiset(data)[v] > 0;
        }
      }
      Gen(Link(g.parent, w.first, w.second),
          g.allCell + Absorbed(g.parent, w.first, w.second),
          data,
          g.toDel + {Coordinate(n, w)})
  }

  /** The loop of `generateMaze` from state g, with the given draws. */
  function Run(n: nat, g: Gen, draws: seq<nat>): (o: Outcome)
    requires Ready(n, g)
    ensures Ready(n, o.g)
    decreases |draws|
  {
    if !Continue(g.parent, g.allCell) then Done(g)
    else if |draws| == 0 then OutOfDraws(g)
    else if |g.data| == 0 then Stuck(g)
    else Run(n, Step(n, g, draws[0] % |g.data|), draws[1..])
  }

  /**
   * The state at the top of the loop: every cell its own root, allCell empty,
   * `data` the full wall list, and only the entrance and exit opened.
   */
  function Start(n: nat): (g: Gen)
    requires n >= 1
    ensures Ready(n, g)
  {
    SquarePositive(n);
    Gen(seq(n * n, _ => -1), {}, Grid(n), Fixed(n))
  }

  /**
   * The state at the top of the loop as the source sets it up: `array` is reset
   * but allCell keeps whatever an earlier run of the same object left in it.
   */
  function StartAsWritten(n: nat, allCell: set<int>): (g: Gen)
    requires n >= 1
    ensures Ready(n, g) && g.allCell == allCell
  {
    Start(n).(allCell := allCell)
  }

  /** The positions of the walls already taken out of `data`. */
  function RemovedCoords(n: nat, data: seq<Wall>): set<Coord>
    requires n >= 1
  {
    set w | w in Grid(n) && w !in data :: Coordinate(n, w)
  }

  /**
   * What the loop keeps true: allCell is the set of absorbed cells, `data`
   * lists distinct walls, every wall taken out of it joins two cells of one
   * class, one cell was absorbed per wall taken out, and toDelWalls holds the
   * entrance, the exit and one distinct position per wall taken out.
   */
  ghost predicate Inv(n: nat, g: Gen)
  {
    Ready(n, g) &&
    g.allCell == NonRoots(g.parent) &&
    NoDup(g.data) &&
    (forall w :: w in g.data ==> w in Grid(n)) &&
    (forall w :: w in Grid(n) && w !in g.data ==> Root(g.parent, w.first) == Root(g.parent, w.second)) &&
    |g.allCell| + |g.data| == |Grid(n)| &&
    g.toDel == Fixed(n) + RemovedCoords(n, g.data) &&
    |g.toDel| == 2 + |Grid(n)| - |g.data|
  }

  // ---------------------------------------------------------------------------
  // One iteration.

  /** Swap-and-pop removes exactly the drawn element and keeps the list free of duplicates. */
  lemma SwapPopMembers<T>(s: seq<T>, k: nat)
    requires k < |s| && NoDup(s)
    ensures NoDup(SwapPop(s, k))
    ensures forall v :: v in SwapPop(s, k) <==> v in s && v != s[k]
  {
    var r, last := SwapPop(s, k), |s| - 1;
    assert forall a :: 0 <= a < last ==> r[a] == (if a == k then s[last] else s[a]);
    forall v | v in s && v != s[k]
      ensures v in r
    {
      var m :| 0 <= m < |s| && s[m] == v;
      if m == last {
        assert r[k] == v;
      } else {
        assert r[m] == v;
      }
    }
  }

  /** Taking data[k] out adds exactly its position to the removed positions, and that position is new. */
  lemma RemovedCoordsGrow(n: nat, data: seq<Wall>, k: nat)
    requires n >= 1 && k < |data| && NoDup(data)
    requires forall w :: w in data ==> w in Grid(n)
    ensures RemovedCoords(n, SwapPop(data, k)) == RemovedCoords(n, data) + {Coordinate(n, data[k])}
    ensures Coordinate(n, data[k]) !in RemovedCoords(n, data)
    ensures Coordinate(n, data[k]) !in Fixed(n)
  {
    var w, rest := data[k], SwapPop(data, k);
    SwapPopMembers(data, k);
    GridMembers(n);
    CoordinateInjective(n, w, w);
    forall c | c in RemovedCoords(n, data) + {Coordinate(n, w)}
      ensures c in RemovedCoords(n, rest)
    {
      if c == Coordinate(n, w) {
        assert w in Grid(n) && w !in rest;
      } else {
        var v :| v in Grid(n) && v !in data && Coordinate(n, v) == c;
        assert v !in rest;
      }
    }
    forall v | v in Grid(n) && v !in data
      ensures Coordinate(n, v) != Coordinate(n, w)
    {
      CoordinateInjective(n, v, w);
    }
  }

  /** toDelWalls keeps listing the entrance, the exit and the removed positions when data[k] is taken out. */
  lemma ToDelGrows(n: nat, data: seq<Wall>, k: nat, toDel: set<Coord>)
    requires n >= 1 && k < |data| && NoDup(data)
    requires forall w :: w in data ==> w in Grid(n)
    requires toDel == Fixed(n) + RemovedCoords(n, data)
    ensures toDel + {Coordinate(n, data[k])} == Fixed(n) + RemovedCoords(n, SwapPop(data, k))
    ensures Coordinate(n, data[k]) !in toDel
    ensures |toDel + {Coordinate(n, data[k])}| == |toDel| + 1
  {
    RemovedCoordsGrow(n, data, k);
  }

  /**
   * One iteration: a wall whose cells already share a root changes nothing;
   * otherwise the wall leaves `data` (and nothing else does), one more cell is
   * absorbed, the wall's new position is added, and its two cells end up in
   * one class.
   */
  lemma StepEffect(n: nat, g: Gen, k: nat)
    requires Inv(n, g) && k < |g.data|
    ensures var w, h := g.data[k], Step(n, g, k);
      if Root(g.parent, w.first) == Root(g.parent, w.second) then h == g
      else
        multiset(h.data) == multiset(g.data) - multiset{w} &&
        |h.allCell| == |g.allCell| + 1 &&
        h.toDel == g.toDel + {Coordinate(n, w)} && Coordinate(n, w) !in g.toDel &&
        Root(h.parent, w.first) == Root(h.parent, w.second)
  {
    var w, p := g.data[k], g.parent;
    if Root(p, w.first) != Root(p, w.second) {
      LinkNonRoots(p, w.first, w.second);
      LinkJoins(p, w.first, w.second);
      RemovedCoordsGrow(n, g.data, k);
    }
  }

  /** Walls taken out of `data` keep joining cells of one class after one more iteration. */
  lemma StepKeepsJoined(n: nat, g: Gen, k: nat)
    requires Inv(n, g) && k < |g.data|
    ensures var h := Step(n, g, k);
      forall v :: v in Grid(n) && v !in h.data ==> Root(h.parent, v.first) == Root(h.parent, v.second)
  {
    var w, p, h := g.data[k], g.parent, Step(n, g, k);
    if Root(p, w.first) != Root(p, w.second) {
      LinkJoins(p, w.first, w.second);
      SwapPopMembers(g.data, k);
      forall v | v in Grid(n) && v !in h.data
        ensures Root(h.parent, v.first) == Root(h.parent, v.second)
      {
        if v != w {
          assert v !in g.data;
        }
      }
    }
  }

  /** The loop invariant survives one iteration. */
  lemma StepInv(n: nat, g: Gen, k: nat)
    requires Inv(n, g) && k < |g.data|
    ensures Inv(n, Step(n, g, k))
  {
    var w, p := g.data[k], g.parent;
    if Root(p, w.first) != Root(p, w.second) {
      StepKeepsJoined(n, g, k);
      JoinInv(n, g, k);
    }
  }

  /** An iteration that unites two classes keeps the invariant. */
  lemma JoinInv(n: nat, g: Gen, k: nat)
    requires Inv(n, g) && k < |g.data|
    requires Root(g.parent, g.data[k].first) != Root(g.parent, g.data[k].second)
    requires var h := Step(n, g, k);
      forall v :: v in Grid(n) && v !in h.data ==> Root(h.parent, v.first) == Root(h.parent, v.second)
    ensures Inv(n, Step(n, g, k))
  {
    var w, p := g.data[k], g.parent;
    var q, data := Link(p, w.first, w.second), SwapPop(g.data, k);
    var c := Coordinate(n, w);
    var h := Step(n, g, k);
    var allCell := g.allCell + Absorbed(p, w.first, w.second);
    assert h == Gen(q, allCell, data, g.toDel + {c});
    assert allCell == NonRoots(q) && |allCell| == |g.allCell| + 1 by {
      LinkNonRoots(p, w.first, w.second);
    }
    assert NoDup(data) && (forall v :: v in data ==> v in Grid(n)) by {
      SwapPopMembers(g.data, k);
    }
    ToDelGrows(n, g.data, k, g.toDel);
    assert |allCell| + |data| == |Grid(n)|;
  }


  // ---------------------------------------------------------------------------
  // Progress and the result.

  /** When every wall of the grid joins two cells of one class, all cells are in cell 0's class. */
  lemma {:induction false} GridConnected(n: nat, p: seq<int>, c: nat)
    requires n >= 1 && |p| == n * n && Ordered(p) && c < n * n
    requires forall w :: w in Grid(n) ==> Root(p, w.first) == Root(p, w.second)
    ensures Root(p, c) == Root(p, 0)
    decreases c
  {
    if c > 0 {
      GridMembers(n);
      if c % n != 0 {
        assert IsRightWall(n, Wall(c - 1, c));
        GridConnected(n, p, c - 1);
      } else {
        RowStart(n, c);
        assert IsBottomWall(n, Wall(c - n, c));
        GridConnected(n, p, c - n);
      }
    }
  }

  /**
   * While `isContinue()` holds, `data` still holds a wall between two classes,
   * so it is not empty and `nextInt(data.size())` is never asked for nextInt(0).
   */
  lemma Progress(n: nat, g: Gen)
    requires Inv(n, g) && Continue(g.parent, g.allCell)
    ensures exists k ::
      0 <= k < |g.data| && Root(g.parent, g.data[k].first) != Root(g.parent, g.data[k].second)
    ensures |g.data| > 0
  {
    var p := g.parent;
    if forall k :: 0 <= k < |g.data| ==> Root(p, g.data[k].first) == Root(p, g.data[k].second) {
      AllJoinedStops(n, g);
      assert false;
    }
  }

  /** When every wall still in `data` joins two cells of one class, `isContinue()` is false. */
  lemma AllJoinedStops(n: nat, g: Gen)
    requires Inv(n, g)
    requires forall k :: 0 <= k < |g.data| ==> Root(g.parent, g.data[k].first) == Root(g.parent, g.data[k].second)
    ensures !Continue(g.parent, g.allCell)
  {
    var p := g.parent;
    forall w | w in Grid(n)
      ensures Root(p, w.first) == Root(p, w.second)
    {
      if w in g.data {
        var k :| 0 <= k < |g.data| && g.data[k] == w;
      }
    }
    assert forall c :: 0 <= c < n * n ==> Root(p, c) == n * n - 1 by {
      AllUnderLast(n, p);
    }
    OneTree(p);
  }

  /** When every wall of the grid joins two cells of one class, the last cell is every cell's root. */
  lemma AllUnderLast(n: nat, p: seq<int>)
    requires n >= 1 && |p| == n * n && Ordered(p)
    requires forall w :: w in Grid(n) ==> Root(p, w.first) == Root(p, w.second)
    ensures forall c :: 0 <= c < n * n ==> Root(p, c) == n * n - 1
  {
    forall c | 0 <= c < n * n
      ensures Root(p, c) == n * n - 1
    {
      GridConnected(n, p, c);
      GridConnected(n, p, n * n - 1);
      LastIsRoot(p);
    }
  }

  /**
   * A run from a state satisfying the invariant never gets stuck, keeps the
   * invariant, and reports Done exactly when `isContinue()` is false.
   */
  lemma {:induction false} RunInv(n: nat, g: Gen, draws: seq<nat>)
    requires Inv(n, g)
    ensures !Run(n, g, draws).Stuck?
    ensures Inv(n, Run(n, g, draws).g)
    ensures Run(n, g, draws).Done? <==> !Continue(Run(n, g, draws).g.parent, Run(n, g, draws).g.allCell)
    decreases |draws|
  {
    if Continue(g.parent, g.allCell) {
      Progress(n, g);
      if |draws| > 0 {
        var k := draws[0] % |g.data|;
        StepInv(n, g, k);
        RunInv(n, Step(n, g, k), draws[1..]);
      }
    }
  }

  /** The state before the first iteration satisfies the invariant. */
  lemma StartInv(n: nat)
    requires n >= 1
    ensures Inv(n, Start(n))
  {
    var g := Start(n);
    GridSorted(n);
    assert NonRoots(g.parent) == {};
    assert RemovedCoords(n, g.data) == {};
    assert Entrance() != Exit(n);
  }

  /**
   * When the loop stops, the forest is one tree rooted at the last cell, every
   * other cell has been absorbed, n·n-1 walls were taken out of `data`, and
   * toDelWalls holds their n·n-1 distinct positions plus the entrance and exit.
   */
  lemma DoneSpansGrid(n: nat, g: Gen)
    requires Inv(n, g) && !Continue(g.parent, g.allCell)
    ensures forall c :: 0 <= c < n * n ==> Root(g.parent, c) == n * n - 1
    ensures g.allCell == Below(n * n - 1)
    ensures |Grid(n)| - |g.data| == n * n - 1
    ensures Fixed(n) <= g.toDel && |g.toDel| == n * n + 1
  {
    OneTree(g.parent);
  }

  // ---------------------------------------------------------------------------
  // Paths through removed walls.

  /** The wall between cells x and y is a grid wall that has been taken out of `data`. */
  predicate Passage(n: nat, data: seq<Wall>, x: nat, y: nat)
    requires n >= 1
  {
    (Wall(x, y) in Grid(n) && Wall(x, y) !in data) || (Wall(y, x) in Grid(n) && Wall(y, x) !in data)
  }

  /** A walk through the maze: consecutive cells are separated by a removed wall. */
  predicate IsPath(n: nat, data: seq<Wall>, path: seq<nat>)
    requires n >= 1
  {
    |path| >= 1 && forall k :: 0 <= k < |path| - 1 ==> Passage(n, data, path[k], path[k + 1])
  }

  /** Cell y can be reached from cell x through removed walls. */
  ghost predicate Connected(n: nat, data: seq<Wall>, x: nat, y: nat)
    requires n >= 1
  {
    exists path :: IsPath(n, data, path) && path[0] == x && path[|path| - 1] == y
  }

  /** Every cell can reach the root of its class through removed walls. */
  ghost predicate Spans(n: nat, g: Gen)
    requires Ready(n, g)
  {
    forall x :: 0 <= x < n * n ==> Connected(n, g.data, x, Root(g.parent, x))
  }

  lemma ConnectedSym(n: nat, data: seq<Wall>, x: nat, y: nat)
    requires n >= 1 && Connected(n, data, x, y)
    ensures Connected(n, data, y, x)
  {
    var path :| IsPath(n, data, path) && path[0] == x && path[|path| - 1] == y;
    var m := |path|;
    var back := seq(m, k requires 0 <= k < m => path[m - 1 - k]);
    forall k | 0 <= k < m - 1
      ensures Passage(n, data, back[k], back[k + 1])
    {
      assert Passage(n, data, path[m - 2 - k], path[m - 1 - k]);
    }
    assert IsPath(n, data, back);
  }

  lemma ConnectedTrans(n: nat, data: seq<Wall>, x: nat, y: nat, z: nat)
    requires n >= 1 && Connected(n, data, x, y) && Connected(n, data, y, z)
    ensures Connected(n, data, x, z)
  {
    var p1 :| IsPath(n, data, p1) && p1[0] == x && p1[|p1| - 1] == y;
    var p2 :| IsPath(n, data, p2) && p2[0] == y && p2[|p2| - 1] == z;
    var path := p1 + p2[1..];
    forall k | 0 <= k < |path| - 1
      ensures Passage(n, data, path[k], path[k + 1])
    {
      if k < |p1| - 1 {
        assert Passage(n, data, p1[k], p1[k + 1]);
      } else {
        var j := k - |p1| + 1;
        assert path[k] == p2[j] && path[k + 1] == p2[j + 1];
        assert Passage(n, data, p2[j], p2[j + 1]);
      }
    }
    assert IsPath(n, data, path);
  }

  /** Taking more walls out of the list keeps every path open. */
  lemma ConnectedMono(n: nat, data: seq<Wall>, data': seq<Wall>, x: nat, y: nat)
    requires n >= 1 && Connected(n, data, x, y)
    requires forall w :: w in data' ==> w in data
    ensures Connected(n, data', x, y)
  {
    var path :| IsPath(n, data, path) && path[0] == x && path[|path| - 1] == y;
    forall k | 0 <= k < |path| - 1
      ensures Passage(n, data', path[k], path[k + 1])
    {
      assert Passage(n, data, path[k], path[k + 1]);
    }
    assert IsPath(n, data', path);
  }

  /** A removed wall joins its two cells. */
  lemma ConnectedWall(n: nat, data: seq<Wall>, w: Wall)
    requires n >= 1 && w in Grid(n) && w !in data
    ensures Connected(n, data, w.first, w.second) && Connected(n, data, w.first, w.first)
  {
    assert Passage(n, data, w.first, w.second);
    assert IsPath(n, data, [w.first, w.second]);
    assert IsPath(n, data, [w.first]);
  }

  /** Before the loop every cell is its own root, so it reaches its root by the empty walk. */
  lemma StartSpans(n: nat)
    requires n >= 1
    ensures Spans(n, Start(n))
  {
    var g := Start(n);
    forall x | 0 <= x < n * n
      ensures Connected(n, g.data, x, Root(g.parent, x))
    {
      assert IsPath(n, g.data, [x]);
    }
  }

  /**
   * Uniting the classes of a and b keeps every cell connected to its root once
   * a and b are connected: the new root is one of the two old roots.
   */
  lemma LinkSpans(n: nat, p: seq<int>, data: seq<Wall>, a: nat, b: nat)
    requires n >= 1 && Ordered(p) && |p| == n * n && a < n * n && b < n * n
    requires Connected(n, data, a, b)
    requires forall x :: 0 <= x < n * n ==> Connected(n, data, x, Root(p, x))
    ensures forall x :: 0 <= x < n * n ==> Connected(n, data, x, Root(Link(p, a, b), x))
  {
    var ra, rb := Root(p, a), Root(p, b);
    var hi := Max(ra, rb);
    ConnectedSym(n, data, a, ra);
    ConnectedTrans(n, data, ra, a, b);
    ConnectedTrans(n, data, ra, b, rb);
    ConnectedSym(n, data, ra, rb);
    assert Connected(n, data, ra, hi) && Connected(n, data, rb, hi) by {
      if hi == ra {
        assert IsPath(n, data, [ra]);
      } else {
        assert IsPath(n, data, [rb]);
      }
    }
    forall x | 0 <= x < n * n
      ensures Connected(n, data, x, Root(Link(p, a, b), x))
    {
      var r := Root(p, x);
      LinkRoots(p, a, b, x);
      if r == ra || r == rb {
        ConnectedTrans(n, data, x, r, hi);
      }
    }
  }

  /**
   * One iteration keeps every cell connected to its root: the wall (a, b) it
   * takes down joins a's class to b's class.
   */
  lemma StepSpans(n: nat, g: Gen, k: nat)
    requires Inv(n, g) && Spans(n, g) && k < |g.data|
    ensures Spans(n, Step(n, g, k))
  {
    var w, p := g.data[k], g.parent;
    if Root(p, w.first) != Root(p, w.second) {
      var data := SwapPop(g.data, k);
      SwapPopMembers(g.data, k);
      forall x | 0 <= x < n * n
        ensures Connected(n, data, x, Root(p, x))
      {
        ConnectedMono(n, g.data, data, x, Root(p, x));
      }
      ConnectedWall(n, data, w);
      LinkSpans(n, p, data, w.first, w.second);
      assert Step(n, g, k).parent == Link(p, w.first, w.second) && Step(n, g, k).data == data;
    }
  }

  /** Every state of a run from the start reaches its roots through removed walls. */
  lemma {:induction false} RunSpans(n: nat, g: Gen, draws: seq<nat>)
    requires Inv(n, g) && Spans(n, g)
    ensures Spans(n, Run(n, g, draws).g)
    decreases |draws|
  {
    if Continue(g.parent, g.allCell) && |draws| > 0 && |g.data| > 0 {
      var k := draws[0] % |g.data|;
      StepInv(n, g, k);
      StepSpans(n, g, k);
      RunSpans(n, Step(n, g, k), draws[1..]);
    }
  }

  /**
   * A whole run of `generateMaze`: it never calls nextInt(0), and toDelWalls is
   * always the entrance, the exit and the positions of the walls taken out.  If
   * the run finishes, the forest is one tree, exactly n·n-1 walls were taken
   * down, and every cell can reach every other through them: the removed walls
   * form a spanning tree of the grid.
   */
  lemma Generate(n: nat, draws: seq<nat>)
    requires n >= 1
    ensures !Run(n, Start(n), draws).Stuck?
    ensures Run(n, Start(n), draws).g.toDel == Fixed(n) + RemovedCoords(n, Run(n, Start(n), draws).g.data)
    ensures var o := Run(n, Start(n), draws);
      o.Done? ==>
        (forall c :: 0 <= c < n * n ==> Root(o.g.parent, c) == n * n - 1) &&
        o.g.allCell == Below(n * n - 1) &&
        |Grid(n)| - |o.g.data| == n * n - 1 &&
        Fixed(n) <= o.g.toDel && |o.g.toDel| == n * n + 1
    ensures var o := Run(n, Start(n), draws);
      o.Done? ==> forall x, y :: 0 <= x < n * n && 0 <= y < n * n ==> Connected(n, o.g.data, x, y)
  {
    StartInv(n);
    StartSpans(n);
    RunInv(n, Start(n), draws);
    RunSpans(n, Start(n), draws);
    var o := Run(n, Start(n), draws);
    if o.Done? {
      DoneSpansGrid(n, o.g);
      DoneConnected(n, o.g);
    }
  }

  /** Once every cell's root is the last cell, any two cells are connected through removed walls. */
  lemma DoneConnected(n: nat, g: Gen)
    requires Ready(n, g) && Spans(n, g)
    requires forall c :: 0 <= c < n * n ==> Root(g.parent, c) == n * n - 1
    ensures forall x, y :: 0 <= x < n * n && 0 <= y < n * n ==> Connected(n, g.data, x, y)
  {
    forall x, y | 0 <= x < n * n && 0 <= y < n * n
      ensures Connected(n, g.data, x, y)
    {
      assert Connected(n, g.data, x, Root(g.parent, x)) && Connected(n, g.data, y, Root(g.parent, y));
      ConnectedSym(n, g.data, y, n * n - 1);
      ConnectedTrans(n, g.data, x, n * n - 1, y);
    }
  }

  /** On a 1×1 grid there is no wall and the loop body never runs. */
  lemma SingleCell(draws: seq<nat>)
    ensures Grid(1) == []
    ensures Run(1, Start(1), draws) == Done(Start(1))
    ensures Start(1).toDel == {Coord(1, 0), Coord(1, 2)}
  {
    assert Start(1).parent == [-1];
  }

  /** The wall list of a 2×2 grid. */
  lemma Grid2()
    ensures Grid(2) == [Wall(0, 1), Wall(0, 2), Wall(1, 3), Wall(2, 3)]
  {
    assert CellWalls(2, 0) == [Wall(0, 1), Wall(0, 2)];
    assert CellWalls(2, 1) == [Wall(1, 3)];
    assert CellWalls(2, 2) == [Wall(2, 3)];
    assert WallsBefore(2, 1) == [Wall(0, 1), Wall(0, 2)];
    assert WallsBefore(2, 2) == [Wall(0, 1), Wall(0, 2), Wall(1, 3)];
  }

  /** The state of the 2×2 counterexample after its first draw. */
  function Rerun1(): (g: Gen)
    ensures Ready(2, g)
  {
    Gen([2, -1, -1, -1], {0, 1, 2}, [Wall(0, 1), Wall(2, 3), Wall(1, 3)],
        {Coord(1, 0), Coord(2, 4), Coord(1, 1)})
  }

  /** The state of the 2×2 counterexample after its second draw. */
  function Rerun2(): (g: Gen)
    ensures Ready(2, g)
  {
    Gen([2, -1, 3, -1], {0, 1, 2}, [Wall(0, 1), Wall(1, 3)],
        {Coord(1, 0), Coord(2, 4), Coord(1, 1), Coord(2, 2)})
  }

  /** The state of the 2×2 counterexample before its first draw. */
  function Rerun0(): (g: Gen)
    ensures Ready(2, g)
  {
    Gen([-1, -1, -1, -1], {0, 1, 2}, [Wall(0, 1), Wall(0, 2), Wall(1, 3), Wall(2, 3)],
        {Coord(1, 0), Coord(2, 4)})
  }

  lemma RerunStart()
    ensures StartAsWritten(2, {0, 1, 2}) == Rerun0()
  {
    Grid2();
    var p := StartAsWritten(2, {0, 1, 2}).parent;
    assert |p| == 4 && forall x :: 0 <= x < 4 ==> p[x] == -1;
    assert p == [-1, -1, -1, -1];
  }

  lemma RerunFirstDraw(g0: Gen)
    requires g0 == Rerun0()
    ensures Step(2, g0, 1) == Rerun1()
  {
    var w := g0.data[1];
    assert w == Wall(0, 2);
    assert Root(g0.parent, 0) == 0 && Root(g0.parent, 2) == 2;
    FirstUnion();
    FirstRemoval();
  }

  /** The first draw unites cells 0 and 2 and absorbs cell 0, which allCell already holds. */
  lemma FirstUnion()
    ensures Link([-1, -1, -1, -1], 0, 2) == [2, -1, -1, -1]
    ensures Absorbed([-1, -1, -1, -1], 0, 2) == {0}
  {
    var p: seq<int> := [-1, -1, -1, -1];
    assert Root(p, 0) == 0 && Root(p, 2) == 2;
  }

  /** The first draw takes wall (0,2) out of the list and opens position (1,1). */
  lemma FirstRemoval()
    ensures Coordinate(2, Wall(0, 2)) == Coord(1, 1)
    ensures SwapPop([Wall(0, 1), Wall(0, 2), Wall(1, 3), Wall(2, 3)], 1) == [Wall(0, 1), Wall(2, 3), Wall(1, 3)]
  {
  }

  /** Before each of the first two draws some cell is still outside the last cell's class. */
  lemma RerunGoesOn()
    ensures Continue(Rerun0().parent, Rerun0().allCell)
    ensures Continue(Rerun1().parent, Rerun1().allCell)
  {
    assert Root(Rerun0().parent, 0) == 0;
    assert Root(Rerun1().parent, 0) == 2;
  }

  lemma RerunSecondDraw(g1: Gen)
    requires g1 == Rerun1()
    ensures Step(2, g1, 1) == Rerun2()
  {
    assert Root(g1.parent, 2) == 2 && Root(g1.parent, 3) == 3;
    assert Coordinate(2, Wall(2, 3)) == Coord(2, 2);
    assert SwapPop(g1.data, 1) == [Wall(0, 1), Wall(1, 3)];
  }

  /** After the second draw cell 0 has reached the last cell, though cell 1 is still apart. */
  lemma RerunStops()
    ensures !Continue(Rerun2().parent, Rerun2().allCell)
    ensures Root(Rerun2().parent, 0) == 3 && Root(Rerun2().parent, 1) == 1
    ensures |Rerun2().toDel| == 4
  {
    var p2 := Rerun2().parent;
    assert Root(p2, 2) == 3 && Root(p2, 0) == 3 && Root(p2, 1) == 1;
  }

  /** One more iteration of a run that goes on. */
  lemma RunStep(n: nat, g: Gen, draws: seq<nat>)
    requires Ready(n, g) && Continue(g.parent, g.allCell) && |draws| > 0 && |g.data| > 0
    ensures Run(n, g, draws) == Run(n, Step(n, g, draws[0] % |g.data|), draws[1..])
  {
  }

  /** A run whose loop condition is false stops at once. */
  lemma RunStop(n: nat, g: Gen, draws: seq<nat>)
    requires Ready(n, g) && !Continue(g.parent, g.allCell)
    ensures Run(n, g, draws) == Done(g)
  {
  }

  /** The first iteration of the run from the stale 2×2 state draws index 1. */
  lemma RerunRunFirst(g0: Gen, draws: seq<nat>)
    requires g0 == Rerun0() && draws == [1, 1]
    ensures Run(2, g0, draws) == Run(2, Rerun1(), draws[1..])
  {
    assert draws[0] % |g0.data| == 1;
    RerunGoesOn();
    RerunFirstDraw(g0);
    RunStep(2, g0, draws);
  }

  /** The second iteration of the run from the stale 2×2 state draws index 1 again, and the loop stops. */
  lemma RerunRunSecond(g1: Gen, draws: seq<nat>)
    requires g1 == Rerun1() && draws == [1]
    ensures Run(2, g1, draws) == Done(Rerun2())
  {
    assert draws[0] % |g1.data| == 1 && draws[1..] == [];
    RerunGoesOn();
    RerunSecondDraw(g1);
    RunStep(2, g1, draws);
    RerunStops();
    RunStop(2, Rerun2(), []);
  }

  /** The run from the stale 2×2 state with the draws [1, 1]. */
  lemma RerunFromStale(draws: seq<nat>)
    requires draws == [1, 1]
    ensures Run(2, StartAsWritten(2, {0, 1, 2}), draws) == Done(Rerun2())
  {
    RerunStart();
    RerunRunFirst(Rerun0(), draws);
    assert draws[1..] == [1];
    RerunRunSecond(Rerun1(), draws[1..]);
  }

  /**
   * A second `generateMaze` on the same object, as happens when both
   * printToConsole and saveToText are called: allCell still holds the n·n-1
   * cells the first run absorbed, so the loop stops as soon as cell 0 reaches
   * the last cell.  On a 2×2 grid the draws [1, 1] then take out only two walls
   * (three are needed) and leave cell 1 walled in.
   */
  lemma RerunStopsEarly(first: seq<nat>)
    requires Run(2, Start(2), first).Done?
    ensures var o := Run(2, StartAsWritten(2, Run(2, Start(2), first).g.allCell), [1, 1]);
      o.Done? && Root(o.g.parent, 0) == 3 && Root(o.g.parent, 1) == 1 && |o.g.toDel| == 4
  {
    var stale := Run(2, Start(2), first).g.allCell;
    assert stale == {0, 1, 2} by {
      Generate(2, first);
      ThreeCells();
    }
    RerunFromStale([1, 1]);
    RerunStops();
  }

  /** The cells a finished 2×2 run has absorbed. */
  lemma ThreeCells()
    ensures Below(3) == {0, 1, 2}
  {
    assert Below(1) == {0};
    assert Below(2) == {0, 1};
  }
}
