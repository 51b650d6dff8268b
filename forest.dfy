/**
 * The union-find forest of MazeGenerate, as a value: `array` is a sequence of
 * parent links over the cells 0 .. size-1, where -1 marks a root.  `find`
 * follows links up to a root and `union` hangs the smaller of two roots under
 * the larger one.  Because of that rule every link points to a strictly larger
 * cell, which is what makes `find` terminate and makes a root the largest cell
 * of its class.
 */
module UnionFind {

  /** Every parent link points to a strictly larger cell that exists; -1 marks a root. */
  predicate Ordered(p: seq<int>)
  {
    forall x :: 0 <= x < |p| ==> p[x] == -1 || x < p[x] < |p|
  }

  /** The root `find` reaches from cell i. */
  function Root(p: seq<int>, i: nat): (r: nat)
    requires Ordered(p) && i < |p|
    ensures i <= r < |p| && p[r] == -1
    decreases |p| - i
  {
    if p[i] == -1 then i else Root(p, p[i])
  }

  /** The parent array after `union(i, j)`: the smaller root is hung under the larger one. */
  function Link(p: seq<int>, i: nat, j: nat): (q: seq<int>)
    requires Ordered(p) && i < |p| && j < |p|
    ensures |q| == |p| && Ordered(q)
  {
    var r1 := Root(p, i);
    var r2 := Root(p, j);
    if r1 == r2 then p
    else if r1 > r2 then p[r2 := r1]
    else p[r1 := r2]
  }

  /** The root that `union(i, j)` records in allCell: none when i and j already share a root. */
  function Absorbed(p: seq<int>, i: nat, j: nat): (r: set<int>)
    requires Ordered(p) && i < |p| && j < |p|
    ensures r == {} <==> Root(p, i) == Root(p, j)
    ensures forall x :: x in r ==> 0 <= x < |p| && p[x] == -1 && Link(p, i, j)[x] != -1
  {
    var r1 := Root(p, i);
    var r2 := Root(p, j);
    if r1 == r2 then {}
    else if r1 > r2 then {r2}
    else {r1}
  }

  /** The cells that are not roots, that is, the cells some union has absorbed. */
  function NonRoots(p: seq<int>): set<int>
  {
    set x | 0 <= x < |p| && p[x] != -1
  }

  /** The cells 0 .. m-1. */
  function Below(m: nat): (r: set<int>)
    ensures forall x :: x in r <==> 0 <= x < m
    ensures |r| == m
  {
    if m == 0 then {} else Below(m - 1) + {m - 1}
  }

  function Max(a: int, b: int): int { if a < b then b else a }

  function Min(a: int, b: int): int { if a < b then a else b }

  /** A subset at least as large as its superset is the superset. */
  lemma SubsetFull(a: set<int>, b: set<int>)
    requires a <= b && |a| >= |b|
    ensures a == b
  {
    assert b == a + (b - a);
    assert a * (b - a) == {};
    assert |b - a| == 0;
    assert b - a == {};
    forall y | y in b
      ensures y in a
    {
      assert y !in b - a;
    }
  }

  /**
   * The root of a class is its largest cell: `find(i)` returns the maximum of
   * i's class, and that root belongs to the class itself.
   */
  lemma RootIsClassMax(p: seq<int>, i: nat)
    requires Ordered(p) && i < |p|
    ensures Root(p, Root(p, i)) == Root(p, i)
    ensures forall x :: 0 <= x < |p| && Root(p, x) == Root(p, i) ==> x <= Root(p, i)
  {
  }

  /**
   * After `union(i, j)` on different roots r1 and r2, a cell of either class
   * has the root max(r1, r2), and every other cell keeps its root.
   */
  lemma {:induction false} LinkRoots(p: seq<int>, i: nat, j: nat, x: nat)
    requires Ordered(p) && i < |p| && j < |p| && x < |p|
    ensures Root(Link(p, i, j), x) ==
      (if Root(p, x) == Root(p, i) || Root(p, x) == Root(p, j)
       then Max(Root(p, i), Root(p, j)) else Root(p, x))
    decreases |p| - x
  {
    var q := Link(p, i, j);
    var r1, r2 := Root(p, i), Root(p, j);
    if r1 != r2 {
      var lo, hi := Min(r1, r2), Max(r1, r2);
      assert q == p[lo := hi];
      if p[x] == -1 {
        if x == lo {
          assert q[hi] == -1;
        } else {
          assert q[x] == -1;
        }
      } else {
        assert x != lo && q[x] == p[x];
        LinkRoots(p, i, j, p[x]);
      }
    }
  }

  /**
   * `union(i, j)`: on two cells of one class nothing changes.  Otherwise only
   * the slot of the smaller root changes, it is set to the larger root, afterwards i and j share that root, and two cells that shared
   * a root before still do.
   */
  lemma LinkJoins(p: seq<int>, i: nat, j: nat)
    requires Ordered(p) && i < |p| && j < |p|
    ensures Root(p, i) == Root(p, j) ==> Link(p, i, j) == p && Absorbed(p, i, j) == {}
    ensures Root(Link(p, i, j), i) == Root(Link(p, i, j), j) == Max(Root(p, i), Root(p, j))
    ensures Root(p, i) != Root(p, j) ==>
      Link(p, i, j)[Min(Root(p, i), Root(p, j))] == Max(Root(p, i), Root(p, j))
    ensures forall x :: 0 <= x < |p| && x != Min(Root(p, i), Root(p, j)) ==> Link(p, i, j)[x] == p[x]
    ensures forall x, y :: 0 <= x < |p| && 0 <= y < |p| && Root(p, x) == Root(p, y) ==>
      Root(Link(p, i, j), x) == Root(Link(p, i, j), y)
  {
    LinkRoots(p, i, j, i);
    LinkRoots(p, i, j, j);
    forall x, y | 0 <= x < |p| && 0 <= y < |p| && Root(p, x) == Root(p, y)
      ensures Root(Link(p, i, j), x) == Root(Link(p, i, j), y)
    {
      LinkRoots(p, i, j, x);
      LinkRoots(p, i, j, y);
    }
  }

  /**
   * A successful `union(i, j)` makes exactly one more cell a non-root: the
   * absorbed root, which was a root before and so was not yet in allCell.
   */
  lemma LinkNonRoots(p: seq<int>, i: nat, j: nat)
    requires Ordered(p) && i < |p| && j < |p|
    requires Root(p, i) != Root(p, j)
    ensures Absorbed(p, i, j) == {Min(Root(p, i), Root(p, j))}
    ensures Min(Root(p, i), Root(p, j)) !in NonRoots(p)
    ensures NonRoots(Link(p, i, j)) == NonRoots(p) + Absorbed(p, i, j)
    ensures |NonRoots(Link(p, i, j))| == |NonRoots(p)| + 1
  {
    var lo, hi := Min(Root(p, i), Root(p, j)), Max(Root(p, i), Root(p, j));
    var q := Link(p, i, j);
    assert q == p[lo := hi];
    assert NonRoots(q) == NonRoots(p) + {lo};
  }

  /** The last cell is always a root, since no link can point past it. */
  lemma LastIsRoot(p: seq<int>)
    requires Ordered(p) && |p| >= 1
    ensures p[|p| - 1] == -1 && Root(p, |p| - 1) == |p| - 1
    ensures NonRoots(p) <= Below(|p| - 1)
  {
  }

  /**
   * The forest is a single tree, rooted at the last cell, exactly when all
   * but one cell have been absorbed.
   */
  lemma OneTree(p: seq<int>)
    requires Ordered(p) && |p| >= 1
    ensures (forall x :: 0 <= x < |p| ==> Root(p, x) == |p| - 1) ==> |NonRoots(p)| >= |p| - 1
    ensures |NonRoots(p)| >= |p| - 1 ==> (forall x :: 0 <= x < |p| ==> Root(p, x) == |p| - 1)
    ensures |NonRoots(p)| >= |p| - 1 ==> NonRoots(p) == Below(|p| - 1)
  {
    LastIsRoot(p);
    var last := |p| - 1;
    var single := forall x :: 0 <= x < |p| ==> Root(p, x) == last;
    if single {
      forall x | 0 <= x < last
        ensures x in NonRoots(p)
      {
        assert Root(p, x) != x;
      }
      assert NonRoots(p) == Below(last);
    }
    if |NonRoots(p)| >= last {
      SubsetFull(NonRoots(p), Below(last));
      forall x | 0 <= x < |p|
        ensures Root(p, x) == last
      {
        var r := Root(p, x);
        assert r !in NonRoots(p);
      }
      assert single;
    }
  }
}
