/**
 * Cells, the occupancy grid and its 4-connected graph: the `Position`
 * record, `heuristic` and `getNeighbors` of src/utils/pathfinding.ts, and
 * the walks over the grid against which the searches are specified.
 */
module Geometry {

  /** A grid cell; `x` is the column and `y` the row. */
  datatype Pos = Pos(x: int, y: int)

  /** An occupancy grid in row-major order, `grid[y][x]`; 0 is free, 1 is blocked. */
  type Grid = seq<seq<int>>

  function Abs(n: int): nat {
    if n < 0 then -n else n
  }

  /** Manhattan distance between two cells. */
  function Heuristic(a: Pos, b: Pos): (r: int)
    ensures r >= 0
    ensures r == 0 <==> a == b
  {
    Abs(a.x - b.x) + Abs(a.y - b.y)
  }

  lemma HeuristicSymmetric(a: Pos, b: Pos)
    ensures Heuristic(a, b) == Heuristic(b, a)
  {
  }

  /** The triangle inequality, which makes Manhattan distance a consistent heuristic. */
  lemma HeuristicTriangle(a: Pos, b: Pos, c: Pos)
    ensures Heuristic(a, c) <= Heuristic(a, b) + Heuristic(b, c)
  {
  }

  /**
   * A cell the searches may enter: inside the bounds taken from row 0 and
   * the number of rows, and holding 0. A row shorter than row 0 reads as
   * `undefined` in JavaScript, which is not 0, so such a cell is not free.
   */
  predicate Passable(grid: Grid, p: Pos) {
    0 <= p.y < |grid| && 0 <= p.x < |grid[0]| && p.x < |grid[p.y]| && grid[p.y][p.x] == 0
  }

  /** One move of the searches: to an orthogonally adjacent passable cell. */
  predicate Step(grid: Grid, a: Pos, b: Pos) {
    Passable(grid, b) && Heuristic(a, b) == 1
  }

  /** The four offsets in the order the source tries them: up, right, down, left. */
  const Directions: seq<Pos> := [Pos(0, -1), Pos(1, 0), Pos(0, 1), Pos(-1, 0)]

  function Shift(p: Pos, d: Pos): Pos {
    Pos(p.x + d.x, p.y + d.y)
  }

  /** `[c]` when `c` is passable, else nothing: one test of the loop in `getNeighbors`. */
  function KeepIfPassable(grid: Grid, c: Pos): seq<Pos> {
    if Passable(grid, c) then [c] else []
  }

  /** The passable cells among the first `i` offsets, in their order. */
  function NeighborsUpTo(grid: Grid, p: Pos, i: nat): seq<Pos>
    requires i <= 4
  {
    if i == 0 then [] else NeighborsUpTo(grid, p, i - 1) + KeepIfPassable(grid, Shift(p, Directions[i - 1]))
  }

  /** The neighbours `getNeighbors` reports for `p`. */
  function Neighbors(grid: Grid, p: Pos): seq<Pos> {
    NeighborsUpTo(grid, p, 4)
  }

  /** Position of a neighbour in the order up (0), right (1), down (2), left (3). */
  function Rank(p: Pos, n: Pos): int {
    if n == Shift(p, Directions[0]) then 0
    else if n == Shift(p, Directions[1]) then 1
    else if n == Shift(p, Directions[2]) then 2
    else 3
  }

  /** The first `i` offsets contribute exactly their passable cells, one at most each. */
  lemma {:induction false} NeighborsUpToSpec(grid: Grid, p: Pos, i: nat)
    requires i <= 4
    ensures |NeighborsUpTo(grid, p, i)| <= i
    ensures forall n :: n in NeighborsUpTo(grid, p, i) <==>
              Passable(grid, n) && exists k :: 0 <= k < i && n == Shift(p, Directions[k])
  {
    if i > 0 {
      NeighborsUpToSpec(grid, p, i - 1);
      var prev, c := NeighborsUpTo(grid, p, i - 1), Shift(p, Directions[i - 1]);
      assert NeighborsUpTo(grid, p, i) == prev + KeepIfPassable(grid, c);
      forall n ensures n in NeighborsUpTo(grid, p, i) <==>
                 Passable(grid, n) && exists k :: 0 <= k < i && n == Shift(p, Directions[k])
      {
        if Passable(grid, n) && n != c && exists k :: 0 <= k < i && n == Shift(p, Directions[k]) {
          var k :| 0 <= k < i && n == Shift(p, Directions[k]);
          assert k < i - 1;
        }
      }
    }
  }

  /** Each of the four offsets has its own rank. */
  lemma RankOfShift(p: Pos, k: nat)
    requires k < 4
    ensures Rank(p, Shift(p, Directions[k])) == k
  {
  }

  /** The cells from the first `i` offsets come in offset order. */
  lemma {:induction false} NeighborsUpToOrder(grid: Grid, p: Pos, i: nat)
    requires i <= 4
    ensures forall k :: 0 <= k < |NeighborsUpTo(grid, p, i)| ==> Rank(p, NeighborsUpTo(grid, p, i)[k]) < i
    ensures forall k, l :: 0 <= k < l < |NeighborsUpTo(grid, p, i)| ==>
              Rank(p, NeighborsUpTo(grid, p, i)[k]) < Rank(p, NeighborsUpTo(grid, p, i)[l])
  {
    if i > 0 {
      NeighborsUpToOrder(grid, p, i - 1);
      var prev, c := NeighborsUpTo(grid, p, i - 1), Shift(p, Directions[i - 1]);
      var r := NeighborsUpTo(grid, p, i);
      if Passable(grid, c) {
        assert r == prev + [c];
        RankOfShift(p, i - 1);
        forall k | 0 <= k < |r| ensures Rank(p, r[k]) < i {
          if k < |prev| { assert r[k] == prev[k]; }
        }
        forall k, l | 0 <= k < l < |r| ensures Rank(p, r[k]) < Rank(p, r[l]) {
          assert r[k] == prev[k];
          if l < |prev| { assert r[l] == prev[l]; }
        }
      } else {
        assert r == prev;
      }
    }
  }

  lemma AroundIsUnitDistance(p: Pos, n: Pos)
    ensures Heuristic(p, n) == 1 <==> exists k :: 0 <= k < 4 && n == Shift(p, Directions[k])
  {
    if Heuristic(p, n) == 1 {
      if n.x == p.x && n.y < p.y { assert n == Shift(p, Directions[0]); }
      else if n.x > p.x { assert n == Shift(p, Directions[1]); }
      else if n.x == p.x { assert n == Shift(p, Directions[2]); }
      else { assert n == Shift(p, Directions[3]); }
    }
  }

  /**
   * What `getNeighbors` promises: at most four cells, exactly the passable
   * cells at Manhattan distance 1, listed up, right, down, left.
   */
  lemma NeighborsSpec(grid: Grid, p: Pos)
    ensures |Neighbors(grid, p)| <= 4
    ensures forall n :: n in Neighbors(grid, p) <==> Step(grid, p, n)
    ensures forall i, j :: 0 <= i < j < |Neighbors(grid, p)| ==>
              Rank(p, Neighbors(grid, p)[i]) < Rank(p, Neighbors(grid, p)[j])
  {
    NeighborsUpToSpec(grid, p, 4);
    NeighborsUpToOrder(grid, p, 4);
    forall n ensures n in Neighbors(grid, p) <==> Step(grid, p, n) {
      AroundIsUnitDistance(p, n);
    }
  }

  /** Each listed neighbour is one Step away. */
  lemma NeighborStep(grid: Grid, p: Pos, k: int)
    requires 0 <= k < |Neighbors(grid, p)|
    ensures Step(grid, p, Neighbors(grid, p)[k])
  {
    NeighborsSpec(grid, p);
  }

  /** `getNeighbors` (pathfinding.ts:18-43): the loop over the four offsets. */
  method GetNeighbors(pos: Pos, grid: Grid) returns (neighbors: seq<Pos>)
    requires |grid| > 0
    ensures neighbors == Neighbors(grid, pos)
  {
    neighbors := [];
    for i := 0 to |Directions|
      invariant neighbors == NeighborsUpTo(grid, pos, i)
    {
      var dir := Directions[i];
      var newX := pos.x + dir.x;
      var newY := pos.y + dir.y;
      assert NeighborsUpTo(grid, pos, i + 1) == neighbors + KeepIfPassable(grid, Pos(newX, newY));
      if 0 <= newX < |grid[0]| && 0 <= newY < |grid| && newX < |grid[newY]| && grid[newY][newX] == 0 {
        neighbors := neighbors + [Pos(newX, newY)];
      }
    }
  }

  // ---------------------------------------------------------------------
  // Walks: the routes the searches are measured against.

  /**
   * `w` is a route of the drone from `a` to `b`: it starts at `a` (which
   * need not itself be free, as the searches never test the start), ends
   * at `b`, and every move is one Step.
   */
  ghost predicate IsWalk(grid: Grid, w: seq<Pos>, a: Pos, b: Pos) {
    |w| > 0 && w[0] == a && w[|w| - 1] == b &&
    forall i :: 0 < i < |w| ==> Step(grid, w[i - 1], w[i])
  }

  /** Some walk leads from `a` to `b`. */
  ghost predicate Reachable(grid: Grid, a: Pos, b: Pos) {
    exists w :: IsWalk(grid, w, a, b)
  }

  /** `p` is a walk from `a` to `b` with no more cells than any other. */
  ghost predicate ShortestWalk(grid: Grid, p: seq<Pos>, a: Pos, b: Pos) {
    IsWalk(grid, p, a, b) && forall w {:trigger IsWalk(grid, w, a, b)} :: IsWalk(grid, w, a, b) ==> |p| <= |w|
  }

  /** Putting one Step in front of a walk gives a walk. */
  lemma WalkPrepend(grid: Grid, c: Pos, w: seq<Pos>, a: Pos, b: Pos)
    requires IsWalk(grid, w, a, b) && Step(grid, c, a)
    ensures IsWalk(grid, [c] + w, c, b)
  {
    var v := [c] + w;
    forall i | 0 < i < |v| ensures Step(grid, v[i - 1], v[i]) {
      if i > 1 { assert v[i - 1] == w[i - 2] && v[i] == w[i - 1]; }
    }
  }

  lemma WalkPrefix(grid: Grid, w: seq<Pos>, a: Pos, b: Pos, k: int)
    requires IsWalk(grid, w, a, b) && 0 < k <= |w|
    ensures IsWalk(grid, w[..k], a, w[k - 1])
  {
  }

  /**
   * Admissibility of the heuristic: no walk is shorter than the Manhattan
   * distance between its ends.
   */
  lemma {:induction false} WalkHeuristic(grid: Grid, w: seq<Pos>, a: Pos, b: Pos)
    requires IsWalk(grid, w, a, b)
    ensures Heuristic(a, b) <= |w| - 1
  {
    if |w| > 1 {
      var m := w[|w| - 2];
      WalkHeuristic(grid, w[..|w| - 1], a, m);
      HeuristicTriangle(a, m, b);
    }
  }

  /** The part of a walk from index `i` on is a walk no longer than the rest. */
  lemma WalkSuffixHeuristic(grid: Grid, w: seq<Pos>, a: Pos, b: Pos, i: int)
    requires IsWalk(grid, w, a, b) && 0 <= i < |w|
    ensures Heuristic(w[i], b) <= |w| - 1 - i
  {
    var s := w[i..];
    assert IsWalk(grid, s, w[i], b) by {
      forall k | 0 < k < |s| ensures Step(grid, s[k - 1], s[k]) {
        assert s[k - 1] == w[i + k - 1] && s[k] == w[i + k];
      }
    }
    WalkHeuristic(grid, s, w[i], b);
  }

  /**
   * A walk that starts inside a set closed under Step stays inside it.
   */
  lemma {:induction false} WalkStaysIn(grid: Grid, w: seq<Pos>, a: Pos, b: Pos, s: set<Pos>)
    requires IsWalk(grid, w, a, b) && a in s
    requires forall c, n :: c in s && Step(grid, c, n) ==> n in s
    ensures b in s
  {
    if |w| > 1 {
      WalkStaysIn(grid, w[..|w| - 1], a, w[|w| - 2], s);
    }
  }

  /** The first move of a walk that leaves a set it starts in. */
  lemma ExitIndex(grid: Grid, w: seq<Pos>, a: Pos, b: Pos, s: set<Pos>) returns (i: int)
    requires IsWalk(grid, w, a, b) && a in s && b !in s
    ensures 0 < i < |w| && w[i - 1] in s && w[i] !in s
  {
    i := 1;
    while w[i] in s
      invariant 0 < i < |w| && w[i - 1] in s
      decreases |w| - i
    {
      i := i + 1;
    }
  }

  ghost predicate Distinct<T>(s: seq<T>) {
    forall i, j :: 0 <= i < j < |s| ==> s[i] != s[j]
  }

  // ---------------------------------------------------------------------
  // The set of in-bounds cells, which bounds how much a search can explore.

  function Cells(w: int, h: int): set<Pos> {
    set x, y | 0 <= x < w && 0 <= y < h :: Pos(x, y)
  }

  function Row(w: int, y: int): set<Pos> {
    set x | 0 <= x < w :: Pos(x, y)
  }

  lemma {:induction false} RowCard(w: nat, y: int)
    ensures |Row(w, y)| == w
  {
    if w == 0 {
      assert Row(0, y) == {};
    } else {
      RowCard(w - 1, y);
      assert Row(w, y) == Row(w - 1, y) + {Pos(w - 1, y)};
    }
  }

  lemma {:induction false} CellsCard(w: nat, h: nat)
    ensures |Cells(w, h)| == w * h
  {
    if h == 0 {
      assert Cells(w, 0) == {};
    } else {
      CellsCard(w, h - 1);
      RowCard(w, h - 1);
      assert Cells(w, h) == Cells(w, h - 1) + Row(w, h - 1) by {
        forall p | p in Cells(w, h) ensures p in Cells(w, h - 1) + Row(w, h - 1) {
          if p.y < h - 1 { assert p == Pos(p.x, p.y); } else { assert p in Row(w, h - 1); }
        }
      }
      assert Cells(w, h - 1) * Row(w, h - 1) == {};
      assert |Cells(w, h - 1) + Row(w, h - 1)| == |Cells(w, h - 1)| + |Row(w, h - 1)|;
      assert w * h == w * (h - 1) + w;
    }
  }

  lemma PassableInCells(grid: Grid, p: Pos)
    requires Passable(grid, p)
    ensures p in Cells(|grid[0]|, |grid|)
  {
    assert p == Pos(p.x, p.y);
  }

  /**
   * A set of cells each of which is the start or passable has at most
   * width * height + 1 members.
   */
  lemma BoundedByCells(grid: Grid, start: Pos, s: set<Pos>)
    requires |grid| > 0
    requires forall p :: p in s ==> p == start || Passable(grid, p)
    ensures |s| <= |grid[0]| * |grid| + 1
  {
    forall p | p in s ensures p in Cells(|grid[0]|, |grid|) + {start} {
      if p != start { PassableInCells(grid, p); }
    }
    CellsCard(|grid[0]|, |grid|);
    SubsetCard(s, Cells(|grid[0]|, |grid|) + {start});
  }

  /** The set of a sequence's elements. */
  function Elems(s: seq<Pos>): (r: set<Pos>)
    ensures forall x :: x in r <==> x in s
  {
    if s == [] then {} else {s[0]} + Elems(s[1..])
  }

  /** A duplicate-free sequence has as many distinct elements as it is long. */
  lemma {:induction false} DistinctCard(s: seq<Pos>)
    requires Distinct(s)
    ensures |Elems(s)| == |s|
  {
    if s != [] {
      var t := s[1..];
      assert Distinct(t) by {
        forall i, j | 0 <= i < j < |t| ensures t[i] != t[j] {
          assert t[i] == s[i + 1] && t[j] == s[j + 1];
        }
      }
      DistinctCard(t);
      assert s[0] !in t by {
        forall i | 0 <= i < |t| ensures t[i] != s[0] {
          assert t[i] == s[i + 1];
        }
      }
      assert Elems(s) == {s[0]} + Elems(t);
    }
  }

  lemma SubsetCard<T>(a: set<T>, b: set<T>)
    requires a <= b
    ensures |a| <= |b|
  {
    assert b == a + (b - a);
  }
}
