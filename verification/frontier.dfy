/**
 * The search nodes and the frontier operations shared by both searches in
 * src/utils/pathfinding.ts: the `PathNode` record, the stable `sort` by a
 * numeric key followed by `shift`, and `find` by cell.
 */
module Frontier {
  import opened Wrappers
  import opened Geometry

  /**
   * A search node. The source's `parent` is a reference to the node of
   * the parent cell; here it is that cell's coordinate, resolved through
   * a table of finalised nodes keyed by cell.
   */
  datatype PathNode = PathNode(pos: Pos, g: int, h: int, f: int, parent: Option<Pos>)

  /** The comparator: `a.f - b.f` (A*) or `a.g - b.g` (Dijkstra). */
  datatype Priority = ByF | ByG

  function Key(n: PathNode, order: Priority): int {
    match order
    case ByF => n.f
    case ByG => n.g
  }

  ghost predicate Sorted(s: seq<PathNode>, order: Priority) {
    forall i, j :: 0 <= i < j < |s| ==> Key(s[i], order) <= Key(s[j], order)
  }

  /** An element no greater than everything in a sorted sequence may go in front of it. */
  lemma SortedCons(x: PathNode, t: seq<PathNode>, order: Priority)
    requires Sorted(t, order)
    requires forall k :: 0 <= k < |t| ==> Key(x, order) <= Key(t[k], order)
    ensures Sorted([x] + t, order)
  {
    var r := [x] + t;
    forall i, j | 0 <= i < j < |r| ensures Key(r[i], order) <= Key(r[j], order) {
      assert r[j] == t[j - 1];
      if i > 0 { assert r[i] == t[i - 1]; }
    }
  }

  /**
   * Inserts `n` before the first element whose key is at least its own,
   * so `n` precedes every element of `s` with an equal key.
   */
  function Insert(n: PathNode, s: seq<PathNode>, order: Priority): (r: seq<PathNode>)
    requires Sorted(s, order)
    ensures multiset(r) == multiset(s) + multiset{n}
    ensures forall x :: x in r <==> x == n || x in s
    ensures Sorted(r, order)
  {
    if s == [] || Key(n, order) <= Key(s[0], order) then
      assert forall k :: 0 <= k < |s| ==> Key(n, order) <= Key(s[k], order);
      SortedCons(n, s, order);
      [n] + s
    else
      var t := Insert(n, s[1..], order);
      assert s == [s[0]] + s[1..];
      assert forall k :: 0 <= k < |t| ==> Key(s[0], order) <= Key(t[k], order) by {
        forall k | 0 <= k < |t| ensures Key(s[0], order) <= Key(t[k], order) {
          assert t[k] == n || t[k] in s[1..];
        }
      }
      SortedCons(s[0], t, order);
      [s[0]] + t
  }

  /**
   * JavaScript's `Array.prototype.sort` with a numeric comparator: a
   * stable sort, written as an insertion sort. Each element is inserted
   * ahead of the equal-keyed elements that follow it in the input, so
   * elements with equal keys keep their input order.
   */
  function SortBy(s: seq<PathNode>, order: Priority): (r: seq<PathNode>)
    ensures multiset(r) == multiset(s)
    ensures |r| == |s|
    ensures forall x :: x in r <==> x in s
    ensures Sorted(r, order)
  {
    if s == [] then []
    else
      assert s == [s[0]] + s[1..];
      Insert(s[0], SortBy(s[1..], order), order)
  }

  /** Index of the first element with the least key, scanning in array order. */
  function FirstMin(s: seq<PathNode>, order: Priority): (i: int)
    requires |s| > 0
    ensures 0 <= i < |s|
    ensures forall j :: 0 <= j < |s| ==> Key(s[i], order) <= Key(s[j], order)
    ensures forall j :: 0 <= j < i ==> Key(s[j], order) > Key(s[i], order)
  {
    if |s| == 1 then 0
    else
      var k := FirstMin(s[1..], order);
      if Key(s[0], order) <= Key(s[1 + k], order) then 0 else 1 + k
  }

  /**
   * Sorting and taking the head (`sort` then `shift`) removes the first
   * entry with the least key in the array's own order: the tie-break is
   * insertion order.
   */
  lemma {:induction false} SortHeadIsFirstMin(s: seq<PathNode>, order: Priority)
    requires |s| > 0
    ensures SortBy(s, order)[0] == s[FirstMin(s, order)]
  {
    if |s| > 1 {
      SortHeadIsFirstMin(s[1..], order);
      var t := SortBy(s[1..], order);
      assert t[0] in s[1..];
    }
  }

  /** No two entries are for the same cell. */
  ghost predicate DistinctPos(s: seq<PathNode>) {
    forall i, j :: 0 <= i < j < |s| ==> s[i].pos != s[j].pos
  }

  lemma {:induction false} InsertDistinct(n: PathNode, s: seq<PathNode>, order: Priority)
    requires Sorted(s, order) && DistinctPos(s)
    requires forall x :: x in s ==> x.pos != n.pos
    ensures DistinctPos(Insert(n, s, order))
  {
    if s != [] && Key(n, order) > Key(s[0], order) {
      InsertDistinct(n, s[1..], order);
      var t := Insert(n, s[1..], order);
      assert forall x :: x in t ==> x.pos != s[0].pos;
    }
  }

  lemma {:induction false} SortDistinct(s: seq<PathNode>, order: Priority)
    requires DistinctPos(s)
    ensures DistinctPos(SortBy(s, order))
  {
    if s != [] {
      SortDistinct(s[1..], order);
      InsertDistinct(s[0], SortBy(s[1..], order), order);
    }
  }

  /** `sort` then `shift`: the removed head is an entry with the least key. */
  lemma PopHead(s: seq<PathNode>, order: Priority)
    requires |s| > 0
    ensures SortBy(s, order)[0] in s
    ensures forall x :: x in s ==> Key(SortBy(s, order)[0], order) <= Key(x, order)
  {
    var r := SortBy(s, order);
    forall x | x in s ensures Key(r[0], order) <= Key(x, order) {
      var i :| 0 <= i < |r| && r[i] == x;
    }
  }

  /** `sort` then `shift`: what stays behind is every other entry, once. */
  lemma PopRest(s: seq<PathNode>, order: Priority)
    requires |s| > 0 && DistinctPos(s)
    ensures var r := SortBy(s, order);
      && DistinctPos(r[1..])
      && (forall x :: x in r[1..] ==> x in s && x.pos != r[0].pos)
      && (forall x :: x in s && x.pos != r[0].pos ==> x in r[1..])
  {
    var r := SortBy(s, order);
    SortDistinct(s, order);
    assert r == [r[0]] + r[1..];
    forall x | x in r[1..] ensures x.pos != r[0].pos {
      var i :| 0 <= i < |r[1..]| && r[1..][i] == x;
      assert r[i + 1] == x;
    }
  }

  /** Replacing the entry at `j` by one for the same cell (`Object.assign`). */
  lemma UpdateFacts(s: seq<PathNode>, j: int, v: PathNode)
    requires 0 <= j < |s| && DistinctPos(s) && v.pos == s[j].pos
    ensures DistinctPos(s[j := v])
    ensures v in s[j := v]
    ensures forall x :: x in s[j := v] ==> x == v || (x in s && x.pos != v.pos)
    ensures forall x :: x in s && x.pos != v.pos ==> x in s[j := v]
  {
    var t := s[j := v];
    assert t[j] == v;
    forall x | x in t ensures x == v || (x in s && x.pos != v.pos) {
      var i :| 0 <= i < |t| && t[i] == x;
      if i != j { assert s[i] == x; }
    }
    forall x | x in s && x.pos != v.pos ensures x in t {
      var i :| 0 <= i < |s| && s[i] == x;
      assert t[i] == x;
    }
  }

  /** Appending an entry for a cell that has none (`push`). */
  lemma AppendFacts(s: seq<PathNode>, v: PathNode)
    requires DistinctPos(s) && forall i :: 0 <= i < |s| ==> s[i].pos != v.pos
    ensures DistinctPos(s + [v])
    ensures forall x :: x in s + [v] <==> x == v || x in s
  {
  }

  /** `openSet.find` by cell: the index of the first entry for `p`, or -1. */
  function FindByPos(s: seq<PathNode>, p: Pos): (r: int)
    ensures -1 <= r < |s|
    ensures r == -1 <==> forall i :: 0 <= i < |s| ==> s[i].pos != p
    ensures r >= 0 ==> s[r].pos == p && forall i :: 0 <= i < r ==> s[i].pos != p
  {
    if s == [] then -1
    else if s[0].pos == p then 0
    else
      var k := FindByPos(s[1..], p);
      if k == -1 then -1 else 1 + k
  }

  /** Every closed node's g is no longer than any walk from the start to its cell. */
  ghost predicate OptimalOk(grid: Grid, start: Pos, nodes: map<Pos, PathNode>) {
    forall c, w {:trigger IsWalk(grid, w, start, c)} :: c in nodes && IsWalk(grid, w, start, c) ==> nodes[c].g <= |w| - 1
  }

  /** A walk to a finalised target with one cell more than the target's g is no longer than any walk to it. */
  lemma FoundIsShortest(grid: Grid, start: Pos, end: Pos, path: seq<Pos>, nodes: map<Pos, PathNode>)
    requires OptimalOk(grid, start, nodes) && end in nodes
    requires IsWalk(grid, path, start, end) && |path| == nodes[end].g + 1
    ensures forall w {:trigger IsWalk(grid, w, start, end)} :: IsWalk(grid, w, start, end) ==> |path| <= |w|
  {
    forall w | IsWalk(grid, w, start, end) ensures |path| <= |w| {
      assert nodes[end].g <= |w| - 1;
    }
  }

  /**
   * `explored` lists closed cells, no cell twice, as many as there are
   * closed cells (so it lists all of them), the start first.
   */
  ghost predicate TraceOk(start: Pos, explored: seq<Pos>, nodes: map<Pos, PathNode>) {
    && Distinct(explored) && |explored| == |nodes|
    && (forall i :: 0 <= i < |explored| ==> explored[i] in nodes)
    && (|explored| > 0 ==> start in nodes && explored[0] == start)
  }

  /** A duplicate-free listing of closed cells as long as the table lists every closed cell. */
  lemma TraceCovers(start: Pos, explored: seq<Pos>, nodes: map<Pos, PathNode>)
    requires TraceOk(start, explored, nodes)
    ensures forall p :: p in nodes ==> p in explored
  {
    var listed := Elems(explored);
    DistinctCard(explored);
    assert listed <= nodes.Keys;
    if exists p :: p in nodes && p !in listed {
      var p :| p in nodes && p !in listed;
      SubsetCard(listed + {p}, nodes.Keys);
    }
  }

  /**
   * What a trace of a non-empty closed table gives the caller: the start
   * comes first, no cell twice, only the start or free cells, and at most
   * one entry per grid cell plus the start.
   */
  lemma TraceFacts(grid: Grid, start: Pos, explored: seq<Pos>, nodes: map<Pos, PathNode>)
    requires |grid| > 0 && TraceOk(start, explored, nodes) && |nodes| > 0
    requires forall p :: p in nodes ==> p == start || Passable(grid, p)
    ensures |explored| > 0 && explored[0] == start && Distinct(explored)
    ensures forall p :: p in explored ==> p == start || Passable(grid, p)
    ensures |explored| <= |grid[0]| * |grid| + 1
  {
    BoundedByCells(grid, start, nodes.Keys);
  }

  /** Appending a newly closed cell keeps `explored` a duplicate-free listing of the closed cells. */
  lemma PopTrace(start: Pos, explored: seq<Pos>, nodes: map<Pos, PathNode>, n: PathNode)
    requires TraceOk(start, explored, nodes) && n.pos !in nodes
    requires |nodes| == 0 ==> n.pos == start
    ensures TraceOk(start, explored + [n.pos], nodes[n.pos := n])
    ensures n.pos == start ==> explored == []
  {
    var explored' := explored + [n.pos];
    forall i, j | 0 <= i < j < |explored'| ensures explored'[i] != explored'[j] {
      if j == |explored| { assert explored'[i] == explored[i] && explored[i] in nodes; }
    }
  }

  /**
   * What a search promises once it returns `path` and `explored`: a found
   * path is a shortest walk from the start to the target and the target was
   * the last cell reported; an empty path means no walk reaches the target,
   * every cell a walk reaches was reported and the target was not. Either
   * way the report starts at the start, repeats no cell, holds only open
   * cells besides the start, has at most one entry per cell of the grid plus
   * one, and a search from the target to itself returns and reports just it.
   */
  ghost predicate Outcome(grid: Grid, start: Pos, end: Pos, path: seq<Pos>, explored: seq<Pos>)
    requires |grid| > 0
  {
    && (path != [] ==> IsWalk(grid, path, start, end))
    && (path != [] ==> forall w {:trigger IsWalk(grid, w, start, end)} :: IsWalk(grid, w, start, end) ==> |path| <= |w|)
    && (path == [] ==> forall w :: !IsWalk(grid, w, start, end))
    && (path == [] ==> forall w, c :: IsWalk(grid, w, start, c) ==> c in explored)
    && |explored| > 0 && explored[0] == start
    && (path != [] ==> explored[|explored| - 1] == end)
    && (path == [] ==> explored[|explored| - 1] != end)
    && Distinct(explored)
    && (forall p :: p in explored ==> p == start || Passable(grid, p))
    && |explored| <= |grid[0]| * |grid| + 1
    && (start == end ==> path == [start] && explored == [start])
  }
}
