/**
 * `findPathAStar` of src/utils/pathfinding.ts:45-118: A* over the
 * 4-connected grid with unit step cost, priority f = g + h where h is the
 * Manhattan distance to the target, a closed set keyed by cell, and an
 * open set that holds at most one entry per cell.
 *
 * Each open entry's `parent` reference becomes the parent's cell, and the
 * closed nodes are kept in `nodes`, a table from cell to node. A node is
 * added to the table exactly when its cell is added to the source's
 * `closedSet`, so that set is the table's key set and is not kept apart.
 */
module AStar {
  import opened Wrappers
  import opened Geometry
  import opened Frontier

  function StartNode(start: Pos, end: Pos): PathNode {
    PathNode(start, 0, Heuristic(start, end), Heuristic(start, end), None)
  }

  /**
   * An open-set entry as A* builds it (pathfinding.ts:54-59, 91-106):
   * f = g + h with h the distance to the target, its cell not yet closed,
   * and its parent a closed cell one Step away with g one less.
   */
  ghost predicate OpenNodeOk(grid: Grid, start: Pos, end: Pos, n: PathNode, nodes: map<Pos, PathNode>) {
    && n.h == Heuristic(n.pos, end) && n.f == n.g + n.h && n.g >= 0
    && n.pos !in nodes
    && (n.pos == start || Passable(grid, n.pos))
    && match n.parent
       case None => n.pos == start && n.g == 0
       case Some(p) => p in nodes && nodes[p].g + 1 == n.g && Step(grid, p, n.pos)
  }

  /** A finalised node: the parent chain leads back to `start` with g falling by one per link. */
  ghost predicate ClosedNodeOk(grid: Grid, start: Pos, nodes: map<Pos, PathNode>, c: Pos)
    requires c in nodes
  {
    && nodes[c].pos == c && nodes[c].g >= 0
    && (c == start || Passable(grid, c))
    && match nodes[c].parent
       case None => c == start && nodes[c].g == 0
       case Some(p) => p in nodes && nodes[p].g + 1 == nodes[c].g && Step(grid, p, c)
  }

  /** The open set: well-formed entries, one per cell, mirrored by the ghost table `om`. */
  ghost predicate OpenOk(grid: Grid, start: Pos, end: Pos, open: seq<PathNode>, om: map<Pos, PathNode>,
                         nodes: map<Pos, PathNode>) {
    && (forall e :: e in open ==> OpenNodeOk(grid, start, end, e, nodes))
    && DistinctPos(open)
    && (forall e :: e in open ==> e.pos in om && om[e.pos] == e)
    && (forall p :: p in om ==> exists e :: e in open && e.pos == p)
  }

  /** Every closed node is finalised. */
  ghost predicate NodesOk(grid: Grid, start: Pos, nodes: map<Pos, PathNode>) {
    forall c {:trigger ClosedNodeOk(grid, start, nodes, c)} :: c in nodes ==> ClosedNodeOk(grid, start, nodes, c)
  }

  /** Every unclosed neighbour of closed cell `c` has an open entry with g at most one more than c's. */
  ghost predicate CoveredFrom(grid: Grid, nodes: map<Pos, PathNode>, c: Pos, om: map<Pos, PathNode>)
    requires c in nodes
  {
    forall n :: n in Neighbors(grid, c) && n !in nodes ==> n in om && om[n].g <= nodes[c].g + 1
  }

  ghost predicate CoverOk(grid: Grid, nodes: map<Pos, PathNode>, om: map<Pos, PathNode>) {
    forall c :: c in nodes ==> CoveredFrom(grid, nodes, c, om)
  }

  /**
   * The entry A* pops has the least f, so, with a consistent heuristic,
   * its g is no longer than any walk from the start to its cell: such a
   * walk leaves the closed cells somewhere, and the open entry for the
   * cell where it leaves has f no greater than the walk's length plus h.
   */
  lemma PopIsOptimal(grid: Grid, start: Pos, end: Pos, open: seq<PathNode>, om: map<Pos, PathNode>,
                     nodes: map<Pos, PathNode>, current: PathNode, w: seq<Pos>)
    requires OpenOk(grid, start, end, open, om, nodes)
    requires OptimalOk(grid, start, nodes) && CoverOk(grid, nodes, om)
    requires start in nodes || current.g == 0
    requires current in open && forall e :: e in open ==> current.f <= e.f
    requires IsWalk(grid, w, start, current.pos)
    ensures current.g <= |w| - 1
  {
    if current.g != 0 {
      assert OpenNodeOk(grid, start, end, current, nodes);
      var i := ExitIndex(grid, w, start, current.pos, nodes.Keys);
      var c, n := w[i - 1], w[i];
      WalkPrefix(grid, w, start, current.pos, i);
      assert nodes[c].g <= i - 1;
      NeighborsSpec(grid, c);
      assert n in Neighbors(grid, c);
      assert CoveredFrom(grid, nodes, c, om);
      assert n in om && om[n].g <= i;
      var e :| e in open && e.pos == n;
      assert OpenNodeOk(grid, start, end, e, nodes);
      WalkSuffixHeuristic(grid, w, start, current.pos, i);
      HeuristicTriangle(n, current.pos, end);
      assert e.f <= |w| - 1 + current.h;
    }
  }

  /** Closing the popped cell keeps every closed g optimal. */
  lemma PopOptimal(grid: Grid, start: Pos, end: Pos, open: seq<PathNode>, om: map<Pos, PathNode>,
                   nodes: map<Pos, PathNode>, current: PathNode)
    requires OpenOk(grid, start, end, open, om, nodes)
    requires OptimalOk(grid, start, nodes) && CoverOk(grid, nodes, om)
    requires start in nodes || current.g == 0
    requires current in open && forall e :: e in open ==> current.f <= e.f
    ensures OptimalOk(grid, start, nodes[current.pos := current])
  {
    var nodes' := nodes[current.pos := current];
    forall c, w | c in nodes' && IsWalk(grid, w, start, c) ensures nodes'[c].g <= |w| - 1 {
      if c == current.pos {
        PopIsOptimal(grid, start, end, open, om, nodes, current, w);
      } else {
        assert c in nodes;
      }
    }
  }

  /** Removing the popped entry from the open set and closing its cell keeps the open set well formed. */
  lemma PopOpen(grid: Grid, start: Pos, end: Pos, open: seq<PathNode>, om: map<Pos, PathNode>,
                nodes: map<Pos, PathNode>)
    requires OpenOk(grid, start, end, open, om, nodes) && |open| > 0
    ensures var current := SortBy(open, ByF)[0];
      OpenOk(grid, start, end, SortBy(open, ByF)[1..], om - {current.pos}, nodes[current.pos := current])
  {
    PopHead(open, ByF);
    PopRest(open, ByF);
    var sorted := SortBy(open, ByF);
    var current := sorted[0];
    var rest, om', nodes' := sorted[1..], om - {current.pos}, nodes[current.pos := current];
    assert OpenNodeOk(grid, start, end, current, nodes);
    forall e | e in rest ensures OpenNodeOk(grid, start, end, e, nodes') {
      assert OpenNodeOk(grid, start, end, e, nodes);
    }
    forall e | e in rest ensures e.pos in om' && om'[e.pos] == e {
      assert e in open;
    }
    forall p | p in om' ensures exists e :: e in rest && e.pos == p {
      var e :| e in open && e.pos == p;
      assert e in rest;
    }
    assert DistinctPos(rest);
    assert OpenOk(grid, start, end, rest, om', nodes');
  }

  /** Adding a node whose parent is already finalised keeps every node finalised. */
  lemma CloseNode(grid: Grid, start: Pos, end: Pos, nodes: map<Pos, PathNode>, n: PathNode)
    requires NodesOk(grid, start, nodes) && OpenNodeOk(grid, start, end, n, nodes)
    ensures NodesOk(grid, start, nodes[n.pos := n])
  {
    var nodes' := nodes[n.pos := n];
    forall c | c in nodes' ensures ClosedNodeOk(grid, start, nodes', c) {
      if c != n.pos {
        assert ClosedNodeOk(grid, start, nodes, c);
        match nodes[c].parent
        case None =>
        case Some(p) => assert p != n.pos;
      }
    }
  }

  /** Closing a cell keeps the coverage of the other closed cells' neighbours. */
  lemma PopCovered(grid: Grid, current: PathNode, om: map<Pos, PathNode>, nodes: map<Pos, PathNode>)
    requires CoverOk(grid, nodes, om) && current.pos !in nodes
    ensures var nodes' := nodes[current.pos := current];
      forall c :: c in nodes' && c != current.pos ==> CoveredFrom(grid, nodes', c, om - {current.pos})
  {
    var nodes' := nodes[current.pos := current];
    forall c | c in nodes' && c != current.pos ensures CoveredFrom(grid, nodes', c, om - {current.pos}) {
      assert CoveredFrom(grid, nodes, c, om);
    }
  }

  /** `push` of an entry for a cell with no entry. */
  lemma OpenPush(grid: Grid, start: Pos, end: Pos, open: seq<PathNode>, om: map<Pos, PathNode>,
                 nodes: map<Pos, PathNode>, v: PathNode)
    requires OpenOk(grid, start, end, open, om, nodes) && OpenNodeOk(grid, start, end, v, nodes)
    requires v.pos !in om
    ensures OpenOk(grid, start, end, open + [v], om[v.pos := v], nodes)
  {
    forall i | 0 <= i < |open| ensures open[i].pos != v.pos {
      assert open[i] in open;
    }
    AppendFacts(open, v);
    var om' := om[v.pos := v];
    forall p | p in om' ensures exists e :: e in open + [v] && e.pos == p {
      if p != v.pos {
        var e :| e in open && e.pos == p;
        assert e in open + [v];
      } else {
        assert v in open + [v];
      }
    }
  }

  /** `Object.assign` of a new g, h, f and parent onto the entry at `j`. */
  lemma OpenReplace(grid: Grid, start: Pos, end: Pos, open: seq<PathNode>, om: map<Pos, PathNode>,
                    nodes: map<Pos, PathNode>, j: int, v: PathNode)
    requires OpenOk(grid, start, end, open, om, nodes) && OpenNodeOk(grid, start, end, v, nodes)
    requires 0 <= j < |open| && open[j].pos == v.pos
    ensures OpenOk(grid, start, end, open[j := v], om[v.pos := v], nodes)
  {
    UpdateFacts(open, j, v);
    var om', open' := om[v.pos := v], open[j := v];
    forall p | p in om' ensures exists e :: e in open' && e.pos == p {
      if p != v.pos {
        var e :| e in open && e.pos == p;
        assert e in open';
      }
    }
  }

  /** Closing the head of the sorted open set keeps every search invariant. */
  lemma PopKeeps(grid: Grid, start: Pos, end: Pos, open0: seq<PathNode>, om0: map<Pos, PathNode>,
                 nodes0: map<Pos, PathNode>, explored0: seq<Pos>)
    requires |open0| > 0
    requires OpenOk(grid, start, end, open0, om0, nodes0)
    requires NodesOk(grid, start, nodes0) && OptimalOk(grid, start, nodes0) && CoverOk(grid, nodes0, om0)
    requires TraceOk(start, explored0, nodes0)
    requires |nodes0| == 0 ==> open0 == [StartNode(start, end)]
    ensures var current := SortBy(open0, ByF)[0];
      var open, om, nodes := SortBy(open0, ByF)[1..], om0 - {current.pos}, nodes0[current.pos := current];
      && OpenOk(grid, start, end, open, om, nodes)
      && NodesOk(grid, start, nodes) && OptimalOk(grid, start, nodes)
      && (forall c :: c in nodes && c != current.pos ==> CoveredFrom(grid, nodes, c, om))
      && TraceOk(start, explored0 + [current.pos], nodes)
  {
    PopHead(open0, ByF);
    var current := SortBy(open0, ByF)[0];
    assert OpenNodeOk(grid, start, end, current, nodes0);
    PopOpen(grid, start, end, open0, om0, nodes0);
    PopOptimal(grid, start, end, open0, om0, nodes0, current);
    CloseNode(grid, start, end, nodes0, current);
    PopCovered(grid, current, om0, nodes0);
    PopTrace(start, explored0, nodes0, current);
  }

  /**
   * Lines 65-72: sort the open set by f, shift its head, close its cell and
   * report it to `onExplore`. The head's cell is never already closed, so
   * the skip of line 69 is not taken.
   */
  method Pop(grid: Grid, start: Pos, end: Pos, open0: seq<PathNode>, ghost om0: map<Pos, PathNode>,
             nodes0: map<Pos, PathNode>, explored0: seq<Pos>)
    returns (current: PathNode, open: seq<PathNode>, ghost om: map<Pos, PathNode>,
             nodes: map<Pos, PathNode>, explored: seq<Pos>)
    requires |open0| > 0
    requires OpenOk(grid, start, end, open0, om0, nodes0)
    requires NodesOk(grid, start, nodes0) && OptimalOk(grid, start, nodes0) && CoverOk(grid, nodes0, om0)
    requires TraceOk(start, explored0, nodes0)
    requires |nodes0| == 0 ==> open0 == [StartNode(start, end)]
    ensures current in open0 && forall e :: e in open0 ==> current.f <= e.f
    ensures current == open0[FirstMin(open0, ByF)]
    ensures open == SortBy(open0, ByF)[1..] && om == om0 - {current.pos}
    ensures nodes == nodes0[current.pos := current] && explored == explored0 + [current.pos]
    ensures current.pos !in nodes0 && |nodes| == |nodes0| + 1
    ensures forall p :: p in nodes <==> p in nodes0 || p == current.pos
    ensures current.pos in nodes && nodes[current.pos] == current
    ensures |explored| > 0 && explored[|explored| - 1] == current.pos
    ensures current.pos == start || Passable(grid, current.pos)
    ensures current.g >= 0 && (|nodes0| == 0 ==> current == StartNode(start, end))
    ensures OpenOk(grid, start, end, open, om, nodes)
    ensures NodesOk(grid, start, nodes) && OptimalOk(grid, start, nodes)
    ensures forall c :: c in nodes && c != current.pos ==> CoveredFrom(grid, nodes, c, om)
    ensures TraceOk(start, explored, nodes)
  {
    PopHead(open0, ByF);
    PopRest(open0, ByF);
    SortHeadIsFirstMin(open0, ByF);
    var sorted := SortBy(open0, ByF);
    current := sorted[0];
    open := sorted[1..];
    assert OpenNodeOk(grid, start, end, current, nodes0);
    // The closed-set test of line 69 never succeeds: the open set never
    // holds an entry for a closed cell.
    assert current.pos !in nodes0;
    nodes := nodes0[current.pos := current];
    om := om0 - {current.pos};
    explored := explored0 + [current.pos];
    assert |nodes| == |nodes0| + 1;
    PopKeeps(grid, start, end, open0, om0, nodes0, explored0);
  }

  /** The entry built for a neighbour (lines 91-106): g one more than the current node's, and the current cell as parent. */
  function NeighborNode(current: PathNode, neighbor: Pos, end: Pos): (n: PathNode)
    ensures n.pos == neighbor && n.g == current.g + 1 && n.parent == Some(current.pos)
    ensures n.h == Heuristic(neighbor, end) && n.f == n.g + n.h
  {
    var g := current.g + 1;
    var h := Heuristic(neighbor, end);
    PathNode(neighbor, g, h, g + h, Some(current.pos))
  }

  /**
   * One pass of the neighbour loop (lines 87-112): unless the neighbour is
   * closed, give it an entry with g one more than the current node's when
   * it has none (`push`), or overwrite its entry in place when the new g
   * is smaller (`Object.assign`); otherwise nothing changes. `om0` mirrors
   * the open set, so `neighbor in om0` is the `find` of lines 95-97.
   */
  method Relax(grid: Grid, start: Pos, end: Pos, current: PathNode, nodes: map<Pos, PathNode>,
               open0: seq<PathNode>, ghost om0: map<Pos, PathNode>, neighbor: Pos)
    returns (open: seq<PathNode>, ghost om: map<Pos, PathNode>)
    requires current.pos in nodes && nodes[current.pos] == current && current.g >= 0
    requires Step(grid, current.pos, neighbor)
    requires OpenOk(grid, start, end, open0, om0, nodes)
    ensures OpenOk(grid, start, end, open, om, nodes)
    ensures forall p :: p in om0 ==> p in om && om[p].g <= om0[p].g
    ensures neighbor !in nodes ==> neighbor in om && om[neighbor].g <= current.g + 1
    // A closed neighbour, or an open one whose g is no larger: nothing changes.
    ensures neighbor in nodes || (neighbor in om0 && om0[neighbor].g <= current.g + 1) ==>
      open == open0 && om == om0
    // A fresh neighbour is pushed.
    ensures neighbor !in nodes && neighbor !in om0 ==>
      open == open0 + [NeighborNode(current, neighbor, end)] && om == om0[neighbor := NeighborNode(current, neighbor, end)]
    // A strictly better route overwrites the neighbour's entry where it stands.
    ensures neighbor !in nodes && neighbor in om0 && current.g + 1 < om0[neighbor].g ==>
      && |open| == |open0| && om == om0[neighbor := NeighborNode(current, neighbor, end)]
      && forall i :: 0 <= i < |open0| ==>
           open[i] == (if open0[i].pos == neighbor then NeighborNode(current, neighbor, end) else open0[i])
  {
    open, om := open0, om0;
    if neighbor !in nodes {
      var g := current.g + 1;
      var existing := FindByPos(open, neighbor);
      if existing == -1 || g < open[existing].g {
        var neighborNode := NeighborNode(current, neighbor, end);
        assert OpenNodeOk(grid, start, end, neighborNode, nodes);
        if existing == -1 {
          assert neighbor !in om;
          OpenPush(grid, start, end, open, om, nodes, neighborNode);
          open := open + [neighborNode];
        } else {
          assert open[existing] in open;
          OpenReplace(grid, start, end, open, om, nodes, existing, neighborNode);
          assert forall i :: 0 <= i < |open0| && open0[i].pos == neighbor ==> i == existing;
          open := open[existing := neighborNode];
        }
        om := om[neighbor := neighborNode];
      } else {
        assert open[existing] in open;
      }
    }
  }

  /**
   * The neighbour loop of lines 86-114 for the cell just closed: afterwards
   * every unclosed neighbour has an entry with g at most one more than the
   * current node's, and no entry's g has grown.
   */
  method Expand(grid: Grid, start: Pos, end: Pos, current: PathNode,
                nodes: map<Pos, PathNode>, open0: seq<PathNode>, ghost om0: map<Pos, PathNode>)
    returns (open: seq<PathNode>, ghost om: map<Pos, PathNode>)
    requires |grid| > 0
    requires current.pos in nodes && nodes[current.pos] == current && current.g >= 0
    requires OpenOk(grid, start, end, open0, om0, nodes)
    requires forall c :: c in nodes && c != current.pos ==> CoveredFrom(grid, nodes, c, om0)
    ensures OpenOk(grid, start, end, open, om, nodes)
    ensures forall p :: p in om0 ==> p in om && om[p].g <= om0[p].g
    ensures CoverOk(grid, nodes, om)
  {
    open, om := open0, om0;
    var neighbors := GetNeighbors(current.pos, grid);
    for k := 0 to |neighbors|
      invariant OpenOk(grid, start, end, open, om, nodes)
      invariant forall p :: p in om0 ==> p in om && om[p].g <= om0[p].g
      invariant forall i :: 0 <= i < k && neighbors[i] !in nodes ==>
                  neighbors[i] in om && om[neighbors[i]].g <= current.g + 1
    {
      ghost var om1 := om;
      NeighborStep(grid, current.pos, k);
      open, om := Relax(grid, start, end, current, nodes, open, om, neighbors[k]);
      forall p | p in om0 ensures p in om && om[p].g <= om0[p].g {
        assert p in om1;
      }
      forall i | 0 <= i < k + 1 && neighbors[i] !in nodes ensures neighbors[i] in om && om[neighbors[i]].g <= current.g + 1 {
        if i < k { assert neighbors[i] in om1; }
      }
    }
    ExpandCovers(grid, current, nodes, om0, om);
  }

  /** After the neighbour loop, every closed cell's unclosed neighbours are covered again. */
  lemma ExpandCovers(grid: Grid, current: PathNode, nodes: map<Pos, PathNode>,
                     om0: map<Pos, PathNode>, om: map<Pos, PathNode>)
    requires current.pos in nodes && nodes[current.pos] == current
    requires forall c :: c in nodes && c != current.pos ==> CoveredFrom(grid, nodes, c, om0)
    requires forall p :: p in om0 ==> p in om && om[p].g <= om0[p].g
    requires var ns := Neighbors(grid, current.pos);
      forall i :: 0 <= i < |ns| && ns[i] !in nodes ==> ns[i] in om && om[ns[i]].g <= current.g + 1
    ensures CoverOk(grid, nodes, om)
  {
    forall c | c in nodes ensures CoveredFrom(grid, nodes, c, om) {
      if c != current.pos {
        assert CoveredFrom(grid, nodes, c, om0);
      } else {
        forall n | n in Neighbors(grid, c) && n !in nodes ensures n in om && om[n].g <= nodes[c].g + 1 {
          var ns := Neighbors(grid, c);
          var i :| 0 <= i < |ns| && ns[i] == n;
        }
      }
    }
  }

  /**
   * Rebuilding the path from the target's node by following parent links
   * (lines 76-82): a walk from the start of length g + 1.
   */
  method Rebuild(grid: Grid, start: Pos, nodes: map<Pos, PathNode>, current: PathNode) returns (path: seq<Pos>)
    requires current.pos in nodes && nodes[current.pos] == current
    requires NodesOk(grid, start, nodes)
    ensures IsWalk(grid, path, start, current.pos)
    ensures |path| == current.g + 1
  {
    var link: Option<Pos> := Some(current.pos);
    path := [];
    while link.Some?
      invariant link.Some? ==> link.value in nodes
      invariant path == [] ==> link == Some(current.pos)
      invariant path != [] ==> IsWalk(grid, path, path[0], current.pos)
      invariant path != [] && link.Some? ==> Step(grid, link.value, path[0])
      invariant path != [] && link.None? ==> path[0] == start
      invariant |path| + (if link.Some? then nodes[link.value].g + 1 else 0) == current.g + 1
      decreases if link.Some? then nodes[link.value].g + 1 else 0
    {
      var c := link.value;
      assert ClosedNodeOk(grid, start, nodes, c);
      if path != [] { WalkPrepend(grid, c, path, path[0], current.pos); }
      path := [c] + path;
      link := nodes[c].parent;
    }
  }

  /**
   * Once the open set is empty, the closed cells are closed under Step,
   * so every cell reachable from the start is closed.
   */
  lemma ExhaustedReachesAll(grid: Grid, start: Pos, nodes: map<Pos, PathNode>)
    requires CoverOk(grid, nodes, map[]) && start in nodes
    ensures forall w, c :: IsWalk(grid, w, start, c) ==> c in nodes
  {
    forall c, n | c in nodes && Step(grid, c, n) ensures n in nodes {
      NeighborsSpec(grid, c);
      assert CoveredFrom(grid, nodes, c, map[]);
    }
    forall w, c | IsWalk(grid, w, start, c) ensures c in nodes {
      WalkStaysIn(grid, w, start, c, nodes.Keys);
    }
  }

  /** The invariant of the search loop of lines 63-115. */
  ghost predicate SearchOk(grid: Grid, start: Pos, end: Pos, open: seq<PathNode>, om: map<Pos, PathNode>,
                           nodes: map<Pos, PathNode>, explored: seq<Pos>) {
    && OpenOk(grid, start, end, open, om, nodes)
    && NodesOk(grid, start, nodes) && OptimalOk(grid, start, nodes) && CoverOk(grid, nodes, om)
    && TraceOk(start, explored, nodes) && end !in nodes
    && (forall p :: p in nodes ==> p == start || Passable(grid, p))
    && (|nodes| == 0 ==> open == [StartNode(start, end)] && om == map[start := StartNode(start, end)])
  }

  /** Before the loop (lines 48-61) only the start is open, with g 0 and no parent. */
  lemma SearchStarts(grid: Grid, start: Pos, end: Pos)
    ensures SearchOk(grid, start, end, [StartNode(start, end)], map[start := StartNode(start, end)], map[], [])
  {
    assert OpenNodeOk(grid, start, end, StartNode(start, end), map[]);
  }

  /**
   * One pass of the search loop (lines 64-114): the node taken off the open
   * set is closed and reported; if it is the target the path is rebuilt
   * and the search is over (`found`), otherwise its neighbours are relaxed.
   */
  method Visit(grid: Grid, start: Pos, end: Pos, open0: seq<PathNode>, ghost om0: map<Pos, PathNode>,
               nodes0: map<Pos, PathNode>, explored0: seq<Pos>)
    returns (found: bool, path: seq<Pos>, open: seq<PathNode>, ghost om: map<Pos, PathNode>,
             nodes: map<Pos, PathNode>, explored: seq<Pos>)
    requires |grid| > 0 && |open0| > 0
    requires SearchOk(grid, start, end, open0, om0, nodes0, explored0)
    ensures |nodes| == |nodes0| + 1
    ensures !found ==> path == [] && SearchOk(grid, start, end, open, om, nodes, explored)
    ensures found ==> path != [] && Outcome(grid, start, end, path, explored)
  {
    var current;
    current, open, om, nodes, explored := Pop(grid, start, end, open0, om0, nodes0, explored0);

    if current.pos == end {
      found := true;
      path := Rebuild(grid, start, nodes, current);
      FoundIsShortest(grid, start, end, path, nodes);
      TraceFacts(grid, start, explored, nodes);
      if start == end {
        assert |explored0| == |nodes0|;
        assert |nodes0| == 0;
      }
      return;
    }
    found, path := false, [];
    open, om := Expand(grid, start, end, current, nodes, open, om);
  }

  /**
   * The open set ran empty without reaching the target (line 117): no walk
   * leads to it, and every cell a walk reaches from the start was reported.
   */
  lemma Exhausted(grid: Grid, start: Pos, end: Pos, om: map<Pos, PathNode>, nodes: map<Pos, PathNode>,
                  explored: seq<Pos>)
    requires |grid| > 0 && SearchOk(grid, start, end, [], om, nodes, explored)
    ensures Outcome(grid, start, end, [], explored)
  {
    assert |nodes| > 0;
    assert explored[|explored| - 1] in nodes;
    ExhaustedReachesAll(grid, start, nodes);
    TraceCovers(start, explored, nodes);
    TraceFacts(grid, start, explored, nodes);
  }

  /**
   * `findPathAStar`. `explored` is the sequence of cells passed to
   * `onExplore`, in call order.
   */
  method FindPathAStar(grid: Grid, start: Pos, end: Pos) returns (path: seq<Pos>, explored: seq<Pos>)
    requires |grid| > 0
    ensures Outcome(grid, start, end, path, explored)
  {
    var open := [StartNode(start, end)];
    var nodes: map<Pos, PathNode> := map[];
    ghost var om := map[start := StartNode(start, end)];
    explored := [];
    SearchStarts(grid, start, end);
    while |open| > 0
      invariant SearchOk(grid, start, end, open, om, nodes, explored)
      decreases |grid[0]| * |grid| + 1 - |nodes|
    {
      BoundedByCells(grid, start, nodes.Keys);
      var found;
      found, path, open, om, nodes, explored := Visit(grid, start, end, open, om, nodes, explored);
      if found {
        return;
      }
      BoundedByCells(grid, start, nodes.Keys);
    }
    path := [];
    Exhausted(grid, start, end, om, nodes, explored);
  }
}
