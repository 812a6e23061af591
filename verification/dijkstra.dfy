/**
 * `findPathDijkstra` of src/utils/pathfinding.ts:120-188: uniform-cost
 * search over the 4-connected grid with unit step cost, a `distances` map,
 * a `previous` map and an `unvisited` array sorted by g before each `shift`.
 *
 * The source keeps no closed set. With unit step costs the queue behaves
 * in layers: every recorded distance is at most one more than the g of the
 * entry just taken off the queue, so the relaxation test of line 171 never
 * replaces a recorded distance, every cell is queued at most once and so
 * is taken off the queue at most once. The ghost table `settled` holds the
 * entries taken off the queue so far, keyed by cell; `level` is the g of
 * the last one.
 */
module Dijkstra {
  import opened Wrappers
  import opened Geometry
  import opened Frontier

  function StartNode(start: Pos): PathNode {
    PathNode(start, 0, 0, 0, None)
  }

  /**
   * A queued entry as the search builds it (pathfinding.ts:130-135,
   * 175-180): h = 0, f = g, no parent, g the distance recorded for its
   * cell, and its cell not yet taken off the queue.
   */
  ghost predicate EntryOk(e: PathNode, dist: map<Pos, int>, settled: map<Pos, PathNode>) {
    && e.h == 0 && e.f == e.g && e.parent.None?
    && e.pos in dist && dist[e.pos] == e.g
    && e.pos !in settled
  }

  /** The `unvisited` array: well-formed entries, one per cell, mirrored by the ghost table `om`. */
  ghost predicate QueueOk(queue: seq<PathNode>, om: map<Pos, PathNode>, dist: map<Pos, int>,
                          settled: map<Pos, PathNode>) {
    && (forall e :: e in queue ==> EntryOk(e, dist, settled))
    && DistinctPos(queue)
    && (forall e :: e in queue ==> e.pos in om && om[e.pos] == e)
    && (forall p :: p in om ==> exists e :: e in queue && e.pos == p)
  }

  /**
   * The record of one cell in `distances` and `previous`: a non-negative
   * distance; the cell is the start or free; and either it has a
   * predecessor one Step away whose distance is one less, or it is the
   * start.
   */
  ghost predicate RecordOk(grid: Grid, start: Pos, dist: map<Pos, int>, previous: map<Pos, Pos>, p: Pos)
    requires p in dist
  {
    && dist[p] >= 0
    && (p == start || Passable(grid, p))
    && if p in previous then
         previous[p] in dist && dist[previous[p]] + 1 == dist[p] && Step(grid, previous[p], p)
       else p == start
  }

  /** The start keeps distance 0 and every recorded cell is well formed. */
  ghost predicate RecordsOk(grid: Grid, start: Pos, dist: map<Pos, int>, previous: map<Pos, Pos>) {
    && start in dist && dist[start] == 0
    && forall p {:trigger RecordOk(grid, start, dist, previous, p)} ::
         p in dist ==> RecordOk(grid, start, dist, previous, p)
  }

  /** Every cell with a distance has been taken off the queue or is still queued. */
  ghost predicate Accounted(dist: map<Pos, int>, settled: map<Pos, PathNode>, om: map<Pos, PathNode>) {
    forall p :: p in dist ==> p in settled || p in om
  }

  /** The entries taken off the queue carry their cell's recorded distance. */
  ghost predicate SettledOk(settled: map<Pos, PathNode>, dist: map<Pos, int>) {
    forall c :: c in settled ==> settled[c].pos == c && c in dist && dist[c] == settled[c].g
  }

  /** The layer property: no distance exceeds `level` + 1 and no queued g is below `level`. */
  ghost predicate LevelOk(level: int, dist: map<Pos, int>, queue: seq<PathNode>) {
    && (forall p :: p in dist ==> dist[p] <= level + 1)
    && (forall e :: e in queue ==> level <= e.g)
  }

  /** Every neighbour of settled cell `c` has a distance at most one more than c's. */
  ghost predicate CoveredFrom(grid: Grid, dist: map<Pos, int>, settled: map<Pos, PathNode>, c: Pos)
    requires c in settled
  {
    forall n :: n in Neighbors(grid, c) ==> n in dist && dist[n] <= settled[c].g + 1
  }

  ghost predicate CoverOk(grid: Grid, dist: map<Pos, int>, settled: map<Pos, PathNode>) {
    forall c :: c in settled ==> CoveredFrom(grid, dist, settled, c)
  }

  /**
   * The entry taken off the queue has the least g, so its g is no longer
   * than any walk from the start to its cell: such a walk leaves the
   * settled cells somewhere, and the cell where it leaves is queued with a
   * distance no greater than the length of the walk up to it.
   */
  lemma PopIsOptimal(grid: Grid, start: Pos, queue: seq<PathNode>, om: map<Pos, PathNode>,
                     dist: map<Pos, int>, settled: map<Pos, PathNode>, current: PathNode, w: seq<Pos>)
    requires QueueOk(queue, om, dist, settled)
    requires Accounted(dist, settled, om) && SettledOk(settled, dist)
    requires OptimalOk(grid, start, settled) && CoverOk(grid, dist, settled)
    requires start in settled || current.g == 0
    requires current in queue && forall e :: e in queue ==> current.g <= e.g
    requires IsWalk(grid, w, start, current.pos)
    ensures current.g <= |w| - 1
  {
    if current.g != 0 {
      assert EntryOk(current, dist, settled);
      var i := ExitIndex(grid, w, start, current.pos, settled.Keys);
      var c, n := w[i - 1], w[i];
      WalkPrefix(grid, w, start, current.pos, i);
      assert settled[c].g <= i - 1;
      NeighborsSpec(grid, c);
      assert n in Neighbors(grid, c);
      assert CoveredFrom(grid, dist, settled, c);
      assert n in dist && dist[n] <= i;
      assert n in om;
      var e :| e in queue && e.pos == n;
      assert EntryOk(e, dist, settled);
    }
  }

  /** Settling the popped entry keeps every settled g optimal. */
  lemma PopOptimal(grid: Grid, start: Pos, queue: seq<PathNode>, om: map<Pos, PathNode>,
                   dist: map<Pos, int>, settled: map<Pos, PathNode>, current: PathNode)
    requires QueueOk(queue, om, dist, settled)
    requires Accounted(dist, settled, om) && SettledOk(settled, dist)
    requires OptimalOk(grid, start, settled) && CoverOk(grid, dist, settled)
    requires start in settled || current.g == 0
    requires current in queue && forall e :: e in queue ==> current.g <= e.g
    ensures OptimalOk(grid, start, settled[current.pos := current])
  {
    var settled' := settled[current.pos := current];
    forall c, w | c in settled' && IsWalk(grid, w, start, c) ensures settled'[c].g <= |w| - 1 {
      if c == current.pos {
        PopIsOptimal(grid, start, queue, om, dist, settled, current, w);
      } else {
        assert c in settled;
      }
    }
  }

  /** Shifting the head off the sorted queue and settling it keeps the queue well formed. */
  lemma PopQueue(queue: seq<PathNode>, om: map<Pos, PathNode>, dist: map<Pos, int>,
                 settled: map<Pos, PathNode>)
    requires QueueOk(queue, om, dist, settled) && |queue| > 0
    ensures var current := SortBy(queue, ByG)[0];
      QueueOk(SortBy(queue, ByG)[1..], om - {current.pos}, dist, settled[current.pos := current])
  {
    PopHead(queue, ByG);
    PopRest(queue, ByG);
    var sorted := SortBy(queue, ByG);
    var current := sorted[0];
    var rest, om', settled' := sorted[1..], om - {current.pos}, settled[current.pos := current];
    forall e | e in rest ensures EntryOk(e, dist, settled') {
      assert EntryOk(e, dist, settled);
    }
    forall e | e in rest ensures e.pos in om' && om'[e.pos] == e {
      assert e in queue;
    }
    forall p | p in om' ensures exists e :: e in rest && e.pos == p {
      var e :| e in queue && e.pos == p;
      assert e in rest;
    }
    assert DistinctPos(rest);
    assert QueueOk(rest, om', dist, settled');
  }

  /**
   * Settling the head of the sorted queue keeps every distance accounted
   * for and sets the level to the head's g.
   */
  lemma PopBook(queue: seq<PathNode>, om: map<Pos, PathNode>, dist: map<Pos, int>,
                settled: map<Pos, PathNode>, level: int)
    requires QueueOk(queue, om, dist, settled) && |queue| > 0
    requires Accounted(dist, settled, om) && SettledOk(settled, dist) && LevelOk(level, dist, queue)
    ensures var current := SortBy(queue, ByG)[0];
      var settled' := settled[current.pos := current];
      && Accounted(dist, settled', om - {current.pos})
      && SettledOk(settled', dist)
      && LevelOk(current.g, dist, SortBy(queue, ByG)[1..])
  {
    PopHead(queue, ByG);
    PopRest(queue, ByG);
    var sorted := SortBy(queue, ByG);
    var current := sorted[0];
    var settled', om' := settled[current.pos := current], om - {current.pos};
    assert EntryOk(current, dist, settled);
    assert level <= current.g;
    forall p | p in dist ensures p in settled' || p in om' {
      if p != current.pos { assert p in settled || p in om; }
    }
  }

  /** Settling a cell keeps the coverage of the other settled cells' neighbours. */
  lemma PopCovered(grid: Grid, current: PathNode, dist: map<Pos, int>, settled: map<Pos, PathNode>)
    requires CoverOk(grid, dist, settled) && current.pos !in settled
    ensures var settled' := settled[current.pos := current];
      forall c :: c in settled' && c != current.pos ==> CoveredFrom(grid, dist, settled', c)
  {
    var settled' := settled[current.pos := current];
    forall c | c in settled' && c != current.pos ensures CoveredFrom(grid, dist, settled', c) {
      assert CoveredFrom(grid, dist, settled, c);
    }
  }

  /** Settling the head of the sorted queue keeps every invariant of the search but the head's own coverage. */
  lemma PopKeeps(grid: Grid, start: Pos, queue0: seq<PathNode>, om0: map<Pos, PathNode>,
                 settled0: map<Pos, PathNode>, level0: int, dist: map<Pos, int>, explored0: seq<Pos>)
    requires |queue0| > 0
    requires QueueOk(queue0, om0, dist, settled0)
    requires Accounted(dist, settled0, om0) && SettledOk(settled0, dist)
    requires OptimalOk(grid, start, settled0) && CoverOk(grid, dist, settled0)
    requires LevelOk(level0, dist, queue0)
    requires TraceOk(start, explored0, settled0)
    requires |settled0| == 0 ==> queue0 == [StartNode(start)]
    ensures var current := SortBy(queue0, ByG)[0];
      var queue, om, settled := SortBy(queue0, ByG)[1..], om0 - {current.pos}, settled0[current.pos := current];
      && QueueOk(queue, om, dist, settled)
      && Accounted(dist, settled, om) && SettledOk(settled, dist)
      && OptimalOk(grid, start, settled)
      && (forall c :: c in settled && c != current.pos ==> CoveredFrom(grid, dist, settled, c))
      && LevelOk(current.g, dist, queue)
      && TraceOk(start, explored0 + [current.pos], settled)
      && (current.pos == start ==> explored0 == [])
  {
    PopHead(queue0, ByG);
    var current := SortBy(queue0, ByG)[0];
    assert EntryOk(current, dist, settled0);
    PopQueue(queue0, om0, dist, settled0);
    PopBook(queue0, om0, dist, settled0, level0);
    PopOptimal(grid, start, queue0, om0, dist, settled0, current);
    PopCovered(grid, current, dist, settled0);
    PopTrace(start, explored0, settled0, current);
  }

  /**
   * Lines 142-146: sort the queue by g, shift its head and report it to
   * `onExplore`. The head's cell has not been taken off the queue before.
   */
  method Pop(grid: Grid, start: Pos, queue0: seq<PathNode>, ghost om0: map<Pos, PathNode>,
             ghost settled0: map<Pos, PathNode>, ghost level0: int, dist: map<Pos, int>,
             explored0: seq<Pos>)
    returns (current: PathNode, queue: seq<PathNode>, ghost om: map<Pos, PathNode>,
             ghost settled: map<Pos, PathNode>, explored: seq<Pos>)
    requires |queue0| > 0
    requires QueueOk(queue0, om0, dist, settled0)
    requires Accounted(dist, settled0, om0) && SettledOk(settled0, dist)
    requires OptimalOk(grid, start, settled0) && CoverOk(grid, dist, settled0)
    requires LevelOk(level0, dist, queue0)
    requires TraceOk(start, explored0, settled0)
    requires |settled0| == 0 ==> queue0 == [StartNode(start)]
    ensures current in queue0 && forall e :: e in queue0 ==> current.g <= e.g
    ensures current == queue0[FirstMin(queue0, ByG)]
    ensures queue == SortBy(queue0, ByG)[1..] && om == om0 - {current.pos}
    ensures settled == settled0[current.pos := current] && explored == explored0 + [current.pos]
    ensures current.pos !in settled0 && |settled| == |settled0| + 1
    ensures forall p :: p in settled <==> p in settled0 || p == current.pos
    ensures current.pos in settled && settled[current.pos] == current
    ensures current.pos in dist && dist[current.pos] == current.g
    ensures |explored| > 0 && explored[|explored| - 1] == current.pos
    ensures |settled0| == 0 ==> current == StartNode(start)
    ensures current.pos == start ==> explored == [start]
    ensures QueueOk(queue, om, dist, settled)
    ensures Accounted(dist, settled, om) && SettledOk(settled, dist)
    ensures OptimalOk(grid, start, settled)
    ensures forall c :: c in settled && c != current.pos ==> CoveredFrom(grid, dist, settled, c)
    ensures LevelOk(current.g, dist, queue)
    ensures TraceOk(start, explored, settled)
  {
    PopHead(queue0, ByG);
    SortHeadIsFirstMin(queue0, ByG);
    var sorted := SortBy(queue0, ByG);
    current := sorted[0];
    queue := sorted[1..];
    assert EntryOk(current, dist, settled0);
    PopKeeps(grid, start, queue0, om0, settled0, level0, dist, explored0);
    settled := settled0[current.pos := current];
    om := om0 - {current.pos};
    explored := explored0 + [current.pos];
  }

  /**
   * Recording a distance for a cell with none, and queueing an entry for
   * it (lines 172-182), keeps the queue, the records and the layer
   * property.
   */
  lemma Record(grid: Grid, start: Pos, current: PathNode, queue: seq<PathNode>, om: map<Pos, PathNode>,
               dist: map<Pos, int>, previous: map<Pos, Pos>, settled: map<Pos, PathNode>, neighbor: Pos)
    requires current.pos in dist && dist[current.pos] == current.g
    requires Step(grid, current.pos, neighbor) && neighbor !in dist
    requires QueueOk(queue, om, dist, settled) && RecordsOk(grid, start, dist, previous)
    requires SettledOk(settled, dist) && LevelOk(current.g, dist, queue)
    ensures var node := PathNode(neighbor, current.g + 1, 0, current.g + 1, None);
      var dist', previous' := dist[neighbor := current.g + 1], previous[neighbor := current.pos];
      && QueueOk(queue + [node], om[neighbor := node], dist', settled)
      && RecordsOk(grid, start, dist', previous')
      && LevelOk(current.g, dist', queue + [node])
  {
    var node := PathNode(neighbor, current.g + 1, 0, current.g + 1, None);
    var dist', previous' := dist[neighbor := current.g + 1], previous[neighbor := current.pos];
    forall e | e in queue ensures EntryOk(e, dist', settled) {
      assert EntryOk(e, dist, settled);
    }
    forall i | 0 <= i < |queue| ensures queue[i].pos != neighbor {
      assert EntryOk(queue[i], dist, settled);
    }
    AppendFacts(queue, node);
    var om' := om[neighbor := node];
    forall p | p in om' ensures exists e :: e in queue + [node] && e.pos == p {
      if p != neighbor {
        var e :| e in queue && e.pos == p;
        assert e in queue + [node];
      } else {
        assert node in queue + [node];
      }
    }
    assert QueueOk(queue + [node], om', dist', settled);
    forall p | p in dist' ensures RecordOk(grid, start, dist', previous', p) {
      if p != neighbor {
        assert RecordOk(grid, start, dist, previous, p);
      }
    }
  }

  /**
   * One pass of the neighbour loop (lines 166-183). The new distance is
   * one more than the current entry's; a recorded distance is never larger
   * than that, so only a cell with no distance is recorded and queued, and
   * a recorded cell keeps its distance and its predecessor.
   */
  method Relax(grid: Grid, start: Pos, current: PathNode, ghost settled: map<Pos, PathNode>,
               dist0: map<Pos, int>, previous0: map<Pos, Pos>, queue0: seq<PathNode>,
               ghost om0: map<Pos, PathNode>, neighbor: Pos)
    returns (dist: map<Pos, int>, previous: map<Pos, Pos>, queue: seq<PathNode>, ghost om: map<Pos, PathNode>)
    requires current.pos in settled && settled[current.pos] == current
    requires Step(grid, current.pos, neighbor)
    requires QueueOk(queue0, om0, dist0, settled) && RecordsOk(grid, start, dist0, previous0)
    requires Accounted(dist0, settled, om0) && SettledOk(settled, dist0)
    requires LevelOk(current.g, dist0, queue0)
    ensures QueueOk(queue, om, dist, settled) && RecordsOk(grid, start, dist, previous)
    ensures Accounted(dist, settled, om) && SettledOk(settled, dist)
    ensures LevelOk(current.g, dist, queue)
    ensures forall p :: p in dist0 ==> p in dist && dist[p] == dist0[p]
    ensures neighbor in dist && dist[neighbor] <= current.g + 1
    // A recorded neighbour already has distance at most g + 1, so the test of line 171 fails.
    ensures neighbor in dist0 ==>
      && dist0[neighbor] <= current.g + 1
      && dist == dist0 && previous == previous0 && queue == queue0 && om == om0
    // A fresh neighbour gets distance g + 1, the current cell as predecessor, and a node at the back of the queue.
    ensures neighbor !in dist0 ==>
      && dist == dist0[neighbor := current.g + 1]
      && previous == previous0[neighbor := current.pos]
      && queue == queue0 + [PathNode(neighbor, current.g + 1, 0, current.g + 1, None)]
  {
    dist, previous, queue, om := dist0, previous0, queue0, om0;
    var newDistance := current.g + 1;
    if neighbor !in dist || newDistance < dist[neighbor] {
      // A recorded distance is never replaced.
      assert neighbor !in dist;
      Record(grid, start, current, queue, om, dist, previous, settled, neighbor);
      var neighborNode := PathNode(neighbor, newDistance, 0, newDistance, None);
      dist := dist[neighbor := newDistance];
      previous := previous[neighbor := current.pos];
      queue := queue + [neighborNode];
      om := om[neighbor := neighborNode];
    }
  }

  /**
   * The neighbour loop of lines 165-184 for the entry just taken off the
   * queue: afterwards every neighbour of every settled cell has a distance
   * at most one more than that cell's, and no recorded distance changed.
   */
  method Expand(grid: Grid, start: Pos, current: PathNode, ghost settled: map<Pos, PathNode>,
                dist0: map<Pos, int>, previous0: map<Pos, Pos>, queue0: seq<PathNode>,
                ghost om0: map<Pos, PathNode>)
    returns (dist: map<Pos, int>, previous: map<Pos, Pos>, queue: seq<PathNode>, ghost om: map<Pos, PathNode>)
    requires |grid| > 0
    requires current.pos in settled && settled[current.pos] == current
    requires QueueOk(queue0, om0, dist0, settled) && RecordsOk(grid, start, dist0, previous0)
    requires Accounted(dist0, settled, om0) && SettledOk(settled, dist0)
    requires LevelOk(current.g, dist0, queue0)
    requires forall c :: c in settled && c != current.pos ==> CoveredFrom(grid, dist0, settled, c)
    ensures QueueOk(queue, om, dist, settled) && RecordsOk(grid, start, dist, previous)
    ensures Accounted(dist, settled, om) && SettledOk(settled, dist)
    ensures LevelOk(current.g, dist, queue)
    ensures forall p :: p in dist0 ==> p in dist && dist[p] == dist0[p]
    ensures CoverOk(grid, dist, settled)
  {
    var neighbors := GetNeighbors(current.pos, grid);
    forall i | 0 <= i < |neighbors| ensures Step(grid, current.pos, neighbors[i]) {
      NeighborStep(grid, current.pos, i);
    }
    dist, previous, queue, om := RelaxAll(grid, start, current, settled, dist0, previous0, queue0, om0, neighbors);
    ExpandCovers(grid, current, dist0, dist, settled);
  }

  /** The loop itself, over the neighbours `getNeighbors` listed. */
  method RelaxAll(grid: Grid, start: Pos, current: PathNode, ghost settled: map<Pos, PathNode>,
                  dist0: map<Pos, int>, previous0: map<Pos, Pos>, queue0: seq<PathNode>,
                  ghost om0: map<Pos, PathNode>, neighbors: seq<Pos>)
    returns (dist: map<Pos, int>, previous: map<Pos, Pos>, queue: seq<PathNode>, ghost om: map<Pos, PathNode>)
    requires current.pos in settled && settled[current.pos] == current
    requires forall i :: 0 <= i < |neighbors| ==> Step(grid, current.pos, neighbors[i])
    requires QueueOk(queue0, om0, dist0, settled) && RecordsOk(grid, start, dist0, previous0)
    requires Accounted(dist0, settled, om0) && SettledOk(settled, dist0)
    requires LevelOk(current.g, dist0, queue0)
    ensures QueueOk(queue, om, dist, settled) && RecordsOk(grid, start, dist, previous)
    ensures Accounted(dist, settled, om) && SettledOk(settled, dist)
    ensures LevelOk(current.g, dist, queue)
    ensures forall p :: p in dist0 ==> p in dist && dist[p] == dist0[p]
    ensures forall i :: 0 <= i < |neighbors| ==> neighbors[i] in dist && dist[neighbors[i]] <= current.g + 1
  {
    dist, previous, queue, om := dist0, previous0, queue0, om0;
    for k := 0 to |neighbors|
      invariant QueueOk(queue, om, dist, settled) && RecordsOk(grid, start, dist, previous)
      invariant Accounted(dist, settled, om) && SettledOk(settled, dist)
      invariant LevelOk(current.g, dist, queue)
      invariant forall p :: p in dist0 ==> p in dist && dist[p] == dist0[p]
      invariant forall i :: 0 <= i < k ==> neighbors[i] in dist && dist[neighbors[i]] <= current.g + 1
    {
      ghost var dist1 := dist;
      dist, previous, queue, om := Relax(grid, start, current, settled, dist, previous, queue, om, neighbors[k]);
      forall p | p in dist0 ensures p in dist && dist[p] == dist0[p] {
        assert p in dist1;
      }
      forall i | 0 <= i < k + 1 ensures neighbors[i] in dist && dist[neighbors[i]] <= current.g + 1 {
        if i < k { assert neighbors[i] in dist1; }
      }
    }
  }

  /** After the neighbour loop, every settled cell's neighbours are covered again. */
  lemma ExpandCovers(grid: Grid, current: PathNode, dist0: map<Pos, int>, dist: map<Pos, int>,
                     settled: map<Pos, PathNode>)
    requires current.pos in settled && settled[current.pos] == current
    requires forall c :: c in settled && c != current.pos ==> CoveredFrom(grid, dist0, settled, c)
    requires forall p :: p in dist0 ==> p in dist && dist[p] == dist0[p]
    requires var ns := Neighbors(grid, current.pos);
      forall i :: 0 <= i < |ns| ==> ns[i] in dist && dist[ns[i]] <= current.g + 1
    ensures CoverOk(grid, dist, settled)
  {
    forall c | c in settled ensures CoveredFrom(grid, dist, settled, c) {
      if c != current.pos {
        assert CoveredFrom(grid, dist0, settled, c);
      } else {
        forall n | n in Neighbors(grid, c) ensures n in dist && dist[n] <= settled[c].g + 1 {
          var ns := Neighbors(grid, c);
          var i :| 0 <= i < |ns| && ns[i] == n;
        }
      }
    }
  }

  /**
   * Rebuilding the path backwards from the target through `previous`
   * (lines 150-161): the distance falls by one per link, so the loop ends,
   * and the result is a walk from the start of length distance + 1. When
   * the link reached is the start, the start is put in front and the loop
   * stops; a cell with no link is the start itself.
   */
  method Rebuild(grid: Grid, start: Pos, end: Pos, dist: map<Pos, int>, previous: map<Pos, Pos>)
    returns (path: seq<Pos>)
    requires RecordsOk(grid, start, dist, previous) && end in dist
    ensures IsWalk(grid, path, start, end)
    ensures |path| == dist[end] + 1
  {
    var pos := end;
    path := [];
    assert RecordOk(grid, start, dist, previous, pos);
    while true
      invariant pos in dist && dist[pos] >= 0
      invariant path == [] ==> pos == end
      invariant path != [] ==> IsWalk(grid, path, path[0], end) && Step(grid, pos, path[0])
      invariant |path| + dist[pos] == dist[end]
      decreases dist[pos]
    {
      assert RecordOk(grid, start, dist, previous, pos);
      if path != [] { WalkPrepend(grid, pos, path, path[0], end); }
      path := [pos] + path;
      if pos !in previous || previous[pos] == start {
        if pos in previous {
          WalkPrepend(grid, start, path, pos, end);
          path := [start] + path;
        }
        break;
      }
      pos := previous[pos];
      assert RecordOk(grid, start, dist, previous, pos);
    }
  }

  /**
   * Once the queue is empty, every cell with a distance is settled and the
   * settled cells are closed under Step, so every cell reachable from the
   * start is settled.
   */
  lemma ExhaustedReachesAll(grid: Grid, start: Pos, dist: map<Pos, int>, settled: map<Pos, PathNode>)
    requires CoverOk(grid, dist, settled) && Accounted(dist, settled, map[]) && start in settled
    ensures forall w, c :: IsWalk(grid, w, start, c) ==> c in settled
  {
    forall c, n | c in settled && Step(grid, c, n) ensures n in settled {
      NeighborsSpec(grid, c);
      assert CoveredFrom(grid, dist, settled, c);
    }
    forall w, c | IsWalk(grid, w, start, c) ensures c in settled {
      WalkStaysIn(grid, w, start, c, settled.Keys);
    }
  }

  /** The invariant of the search loop of lines 140-185. */
  ghost predicate SearchOk(grid: Grid, start: Pos, end: Pos, unvisited: seq<PathNode>, om: map<Pos, PathNode>,
                           distances: map<Pos, int>, previous: map<Pos, Pos>, settled: map<Pos, PathNode>,
                           level: int, explored: seq<Pos>) {
    && QueueOk(unvisited, om, distances, settled) && RecordsOk(grid, start, distances, previous)
    && Accounted(distances, settled, om) && SettledOk(settled, distances)
    && LevelOk(level, distances, unvisited)
    && OptimalOk(grid, start, settled) && CoverOk(grid, distances, settled)
    && TraceOk(start, explored, settled) && end !in settled
    && (forall p :: p in settled ==> p == start || Passable(grid, p))
    && (|settled| == 0 ==> unvisited == [StartNode(start)])
  }

  /** Before the loop (lines 126-138) only the start is queued, at distance 0. */
  lemma SearchStarts(grid: Grid, start: Pos, end: Pos)
    ensures SearchOk(grid, start, end, [StartNode(start)], map[start := StartNode(start)], map[start := 0], map[],
                     map[], 0, [])
  {
    assert RecordOk(grid, start, map[start := 0], map[], start);
  }

  /**
   * One pass of the search loop (lines 141-184): the entry taken off the
   * queue is reported; if it is the target the path is rebuilt and the
   * search is over (`found`), otherwise its neighbours are relaxed.
   */
  method Visit(grid: Grid, start: Pos, end: Pos, unvisited0: seq<PathNode>, ghost om0: map<Pos, PathNode>,
               distances0: map<Pos, int>, previous0: map<Pos, Pos>, ghost settled0: map<Pos, PathNode>,
               ghost level0: int, explored0: seq<Pos>)
    returns (found: bool, path: seq<Pos>, unvisited: seq<PathNode>, ghost om: map<Pos, PathNode>,
             distances: map<Pos, int>, previous: map<Pos, Pos>, ghost settled: map<Pos, PathNode>,
             ghost level: int, explored: seq<Pos>)
    requires |grid| > 0 && |unvisited0| > 0
    requires SearchOk(grid, start, end, unvisited0, om0, distances0, previous0, settled0, level0, explored0)
    ensures |settled| == |settled0| + 1
    ensures !found ==> path == [] && SearchOk(grid, start, end, unvisited, om, distances, previous, settled, level, explored)
    ensures !found ==> forall p :: p in settled ==> p == start || Passable(grid, p)
    ensures found ==> path != [] && Outcome(grid, start, end, path, explored)
  {
    var current;
    current, unvisited, om, settled, explored := Pop(grid, start, unvisited0, om0, settled0, level0, distances0, explored0);
    level := current.g;
    distances, previous := distances0, previous0;
    assert RecordOk(grid, start, distances, previous, current.pos);

    if current.pos == end {
      found := true;
      path := Rebuild(grid, start, end, distances, previous);
      FoundIsShortest(grid, start, end, path, settled);
      TraceFacts(grid, start, explored, settled);
      return;
    }
    found, path := false, [];
    distances, previous, unvisited, om := Expand(grid, start, current, settled, distances, previous, unvisited, om);
  }

  /**
   * The queue ran empty without reaching the target (line 187): no walk
   * leads to it, and every cell a walk reaches from the start was reported.
   */
  lemma Exhausted(grid: Grid, start: Pos, end: Pos, om: map<Pos, PathNode>, distances: map<Pos, int>,
                  previous: map<Pos, Pos>, settled: map<Pos, PathNode>, level: int, explored: seq<Pos>)
    requires |grid| > 0 && SearchOk(grid, start, end, [], om, distances, previous, settled, level, explored)
    ensures Outcome(grid, start, end, [], explored)
  {
    assert |settled| > 0;
    assert explored[|explored| - 1] in settled;
    ExhaustedReachesAll(grid, start, distances, settled);
    TraceCovers(start, explored, settled);
    TraceFacts(grid, start, explored, settled);
  }

  /**
   * `findPathDijkstra`. `explored` is the sequence of cells passed to
   * `onExplore`, in call order.
   */
  method FindPathDijkstra(grid: Grid, start: Pos, end: Pos) returns (path: seq<Pos>, explored: seq<Pos>)
    requires |grid| > 0
    ensures Outcome(grid, start, end, path, explored)
  {
    var unvisited := [StartNode(start)];
    var distances := map[start := 0];
    var previous: map<Pos, Pos> := map[];
    ghost var om := map[start := StartNode(start)];
    ghost var settled: map<Pos, PathNode> := map[];
    ghost var level := 0;
    explored := [];
    SearchStarts(grid, start, end);
    while |unvisited| > 0
      invariant SearchOk(grid, start, end, unvisited, om, distances, previous, settled, level, explored)
      decreases |grid[0]| * |grid| + 1 - |settled|
    {
      BoundedByCells(grid, start, settled.Keys);
      var found;
      found, path, unvisited, om, distances, previous, settled, level, explored :=
        Visit(grid, start, end, unvisited, om, distances, previous, settled, level, explored);
      if found {
        return;
      }
      BoundedByCells(grid, start, settled.Keys);
    }
    path := [];
    Exhausted(grid, start, end, om, distances, previous, settled, level, explored);
  }
}
