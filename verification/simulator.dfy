/**
 * The mission state of the page component in src/pages/Index.tsx as a
 * class: the grid edits (`handleCellClick`, `randomizeGrid`), the reset
 * (`resetSimulation`) and `simulateFlight`, split into its launch (lines
 * 173-237) and one pass of its flight loop (lines 239-302).
 *
 * Each `useState` hook is a field. The grid is a 20 x 20 array edited in
 * place. What the flight loop's closure captured when it was launched
 * (the grid, the target, the search, the dynamic-mode flag, the pause
 * flag and the obstacle list) is kept in `flight`, apart from the fields
 * the page goes on updating.
 */
module Simulation {
  import opened Wrappers
  import opened Geometry
  import opened Obstacles
  import AStar
  import Dijkstra

  datatype Algorithm = AStarSearch | DijkstraSearch

  datatype PlacementMode = StartMode | EndMode | ObstacleMode

  /** The statistics panel; `timeTaken` is wall-clock time and is left out. */
  datatype Stats = Stats(pathLength: int, explored: int, obstacles: int)

  /**
   * The flight loop of `simulateFlight`: idle, or running over `route`
   * with `index` the drone's place on it (`currentPath`,
   * `currentPathIndex`). `grid`, `target`, `algorithm`, `dynamic`,
   * `paused` and `observed` are the values the loop's closure read when
   * `simulateFlight` was called: the grid array, `end`, the selected
   * search, `dynamicMode`, `isPaused` and `movingObstacles`. The state
   * updates the launch makes are not seen by the closure, so `observed`
   * is the obstacle list from before the launch.
   */
  datatype Flight =
    | Idle
    | Flying(grid: array2<int>, target: Pos, algorithm: Algorithm, dynamic: bool, paused: bool,
             observed: seq<MovingObstacle>, route: seq<Pos>, index: int)

  predicate InPage(p: Pos) {
    0 <= p.x < GridSize && 0 <= p.y < GridSize
  }

  /** The grid array as the row-major `number[][]` the searches take. */
  function Rows(a: array2<int>): (g: Grid)
    reads a
    ensures |g| == a.Length0
    ensures forall y :: 0 <= y < |g| ==> |g[y]| == a.Length1
  {
    seq(a.Length0, y requires 0 <= y < a.Length0 reads a =>
      seq(a.Length1, x requires 0 <= x < a.Length1 reads a => a[y, x]))
  }

  function Bit(v: int): int {
    if v == 1 then 1 else 0
  }

  /** The number of 1s in a row. */
  function RowOnes(row: seq<int>): nat {
    if row == [] then 0 else Bit(row[0]) + RowOnes(row[1..])
  }

  /** `grid.flat().filter(cell => cell === 1).length` (line 153). */
  function Ones(g: Grid): nat {
    if g == [] then 0 else RowOnes(g[0]) + Ones(g[1..])
  }

  lemma {:induction false} RowOnesUpdate(row: seq<int>, x: int, v: int)
    requires 0 <= x < |row|
    ensures RowOnes(row[x := v]) == RowOnes(row) - Bit(row[x]) + Bit(v)
  {
    if x > 0 {
      RowOnesUpdate(row[1..], x - 1, v);
      assert row[x := v][1..] == row[1..][x - 1 := v];
    }
  }

  /** Changing one cell changes the count of 1s by that cell's change alone. */
  lemma {:induction false} OnesUpdate(g: Grid, y: int, x: int, v: int)
    requires 0 <= y < |g| && 0 <= x < |g[y]|
    ensures Ones(g[y := g[y][x := v]]) == Ones(g) - Bit(g[y][x]) + Bit(v)
  {
    if y == 0 {
      RowOnesUpdate(g[0], x, v);
      assert g[0 := g[0][x := v]][1..] == g[1..];
    } else {
      OnesUpdate(g[1..], y - 1, x, v);
      assert g[y := g[y][x := v]][1..] == g[1..][y - 1 := g[y][x := v]];
    }
  }

  lemma {:induction false} RowOnesZero(row: seq<int>)
    requires forall x :: 0 <= x < |row| ==> row[x] == 0
    ensures RowOnes(row) == 0
  {
    if row != [] {
      RowOnesZero(row[1..]);
    }
  }

  /** A grid of zeros holds no 1s. */
  lemma {:induction false} OnesZero(g: Grid)
    requires forall y, x :: 0 <= y < |g| && 0 <= x < |g[y]| ==> g[y][x] == 0
    ensures Ones(g) == 0
  {
    if g != [] {
      RowOnesZero(g[0]);
      OnesZero(g[1..]);
    }
  }

  lemma RowsCells(a: array2<int>)
    ensures forall y, x :: 0 <= y < a.Length0 && 0 <= x < a.Length1 ==> Rows(a)[y][x] == a[y, x]
  {
  }

  /** After one cell of `a` is written, its count of 1s differs from `before`'s by that cell alone. */
  lemma OnesAfterWrite(a: array2<int>, before: Grid, y: int, x: int)
    requires 0 <= y < a.Length0 && 0 <= x < a.Length1
    requires |before| == a.Length0 && forall i :: 0 <= i < |before| ==> |before[i]| == a.Length1
    requires forall i, j :: 0 <= i < a.Length0 && 0 <= j < a.Length1 && (i != y || j != x) ==>
      a[i, j] == before[i][j]
    ensures Ones(Rows(a)) == Ones(before) - Bit(before[y][x]) + Bit(a[y, x])
  {
    var after := Rows(a);
    assert after == before[y := before[y][x := a[y, x]]] by {
      forall i | 0 <= i < a.Length0 ensures after[i] == before[y := before[y][x := a[y, x]]][i] {
        if i == y {
          forall j | 0 <= j < a.Length1 ensures after[i][j] == before[y][x := a[y, x]][j] {
          }
        }
      }
    }
    OnesUpdate(before, y, x, a[y, x]);
  }

  /**
   * `pathFinder` (line 199): the search the page selected. A non-empty
   * result is a shortest walk from `start` to `end`; it is empty exactly
   * when there is none. `explored` is what `onExplore` collected.
   */
  method FindPath(algorithm: Algorithm, grid: Grid, start: Pos, end: Pos) returns (path: seq<Pos>, explored: seq<Pos>)
    requires |grid| > 0
    ensures path != [] ==> ShortestWalk(grid, path, start, end)
    ensures path == [] <==> !Reachable(grid, start, end)
    ensures |explored| > 0 && explored[0] == start && Distinct(explored)
    ensures |explored| <= |grid[0]| * |grid| + 1
  {
    match algorithm
    case AStarSearch => path, explored := AStar.FindPathAStar(grid, start, end);
    case DijkstraSearch => path, explored := Dijkstra.FindPathDijkstra(grid, start, end);
  }

  /**
   * The grid `randomizeGrid` draws (lines 144-150): 1 where `draws` says
   * so, except that the start and end cells are 0.
   */
  method DrawGrid(draws: seq<seq<bool>>, start: Option<Pos>, end: Option<Pos>) returns (a: array2<int>)
    requires |draws| == GridSize && forall y :: 0 <= y < GridSize ==> |draws[y]| == GridSize
    requires start.Some? ==> InPage(start.value)
    requires end.Some? ==> InPage(end.value)
    ensures fresh(a) && a.Length0 == GridSize && a.Length1 == GridSize
    ensures start.Some? ==> a[start.value.y, start.value.x] == 0
    ensures end.Some? ==> a[end.value.y, end.value.x] == 0
    ensures forall y, x ::
      (0 <= y < GridSize && 0 <= x < GridSize
       && !(start.Some? && Pos(x, y) == start.value) && !(end.Some? && Pos(x, y) == end.value)) ==>
      a[y, x] == (if draws[y][x] then 1 else 0)
  {
    a := new int[GridSize, GridSize]((y, x) requires 0 <= y < GridSize && 0 <= x < GridSize =>
      if draws[y][x] then 1 else 0);
    if start.Some? {
      a[start.value.y, start.value.x] := 0;
    }
    if end.Some? {
      a[end.value.y, end.value.x] := 0;
    }
  }

  /** A flight runs on a 20 x 20 grid from a non-negative index. */
  predicate FlightOk(f: Flight) {
    f.Flying? ==> f.grid.Length0 == GridSize && f.grid.Length1 == GridSize && 0 <= f.index
  }

  /** The flight loop's body runs: the loop test holds, and the flight is neither stopped nor paused. */
  predicate Steps(f: Flight, stop: bool) {
    f.Flying? && 0 <= f.index < |f.route| && !stop && !f.paused
  }

  /** The obstacles after a pass of the loop body: moved in dynamic mode at an even index (line 250). */
  function Moved(f: Flight, obstacles: seq<MovingObstacle>, rerolls: seq<Direction>): (r: seq<MovingObstacle>)
    requires f.Flying? && |rerolls| == |obstacles|
    requires f.grid.Length0 == GridSize && f.grid.Length1 == GridSize
    reads f.grid
    ensures |r| == |obstacles|
  {
    if f.dynamic && f.index % 2 == 0 then MoveObstacles(Rows(f.grid), obstacles, rerolls) else obstacles
  }

  /** The collision test of lines 250-258 asks for a new route. */
  ghost predicate MustReplan(f: Flight)
    requires f.Flying? && 0 <= f.index < |f.route|
  {
    f.dynamic && f.index % 2 == 0 && Collides(f.observed, f.route[f.index + 1..])
  }

  /** The replan of line 265 has a route: the target can be reached from the drone's cell. */
  ghost predicate CanReplan(f: Flight)
    requires f.Flying? && 0 <= f.index < |f.route|
    reads f.grid
  {
    Reachable(Rows(f.grid), f.route[f.index], f.target)
  }

  class Simulator {
    var grid: array2<int>
    var start: Option<Pos>
    var end: Option<Pos>
    var path: seq<Pos>
    var explored: seq<Pos>
    var dronePosition: Option<Pos>
    var isSimulating: bool
    var algorithm: Algorithm
    var mode: PlacementMode
    var status: string
    var stats: Stats
    var dynamicMode: bool
    var isPaused: bool
    var movingObstacles: seq<MovingObstacle>
    var replansCount: int
    var recalculatedPath: seq<Pos>
    var shouldStop: bool
    var flight: Flight

    /** The grid is 20 x 20 and the start and end are cells of it. */
    ghost predicate PageOk()
      reads this`grid, this`start, this`end
    {
      && grid.Length0 == GridSize && grid.Length1 == GridSize
      && (start.Some? ==> InPage(start.value))
      && (end.Some? ==> InPage(end.value))
    }

    /** The page is well formed, and so is the flight. */
    ghost predicate Valid()
      reads this`grid, this`start, this`end, this`flight
    {
      PageOk() && FlightOk(flight)
    }

    /** The obstacle counter equals the number of blocked cells. */
    ghost predicate CounterAgrees()
      reads this`stats, this`grid, grid
    {
      stats.obstacles == Ones(Rows(grid))
    }

    /** The initial state of the page (lines 16-37). */
    constructor ()
      ensures Valid() && CounterAgrees() && fresh(grid)
      ensures forall y, x :: 0 <= y < GridSize && 0 <= x < GridSize ==> grid[y, x] == 0
      ensures start == Some(Pos(2, 2)) && end == Some(Pos(17, 17))
      ensures path == [] && explored == [] && dronePosition == None && !isSimulating
      ensures algorithm == AStarSearch && mode == ObstacleMode && status == "Waiting for input..."
      ensures stats == Stats(0, 0, 0) && !dynamicMode && !isPaused && movingObstacles == []
      ensures replansCount == 0 && recalculatedPath == [] && !shouldStop && flight == Idle
    {
      var cells := new int[GridSize, GridSize]((y, x) => 0);
      OnesZero(Rows(cells));
      grid := cells;
      start := Some(Pos(2, 2));
      end := Some(Pos(17, 17));
      path := [];
      explored := [];
      dronePosition := None;
      isSimulating := false;
      algorithm := AStarSearch;
      mode := ObstacleMode;
      status := "Waiting for input...";
      stats := Stats(0, 0, 0);
      dynamicMode := false;
      isPaused := false;
      movingObstacles := [];
      replansCount := 0;
      recalculatedPath := [];
      shouldStop := false;
      flight := Idle;
    }

    /** One cell of the grid set in place, with what that does to the count of 1s. */
    method WriteCell(y: int, x: int, v: int)
      requires 0 <= y < grid.Length0 && 0 <= x < grid.Length1
      modifies grid
      ensures grid[y, x] == v
      ensures forall i, j :: 0 <= i < grid.Length0 && 0 <= j < grid.Length1 && (i != y || j != x) ==>
        grid[i, j] == old(grid[i, j])
      ensures Ones(Rows(grid)) == old(Ones(Rows(grid))) - Bit(old(grid[y, x])) + Bit(v)
    {
      ghost var before := Rows(grid);
      RowsCells(grid);
      grid[y, x] := v;
      OnesAfterWrite(grid, before, y, x);
    }

    /**
     * `handleCellClick` (lines 122-141). The rows are shared with the grid
     * the page already holds, so the cell is changed in place. In start or
     * end mode the point moves to the cell and the cell is cleared; the
     * counter is left as it was, so clearing a blocked cell this way leaves
     * it one too high. In obstacle mode the cell is toggled and the counter
     * follows it. No other cell changes.
     */
    method HandleCellClick(x: int, y: int)
      requires Valid() && 0 <= x < GridSize && 0 <= y < GridSize
      modifies this`start, this`end, this`stats, grid
      ensures Valid()
      ensures forall i, j :: 0 <= i < GridSize && 0 <= j < GridSize && (i != y || j != x) ==>
        grid[i, j] == old(grid[i, j])
      ensures mode == StartMode ==>
        start == Some(Pos(x, y)) && end == old(end) && grid[y, x] == 0 && stats == old(stats)
      ensures mode == EndMode ==>
        end == Some(Pos(x, y)) && start == old(start) && grid[y, x] == 0 && stats == old(stats)
      ensures mode == ObstacleMode ==>
        && start == old(start) && end == old(end)
        && grid[y, x] == (if old(grid[y, x]) == 1 then 0 else 1)
        && stats == old(stats).(obstacles := old(stats.obstacles) + (if grid[y, x] == 1 then 1 else -1))
      ensures mode == ObstacleMode && old(CounterAgrees()) ==> CounterAgrees()
      ensures mode != ObstacleMode ==> Ones(Rows(grid)) == old(Ones(Rows(grid))) - Bit(old(grid[y, x]))
    {
      var v := 0;
      if mode == StartMode {
        start := Some(Pos(x, y));
      } else if mode == EndMode {
        end := Some(Pos(x, y));
      } else {
        v := if grid[y, x] == 1 then 0 else 1;
        stats := stats.(obstacles := stats.obstacles + (if v == 1 then 1 else -1));
      }
      WriteCell(y, x, v);
    }

    /**
     * `randomizeGrid` (lines 143-156). `draws[y][x]` is the test
     * `Math.random() > 0.7` for cell (x, y). The new grid holds 1 where
     * the draw says so, except that the start and end cells are 0, and the
     * counter becomes its number of 1s.
     */
    method RandomizeGrid(draws: seq<seq<bool>>)
      requires Valid()
      requires |draws| == GridSize && forall y :: 0 <= y < GridSize ==> |draws[y]| == GridSize
      modifies this`grid, this`stats
      ensures Valid() && fresh(grid) && CounterAgrees()
      ensures start.Some? ==> grid[start.value.y, start.value.x] == 0
      ensures end.Some? ==> grid[end.value.y, end.value.x] == 0
      ensures forall y, x ::
        (0 <= y < GridSize && 0 <= x < GridSize
         && !(start.Some? && Pos(x, y) == start.value) && !(end.Some? && Pos(x, y) == end.value)) ==>
        grid[y, x] == (if draws[y][x] then 1 else 0)
      ensures stats == old(stats).(obstacles := Ones(Rows(grid)))
    {
      var newGrid := DrawGrid(draws, start, end);
      var rows := Rows(newGrid);
      grid := newGrid;
      stats := stats.(obstacles := Ones(rows));
      assert Rows(grid) == rows;
    }

    /**
     * `resetSimulation` (lines 158-170): signals a running flight to stop
     * and clears the path, the explored cells, the obstacles and the
     * counts, keeping the obstacle counter. The grid is not touched.
     */
    method ResetSimulation()
      modifies this`shouldStop, this`path, this`explored, this`dronePosition, this`isSimulating,
        this`isPaused, this`status, this`stats, this`movingObstacles, this`replansCount, this`recalculatedPath
      ensures shouldStop && path == [] && explored == [] && dronePosition == None
      ensures !isSimulating && !isPaused && status == "Waiting for input..."
      ensures stats == Stats(0, 0, old(stats.obstacles))
      ensures movingObstacles == [] && replansCount == 0 && recalculatedPath == []
    {
      shouldStop := true;
      path := [];
      explored := [];
      dronePosition := None;
      isSimulating := false;
      isPaused := false;
      status := "Waiting for input...";
      stats := Stats(0, 0, stats.obstacles);
      movingObstacles := [];
      replansCount := 0;
      recalculatedPath := [];
    }

    /**
     * The resets at the head of a launch (lines 178-186). A flight loop
     * still running from an earlier launch is abandoned.
     */
    method BeginRun()
      modifies this`shouldStop, this`path, this`explored, this`dronePosition, this`isSimulating,
        this`isPaused, this`replansCount, this`recalculatedPath, this`status, this`flight
      ensures !shouldStop && path == [] && explored == [] && dronePosition == None
      ensures isSimulating && !isPaused && replansCount == 0 && recalculatedPath == []
      ensures status == "Computing path..." && flight == Idle
    {
      flight := Idle;
      shouldStop := false;
      path := [];
      explored := [];
      dronePosition := None;
      isSimulating := true;
      isPaused := false;
      replansCount := 0;
      recalculatedPath := [];
      status := "Computing path...";
    }

    /**
     * `simulateFlight` up to its flight loop (lines 172-237). Without a
     * start and an end nothing happens. Otherwise the run state is
     * cleared, obstacles are placed from `picks` in dynamic mode, and the
     * selected search runs on the current grid: with no path the status
     * is "No path found!"; with one, the path and explored cells are
     * shown and the flight starts at index 0 of that path.
     */
    method SimulateFlight(picks: seq<Placement>)
      requires Valid()
      requires dynamicMode && start.Some? && end.Some? ==> PicksOk(Rows(grid), start, end, picks)
      modifies this`shouldStop, this`path, this`explored, this`dronePosition, this`isSimulating,
        this`isPaused, this`replansCount, this`recalculatedPath, this`status, this`movingObstacles,
        this`stats, this`flight
      ensures Valid()
      ensures start.None? || end.None? ==>
        && shouldStop == old(shouldStop) && path == old(path) && explored == old(explored)
        && dronePosition == old(dronePosition) && isSimulating == old(isSimulating) && isPaused == old(isPaused)
        && replansCount == old(replansCount) && recalculatedPath == old(recalculatedPath)
        && status == old(status) && movingObstacles == old(movingObstacles)
        && stats == old(stats) && flight == old(flight)
      ensures start.Some? && end.Some? ==>
        && !shouldStop && !isPaused && dronePosition == None && replansCount == 0 && recalculatedPath == []
        && (dynamicMode ==>
              && movingObstacles == PlacedObstacles(picks)
              && 3 <= |movingObstacles| <= 5 && AllOnOpen(Rows(grid), movingObstacles)
              && (forall i :: 0 <= i < |movingObstacles| ==>
                    At(movingObstacles[i]) != start.value && At(movingObstacles[i]) != end.value)
              && (forall i, j :: 0 <= i < j < |movingObstacles| ==> At(movingObstacles[i]) != At(movingObstacles[j])))
        && (!dynamicMode ==> movingObstacles == [])
      ensures start.Some? && end.Some? && !Reachable(Rows(grid), start.value, end.value) ==>
        && path == [] && explored == [] && status == "No path found!" && !isSimulating
        && flight == Idle && stats == old(stats)
      ensures start.Some? && end.Some? && Reachable(Rows(grid), start.value, end.value) ==>
        && ShortestWalk(Rows(grid), path, start.value, end.value)
        && |explored| > 0 && explored[0] == start.value && Distinct(explored)
        && stats == Stats(|path|, |explored|, old(stats.obstacles))
        && status == "Drone in flight..." && isSimulating
        && flight == Flying(grid, end.value, algorithm, dynamicMode, old(isPaused), old(movingObstacles), path, 0)
    {
      if start.None? || end.None? {
        return;
      }
      var pausedAtLaunch, observedAtLaunch := isPaused, movingObstacles;
      BeginRun();
      PlaceObstacles(picks);
      RunSearch(pausedAtLaunch, observedAtLaunch);
    }

    /**
     * The obstacles of a launch (lines 188-194): in dynamic mode exactly the
     * list `generateMovingObstacles` builds from `picks`, with its guarantees;
     * none otherwise.
     */
    method PlaceObstacles(picks: seq<Placement>)
      requires PageOk() && start.Some? && end.Some?
      requires dynamicMode ==> PicksOk(Rows(grid), start, end, picks)
      modifies this`movingObstacles
      ensures dynamicMode ==>
        && movingObstacles == PlacedObstacles(picks)
        && 3 <= |movingObstacles| <= 5 && AllOnOpen(Rows(grid), movingObstacles)
        && (forall i :: 0 <= i < |movingObstacles| ==>
              At(movingObstacles[i]) != start.value && At(movingObstacles[i]) != end.value)
        && (forall i, j :: 0 <= i < j < |movingObstacles| ==> At(movingObstacles[i]) != At(movingObstacles[j]))
      ensures !dynamicMode ==> movingObstacles == []
    {
      if dynamicMode {
        var cells := Rows(grid);
        movingObstacles := GenerateMovingObstacles(cells, start, end, picks);
        assert Rows(grid) == cells;
      } else {
        movingObstacles := [];
      }
    }

    /**
     * The search of a launch and its outcome (lines 196-236): with no
     * path the status is "No path found!" and the simulation is over;
     * with one, `ShowFlight`.
     */
    method RunSearch(pausedAtLaunch: bool, observedAtLaunch: seq<MovingObstacle>)
      requires PageOk() && start.Some? && end.Some? && flight == Idle
      modifies this`status, this`isSimulating, this`stats, this`explored, this`path, this`flight
      ensures PageOk() && FlightOk(flight)
      ensures !Reachable(Rows(grid), start.value, end.value) ==>
        && path == old(path) && explored == old(explored) && status == "No path found!" && !isSimulating
        && flight == Idle && stats == old(stats)
      ensures Reachable(Rows(grid), start.value, end.value) ==>
        && ShortestWalk(Rows(grid), path, start.value, end.value)
        && |explored| > 0 && explored[0] == start.value && Distinct(explored)
        && stats == Stats(|path|, |explored|, old(stats.obstacles))
        && status == "Drone in flight..." && isSimulating == old(isSimulating)
        && flight == Flying(grid, end.value, algorithm, dynamicMode, pausedAtLaunch, observedAtLaunch, path, 0)
    {
      var cells := Rows(grid);
      var computedPath, exploredNodes := FindPath(algorithm, cells, start.value, end.value);
      if |computedPath| == 0 {
        status := "No path found!";
        isSimulating := false;
      } else {
        ShowFlight(computedPath, exploredNodes, pausedAtLaunch, observedAtLaunch);
      }
      assert Rows(grid) == cells;
    }

    /**
     * A path was found (lines 215-236): the statistics, the explored cells
     * and the path are shown, and the flight starts at the path's first
     * cell. The exploration animation is taken at its last frame.
     */
    method ShowFlight(computedPath: seq<Pos>, exploredNodes: seq<Pos>, pausedAtLaunch: bool,
                      observedAtLaunch: seq<MovingObstacle>)
      requires end.Some?
      modifies this`status, this`stats, this`explored, this`path, this`flight
      ensures status == "Drone in flight..."
      ensures stats == Stats(|computedPath|, |exploredNodes|, old(stats.obstacles))
      ensures explored == exploredNodes && path == computedPath
      ensures flight == Flying(grid, end.value, algorithm, dynamicMode, pausedAtLaunch, observedAtLaunch, computedPath, 0)
    {
      status := "Path found! Executing flight...";
      stats := Stats(|computedPath|, |exploredNodes|, stats.obstacles);
      explored := exploredNodes;
      path := computedPath;
      status := "Drone in flight...";
      flight := Flying(grid, end.value, algorithm, dynamicMode, pausedAtLaunch, observedAtLaunch, computedPath, 0);
    }

    /**
     * The code after the flight loop (lines 297-302): "Mission complete!"
     * unless a stop was signalled, and the simulation is over.
     */
    method FinishFlight()
      modifies this`status, this`isSimulating, this`isPaused, this`flight
      ensures flight == Idle && !isSimulating && !isPaused
      ensures status == (if shouldStop then old(status) else "Mission complete!")
    {
      if !shouldStop {
        status := "Mission complete!";
      }
      isSimulating := false;
      isPaused := false;
      flight := Idle;
    }

    /**
     * A replan that found `newPath` (lines 267-282): the flight follows
     * it from its first cell, and the statistics add the new search.
     */
    method FollowNewPath(newPath: seq<Pos>, newExplored: seq<Pos>)
      requires flight.Flying?
      modifies this`flight, this`recalculatedPath, this`replansCount, this`stats, this`status
      ensures flight == old(flight).(route := newPath, index := 0)
      ensures recalculatedPath == newPath && replansCount == old(replansCount) + 1
      ensures stats == old(stats).(pathLength := |newPath|, explored := old(stats.explored) + |newExplored|)
      ensures status == "Following new path..."
    {
      flight := flight.(route := newPath, index := 0);
      recalculatedPath := newPath;
      replansCount := replansCount + 1;
      stats := stats.(pathLength := |newPath|, explored := stats.explored + |newExplored|);
      status := "Following new path...";
    }

    /**
     * A pass of the flight loop's body (lines 247-294) for a flight that
     * is neither stopped nor paused. The drone moves to the route's cell at
     * the index. In dynamic mode at an even index the obstacles move, and
     * the route after the drone's cell is tested against the flight's
     * `observed` list. On a
     * hit the search runs again from the drone's cell on the flight's
     * grid: a path replaces the route at index 0 and adds one replan; no
     * path leaves the loop, and the code after the loop reports "Mission
     * complete!". Otherwise the index moves on by one.
     */
    method FlyStep(rerolls: seq<Direction>) returns (newExplored: seq<Pos>)
      requires Valid() && Steps(flight, shouldStop)
      requires |rerolls| == |movingObstacles|
      modifies this`flight, this`status, this`isSimulating, this`isPaused, this`dronePosition,
        this`movingObstacles, this`recalculatedPath, this`replansCount, this`stats
      ensures Valid()
      ensures dronePosition == Some(old(flight).route[old(flight).index])
      ensures movingObstacles == Moved(old(flight), old(movingObstacles), rerolls)
      ensures !MustReplan(old(flight)) ==>
        && flight == old(flight).(index := old(flight).index + 1) && newExplored == []
        && isSimulating == old(isSimulating) && isPaused == old(isPaused) && status == old(status)
        && replansCount == old(replansCount) && recalculatedPath == old(recalculatedPath) && stats == old(stats)
      ensures MustReplan(old(flight)) && CanReplan(old(flight)) ==>
        && flight.Flying? && flight == old(flight).(route := flight.route, index := 0)
        && ShortestWalk(Rows(old(flight).grid), flight.route, old(flight).route[old(flight).index], old(flight).target)
        && recalculatedPath == flight.route && replansCount == old(replansCount) + 1
        && |newExplored| > 0 && newExplored[0] == old(flight).route[old(flight).index] && Distinct(newExplored)
        && stats == old(stats).(pathLength := |flight.route|, explored := old(stats.explored) + |newExplored|)
        && status == "Following new path..." && isSimulating == old(isSimulating) && isPaused == old(isPaused)
      ensures MustReplan(old(flight)) && !CanReplan(old(flight)) ==>
        && flight == Idle && !isSimulating && !isPaused && status == "Mission complete!"
        && replansCount == old(replansCount) && recalculatedPath == old(recalculatedPath) && stats == old(stats)
    {
      var f := flight;
      dronePosition := Some(f.route[f.index]);
      if f.dynamic && f.index % 2 == 0 {
        newExplored := DynamicStep(rerolls);
      } else {
        flight := f.(index := f.index + 1);
        newExplored := [];
      }
    }

    /**
     * The dynamic-mode part of the loop body (lines 250-292): the
     * obstacles move, the route after the drone's cell is tested against
     * `observed`, and a hit leads to `Replan`.
     */
    method DynamicStep(rerolls: seq<Direction>) returns (newExplored: seq<Pos>)
      requires Valid() && Steps(flight, shouldStop) && flight.dynamic && flight.index % 2 == 0
      requires |rerolls| == |movingObstacles|
      modifies this`flight, this`status, this`isSimulating, this`isPaused,
        this`movingObstacles, this`recalculatedPath, this`replansCount, this`stats
      ensures Valid()
      ensures movingObstacles == MoveObstacles(Rows(old(flight).grid), old(movingObstacles), rerolls)
      ensures !MustReplan(old(flight)) ==>
        && flight == old(flight).(index := old(flight).index + 1) && newExplored == []
        && isSimulating == old(isSimulating) && isPaused == old(isPaused) && status == old(status)
        && replansCount == old(replansCount) && recalculatedPath == old(recalculatedPath) && stats == old(stats)
      ensures MustReplan(old(flight)) && CanReplan(old(flight)) ==>
        && flight.Flying? && flight == old(flight).(route := flight.route, index := 0)
        && ShortestWalk(Rows(old(flight).grid), flight.route, old(flight).route[old(flight).index], old(flight).target)
        && recalculatedPath == flight.route && replansCount == old(replansCount) + 1
        && |newExplored| > 0 && newExplored[0] == old(flight).route[old(flight).index] && Distinct(newExplored)
        && stats == old(stats).(pathLength := |flight.route|, explored := old(stats.explored) + |newExplored|)
        && status == "Following new path..." && isSimulating == old(isSimulating) && isPaused == old(isPaused)
      ensures MustReplan(old(flight)) && !CanReplan(old(flight)) ==>
        && flight == Idle && !isSimulating && !isPaused && status == "Mission complete!"
        && replansCount == old(replansCount) && recalculatedPath == old(recalculatedPath) && stats == old(stats)
    {
      var f := flight;
      var cells := Rows(f.grid);
      movingObstacles := MoveObstacles(cells, movingObstacles, rerolls);
      var needsReplan := CheckCollisionWithPath(f.observed, f.route[f.index + 1..]);
      if needsReplan {
        newExplored := Replan();
      } else {
        flight := f.(index := f.index + 1);
        newExplored := [];
      }
      assert Rows(f.grid) == cells;
    }

    /**
     * The replan of lines 260-291: the search runs again from the drone's
     * cell to the target on the flight's grid. A path becomes the route,
     * followed from index 0; without one the loop is left and the code
     * after it runs.
     */
    method Replan() returns (newExplored: seq<Pos>)
      requires Valid() && Steps(flight, shouldStop)
      modifies this`flight, this`status, this`isSimulating, this`isPaused,
        this`recalculatedPath, this`replansCount, this`stats
      ensures Valid()
      ensures |newExplored| > 0 && newExplored[0] == old(flight).route[old(flight).index] && Distinct(newExplored)
      ensures CanReplan(old(flight)) ==>
        && flight.Flying? && flight == old(flight).(route := flight.route, index := 0)
        && ShortestWalk(Rows(old(flight).grid), flight.route, old(flight).route[old(flight).index], old(flight).target)
        && recalculatedPath == flight.route && replansCount == old(replansCount) + 1
        && stats == old(stats).(pathLength := |flight.route|, explored := old(stats.explored) + |newExplored|)
        && status == "Following new path..." && isSimulating == old(isSimulating) && isPaused == old(isPaused)
      ensures !CanReplan(old(flight)) ==>
        && flight == Idle && !isSimulating && !isPaused && status == "Mission complete!"
        && replansCount == old(replansCount) && recalculatedPath == old(recalculatedPath) && stats == old(stats)
    {
      status := "Obstacle detected! Recalculating...";
      var f := flight;
      var cells := Rows(f.grid);
      var newPath;
      newPath, newExplored := FindPath(f.algorithm, cells, f.route[f.index], f.target);
      if |newPath| > 0 {
        FollowNewPath(newPath, newExplored);
      } else {
        status := "No alternative path!";
        FinishFlight();
      }
      assert Rows(f.grid) == cells;
    }

    /**
     * One pass of the flight loop (lines 239-302): its exit when the drone
     * is at the end of its route, the return when a stop was signalled,
     * no progress while the flight is paused, and otherwise `FlyStep`.
     * `rerolls` are the directions drawn for blocked obstacles; `newExplored`
     * is what a replan's `onExplore` collected, empty without one.
     */
    method FlightTick(rerolls: seq<Direction>) returns (newExplored: seq<Pos>)
      requires Valid() && flight.Flying?
      requires |rerolls| == |movingObstacles|
      modifies this`flight, this`status, this`isSimulating, this`isPaused, this`dronePosition,
        this`movingObstacles, this`recalculatedPath, this`replansCount, this`stats
      ensures Valid()
      // The loop test of line 239 fails: the code after the loop runs.
      ensures old(flight).index >= |old(flight).route| ==>
        && flight == Idle && !isSimulating && !isPaused && newExplored == []
        && status == (if shouldStop then old(status) else "Mission complete!")
        && dronePosition == old(dronePosition) && movingObstacles == old(movingObstacles)
        && replansCount == old(replansCount) && recalculatedPath == old(recalculatedPath) && stats == old(stats)
      // A stop was signalled: the loop returns (line 240).
      ensures old(flight).index < |old(flight).route| && shouldStop ==>
        && flight == Idle && isSimulating == old(isSimulating) && isPaused == old(isPaused)
        && status == old(status) && newExplored == []
        && dronePosition == old(dronePosition) && movingObstacles == old(movingObstacles)
        && replansCount == old(replansCount) && recalculatedPath == old(recalculatedPath) && stats == old(stats)
      // Paused at launch: the wait of line 243 does not end.
      ensures old(flight).index < |old(flight).route| && !shouldStop && old(flight).paused ==>
        && flight == old(flight) && isSimulating == old(isSimulating) && isPaused == old(isPaused)
        && status == old(status) && newExplored == []
        && dronePosition == old(dronePosition) && movingObstacles == old(movingObstacles)
        && replansCount == old(replansCount) && recalculatedPath == old(recalculatedPath) && stats == old(stats)
      // Otherwise the body of the loop runs.
      ensures Steps(old(flight), shouldStop) ==>
        && dronePosition == Some(old(flight).route[old(flight).index])
        && movingObstacles == Moved(old(flight), old(movingObstacles), rerolls)
      ensures Steps(old(flight), shouldStop) && !MustReplan(old(flight)) ==>
        && flight == old(flight).(index := old(flight).index + 1) && newExplored == []
        && isSimulating == old(isSimulating) && isPaused == old(isPaused) && status == old(status)
        && replansCount == old(replansCount) && recalculatedPath == old(recalculatedPath) && stats == old(stats)
      ensures Steps(old(flight), shouldStop) && MustReplan(old(flight)) && CanReplan(old(flight)) ==>
        && flight.Flying? && flight == old(flight).(route := flight.route, index := 0)
        && ShortestWalk(Rows(old(flight).grid), flight.route, old(flight).route[old(flight).index], old(flight).target)
        && recalculatedPath == flight.route && replansCount == old(replansCount) + 1
        && |newExplored| > 0 && newExplored[0] == old(flight).route[old(flight).index] && Distinct(newExplored)
        && stats == old(stats).(pathLength := |flight.route|, explored := old(stats.explored) + |newExplored|)
        && status == "Following new path..." && isSimulating == old(isSimulating) && isPaused == old(isPaused)
      ensures Steps(old(flight), shouldStop) && MustReplan(old(flight)) && !CanReplan(old(flight)) ==>
        && flight == Idle && !isSimulating && !isPaused && status == "Mission complete!"
        && replansCount == old(replansCount) && recalculatedPath == old(recalculatedPath) && stats == old(stats)
    {
      newExplored := [];
      if flight.index >= |flight.route| {
        FinishFlight();
      } else if shouldStop {
        flight := Idle;
      } else if !flight.paused {
        newExplored := FlyStep(rerolls);
      }
    }
  }
}
