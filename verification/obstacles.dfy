/**
 * The moving obstacles of the dynamic mode in src/pages/Index.tsx: the
 * `MovingObstacle` record of src/types/simulation.ts, their placement
 * (`generateMovingObstacles`, lines 39-67), their one-tick move
 * (`moveObstacles`, lines 69-111) and the collision test against a path
 * (`checkCollisionWithPath`, lines 113-120). Every `Math.random` draw is an
 * explicit argument.
 */
module Obstacles {
  import opened Wrappers
  import opened Geometry

  /** The page's grid has GRID_SIZE rows of GRID_SIZE cells (Index.tsx:13, 16-18). */
  const GridSize := 20

  predicate PageGrid(grid: Grid) {
    |grid| == GridSize && forall y :: 0 <= y < |grid| ==> |grid[y]| == GridSize
  }

  datatype Direction = Up | Down | Left | Right

  /** The record's `type` field; `type` is a Dafny keyword, so the field is `kind`. */
  datatype ObstacleKind = Car | Bird | Drone

  datatype MovingObstacle = MovingObstacle(id: string, x: int, y: int, direction: Direction,
                                           kind: ObstacleKind, speed: int)

  function At(o: MovingObstacle): Pos {
    Pos(o.x, o.y)
  }

  /** The cell one step along the obstacle's direction (lines 76-89). */
  function Ahead(o: MovingObstacle): Pos {
    match o.direction
    case Up => Pos(o.x, o.y - 1)
    case Down => Pos(o.x, o.y + 1)
    case Left => Pos(o.x - 1, o.y)
    case Right => Pos(o.x + 1, o.y)
  }

  /** A cell an obstacle may occupy: in bounds and not 1 (lines 92-95). */
  predicate OpenCell(grid: Grid, p: Pos)
    requires PageGrid(grid)
  {
    0 <= p.x < GridSize && 0 <= p.y < GridSize && grid[p.y][p.x] != 1
  }

  predicate AllOnOpen(grid: Grid, obstacles: seq<MovingObstacle>)
    requires PageGrid(grid)
  {
    forall i :: 0 <= i < |obstacles| ==> OpenCell(grid, At(obstacles[i]))
  }

  /**
   * One obstacle's move (lines 70-109): one cell along its direction when
   * that cell is open, otherwise it stays and takes the direction `reroll`
   * (the random draw of line 99). Only position and direction change.
   */
  function MoveObstacle(grid: Grid, o: MovingObstacle, reroll: Direction): (r: MovingObstacle)
    requires PageGrid(grid)
    ensures r.id == o.id && r.kind == o.kind && r.speed == o.speed
    ensures Heuristic(At(o), At(r)) <= 1
    ensures At(r) != At(o) <==> OpenCell(grid, Ahead(o))
    ensures At(r) != At(o) ==> At(r) == Ahead(o) && r.direction == o.direction
    ensures At(r) == At(o) ==> r.direction == reroll
  {
    var next := Ahead(o);
    if !OpenCell(grid, next) then o.(direction := reroll)
    else o.(x := next.x, y := next.y)
  }

  /**
   * `moveObstacles`: every obstacle moves once, `rerolls[i]` being the
   * direction drawn for obstacle i should it be blocked; the list keeps its
   * length and order.
   */
  function MoveObstacles(grid: Grid, obstacles: seq<MovingObstacle>, rerolls: seq<Direction>): (r: seq<MovingObstacle>)
    requires PageGrid(grid) && |rerolls| == |obstacles|
    ensures |r| == |obstacles|
    ensures forall i :: 0 <= i < |r| ==> r[i] == MoveObstacle(grid, obstacles[i], rerolls[i])
  {
    if obstacles == [] then []
    else
      var rest := MoveObstacles(grid, obstacles[1..], rerolls[1..]);
      var r := [MoveObstacle(grid, obstacles[0], rerolls[0])] + rest;
      assert forall i :: 0 < i < |r| ==>
        r[i] == rest[i - 1] && obstacles[i] == obstacles[1..][i - 1] && rerolls[i] == rerolls[1..][i - 1];
      r
  }

  /**
   * What a tick does to the obstacle list as a whole: ids, kinds and speeds
   * are kept, and no obstacle moves more than one cell and then only
   * straight ahead.
   */
  lemma MoveObstaclesKeeps(grid: Grid, obstacles: seq<MovingObstacle>, rerolls: seq<Direction>)
    requires PageGrid(grid) && |rerolls| == |obstacles|
    ensures var r := MoveObstacles(grid, obstacles, rerolls);
      && (forall i :: 0 <= i < |r| ==>
            r[i].id == obstacles[i].id && r[i].kind == obstacles[i].kind && r[i].speed == obstacles[i].speed)
      && (forall i :: 0 <= i < |r| ==> Heuristic(At(obstacles[i]), At(r[i])) <= 1)
      && (forall i :: 0 <= i < |r| ==> At(r[i]) == At(obstacles[i]) || At(r[i]) == Ahead(obstacles[i]))
  {
  }

  /** Obstacles on open cells stay on open cells: a blocked obstacle does not move. */
  lemma MoveObstaclesStayOpen(grid: Grid, obstacles: seq<MovingObstacle>, rerolls: seq<Direction>)
    requires PageGrid(grid) && |rerolls| == |obstacles| && AllOnOpen(grid, obstacles)
    ensures AllOnOpen(grid, MoveObstacles(grid, obstacles, rerolls))
  {
    var r := MoveObstacles(grid, obstacles, rerolls);
    forall i | 0 <= i < |r| ensures OpenCell(grid, At(r[i])) {
      assert OpenCell(grid, At(obstacles[i]));
    }
  }

  /** Some obstacle stands on some cell of the path. */
  ghost predicate Collides(obstacles: seq<MovingObstacle>, path: seq<Pos>) {
    exists i, k :: 0 <= i < |obstacles| && 0 <= k < |path| && path[k] == At(obstacles[i])
  }

  /** `currentPath.some(...)` for one obstacle (line 115). */
  predicate OnPath(path: seq<Pos>, o: MovingObstacle) {
    exists p :: p in path && p.x == o.x && p.y == o.y
  }

  /**
   * `checkCollisionWithPath`: true exactly when some obstacle stands on
   * some cell of the path, and so false when either list is empty.
   */
  method CheckCollisionWithPath(obstacles: seq<MovingObstacle>, currentPath: seq<Pos>) returns (hit: bool)
    ensures hit <==> Collides(obstacles, currentPath)
    ensures obstacles == [] || currentPath == [] ==> !hit
  {
    for i := 0 to |obstacles|
      invariant forall j, k :: 0 <= j < i && 0 <= k < |currentPath| ==> currentPath[k] != At(obstacles[j])
    {
      if OnPath(currentPath, obstacles[i]) {
        var p :| p in currentPath && p.x == obstacles[i].x && p.y == obstacles[i].y;
        var k :| 0 <= k < |currentPath| && currentPath[k] == p;
        assert currentPath[k] == At(obstacles[i]);
        return true;
      }
    }
    return false;
  }

  /** The accepted draws for one obstacle: the cell of lines 47-48, the direction of line 60, the kind of line 61. */
  datatype Placement = Placement(x: int, y: int, direction: Direction, kind: ObstacleKind)

  /**
   * The exit test of the retry loop (lines 49-54), for a cell drawn in
   * range: not blocked, not the start, not the end, and not the cell of an
   * obstacle placed earlier.
   */
  predicate PlacementOk(grid: Grid, start: Option<Pos>, end: Option<Pos>, earlier: seq<Placement>, p: Placement)
    requires PageGrid(grid)
  {
    && 0 <= p.x < GridSize && 0 <= p.y < GridSize
    && grid[p.y][p.x] != 1
    && !(start.Some? && p.x == start.value.x && p.y == start.value.y)
    && !(end.Some? && p.x == end.value.x && p.y == end.value.y)
    && forall q :: q in earlier ==> !(q.x == p.x && q.y == p.y)
  }

  /** The draws for a whole call: 3 to 5 obstacles (line 40), each placement accepted in turn. */
  predicate PicksOk(grid: Grid, start: Option<Pos>, end: Option<Pos>, picks: seq<Placement>)
    requires PageGrid(grid)
  {
    && 3 <= |picks| <= 5
    && forall i :: 0 <= i < |picks| ==> PlacementOk(grid, start, end, picks[..i], picks[i])
  }

  /** Decimal digits of `n`, as a template literal prints a number. */
  function Decimal(n: nat): string {
    if n < 10 then [(('0' as int) + n) as char]
    else Decimal(n / 10) + [(('0' as int) + n % 10) as char]
  }

  function ObstacleId(i: nat): string {
    "obstacle-" + Decimal(i)
  }

  /**
   * The obstacles built from accepted placements (lines 56-63): the i-th
   * has id obstacle-i, the i-th placement's cell, direction and kind, and
   * speed 1.
   */
  function PlacedObstacles(picks: seq<Placement>): (r: seq<MovingObstacle>)
    ensures |r| == |picks|
  {
    seq(|picks|, i requires 0 <= i < |picks| =>
      MovingObstacle(ObstacleId(i), picks[i].x, picks[i].y, picks[i].direction, picks[i].kind, 1))
  }

  /**
   * What accepted placements guarantee: 3 to 5 obstacles, each on an open
   * cell other than the start and the end, no two on the same cell.
   */
  lemma PlacedObstaclesFacts(grid: Grid, start: Option<Pos>, end: Option<Pos>, picks: seq<Placement>)
    requires PageGrid(grid) && PicksOk(grid, start, end, picks)
    ensures var r := PlacedObstacles(picks);
      && 3 <= |r| <= 5
      && AllOnOpen(grid, r)
      && (forall i :: 0 <= i < |r| ==>
            (start.Some? ==> At(r[i]) != start.value) && (end.Some? ==> At(r[i]) != end.value))
      && (forall i, j :: 0 <= i < j < |r| ==> At(r[i]) != At(r[j]))
  {
    var r := PlacedObstacles(picks);
    forall i | 0 <= i < |r|
      ensures OpenCell(grid, At(r[i]))
      ensures (start.Some? ==> At(r[i]) != start.value) && (end.Some? ==> At(r[i]) != end.value)
    {
      assert PlacementOk(grid, start, end, picks[..i], picks[i]);
    }
    forall i, j | 0 <= i < j < |r| ensures At(r[i]) != At(r[j]) {
      assert PlacementOk(grid, start, end, picks[..j], picks[j]);
      assert picks[..j][i] == picks[i];
    }
  }

  /**
   * `generateMovingObstacles`. `picks` holds one accepted placement per
   * obstacle; its length is the count drawn at line 40, 3 to 5. The loop
   * builds exactly `PlacedObstacles(picks)`: 3 to 5 obstacles with ids
   * obstacle-0, obstacle-1, ..., speed 1, each on an open cell other than
   * the start and the end, no two on the same cell.
   */
  method GenerateMovingObstacles(grid: Grid, start: Option<Pos>, end: Option<Pos>, picks: seq<Placement>)
    returns (obstacles: seq<MovingObstacle>)
    requires PageGrid(grid) && PicksOk(grid, start, end, picks)
    ensures obstacles == PlacedObstacles(picks)
    ensures 3 <= |obstacles| <= 5 && |obstacles| == |picks|
    ensures forall i :: 0 <= i < |obstacles| ==>
      && obstacles[i].id == ObstacleId(i) && obstacles[i].speed == 1
      && At(obstacles[i]) == Pos(picks[i].x, picks[i].y)
      && obstacles[i].direction == picks[i].direction && obstacles[i].kind == picks[i].kind
    ensures AllOnOpen(grid, obstacles)
    ensures forall i :: 0 <= i < |obstacles| ==>
      (start.Some? ==> At(obstacles[i]) != start.value) && (end.Some? ==> At(obstacles[i]) != end.value)
    ensures forall i, j :: 0 <= i < j < |obstacles| ==> At(obstacles[i]) != At(obstacles[j])
  {
    obstacles := [];
    for i := 0 to |picks|
      invariant obstacles == PlacedObstacles(picks)[..i]
    {
      var p := picks[i];
      obstacles := obstacles + [MovingObstacle(ObstacleId(i), p.x, p.y, p.direction, p.kind, 1)];
    }
    PlacedObstaclesFacts(grid, start, end, picks);
  }

}
