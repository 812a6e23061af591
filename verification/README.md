# aero-path-sim: path planning and flight loop in Dafny

aero-path-sim is a drone mission planner. It runs in the browser over a
20 x 20 grid of cells: 0 is free terrain and 1 is an obstacle. The user
places a start and a target and draws or randomises obstacles. They then
choose A* or Dijkstra and launch a flight. The search computes a shortest
4-connected route. The drone follows it one cell per tick. In dynamic mode
3 to 5 moving obstacles (cars, birds, drones) wander the grid. Every second
tick they move, and the rest of the route is tested against the obstacle
list as it stood when the flight was launched (the loop reads that stale
list, not the moved one). A hit makes the search run again from the
drone's cell.

This project models that core:

- `wrappers.dfy`: `Option`, for the `null`/`undefined` slots of the page
  state.
- `geometry.dfy`: the Manhattan heuristic and `getNeighbors`. It also holds
  the vocabulary the search contracts use: a walk is a sequence of
  4-adjacent passable cells; reachability; a shortest walk.
- `frontier.dfy`: the `PathNode` record and the `sort` + `shift` frontier
  discipline of both searches. The array sort is modelled as a stable
  insertion sort. Also `openSet.find`, and the order of `onExplore` calls.
- `astar.dfy`: `findPathAStar`, one method per part of its loop.
  - `FindPathAStar`: a returned path is a shortest walk. No path means no
    walk exists. The explored cells are the `onExplore` trace.
  - Proved along the way: the `closedSet` skip of line 69 never fires.
- `dijkstra.dfy`: `findPathDijkstra`, with the same outer guarantees.
  - All steps cost 1, so every cell is recorded and queued once. The queue
    runs in breadth-first layers.
  - The predecessor walk of lines 149-162 rebuilds a walk of length
    `distance + 1`.
- `obstacles.dfy`: the `MovingObstacle` record of `src/types/simulation.ts`.
  Also `generateMovingObstacles`, `moveObstacles` and
  `checkCollisionWithPath`.
- `simulator.dfy`: the page component as a class `Simulator`, one field per
  state hook, with methods for each handler.
  - The grid is an `array2<int>` edited in place. The source copies only the
    outer array (`[...grid]`) and writes into the shared rows.
  - `simulateFlight` is split into its launch (`SimulateFlight`) and one pass
    of its flight loop (`FlightTick`).
  - The flight loop runs in a closure, and that closure keeps the values it
    captured at launch: the grid array, the target, the search, the dynamic
    flag, the pause flag and the obstacle list. These are kept in the
    `Flight` value, separately from the fields the page goes on updating.

Every random draw is an explicit argument: the terrain draws of
`randomizeGrid`, the accepted placements of `generateMovingObstacles`, and
the new directions of blocked obstacles.

Some behaviour is modelled as the code has it:

- The obstacle counter is not adjusted when a start or target is placed on
  an obstacle cell. `HandleCellClick` states the drift.
- A failed replan leaves the loop, and the code after the loop then reports
  "Mission complete!".
- The collision test reads the obstacle list from before the launch. It
  does not read the list the loop moves.

## Model

| member | source | states |
|---|---|---|
| Geometry.Heuristic | src/utils/pathfinding.ts:14-16 | the Manhattan distance is never negative and is zero exactly for equal cells |
| Geometry.HeuristicSymmetric | src/utils/pathfinding.ts:14-16 | the distance from a to b equals the distance from b to a |
| Geometry.HeuristicTriangle | src/utils/pathfinding.ts:14-16 | the distance obeys the triangle inequality, the consistency A* relies on |
| Geometry.WalkHeuristic | src/utils/pathfinding.ts:14-16 | admissibility: every walk from a to b has at least Heuristic(a, b) steps |
| Geometry.WalkSuffixHeuristic | src/utils/pathfinding.ts:14-16 | from any cell of a walk, the remaining steps are at least that cell's heuristic to the goal |
| Geometry.NeighborsUpToSpec | src/utils/pathfinding.ts:27-40 | after the first i directions, the list holds exactly the passable cells one of those directions away, at most i of them |
| Geometry.NeighborsUpToOrder | src/utils/pathfinding.ts:27-40 | the cells found in the first i directions come from directions before i and are listed in direction order |
| Geometry.AroundIsUnitDistance | src/utils/pathfinding.ts:20-25 | the four direction offsets reach exactly the cells at Manhattan distance 1 |
| Geometry.NeighborsSpec | src/utils/pathfinding.ts:18-43 | the neighbours are at most 4; a cell is among them iff it is an in-bounds 0-cell at distance 1; they come in up, right, down, left order |
| Geometry.NeighborStep | src/utils/pathfinding.ts:18-43 | every listed neighbour is one legal step from the cell |
| Geometry.GetNeighbors | src/utils/pathfinding.ts:18-43 | the loop returns exactly the neighbour list that NeighborsSpec characterises |
| Geometry.WalkPrepend | src/utils/pathfinding.ts:76-82 | a legal step followed by a walk is a walk, as when the path is rebuilt with `unshift` |
| Geometry.WalkPrefix | src/utils/pathfinding.ts:76-82 | every non-empty prefix of a walk is a walk to its last cell |
| Geometry.WalkStaysIn | src/utils/pathfinding.ts:63-115 | a walk that starts inside a set closed under legal steps ends inside it |
| Geometry.ExitIndex | src/utils/pathfinding.ts:63-115 | a walk that leaves a set has a first step from inside to outside |
| Geometry.PassableInCells | src/utils/pathfinding.ts:31-37 | every passable cell lies within the grid's width x height cells |
| Geometry.BoundedByCells | src/utils/pathfinding.ts:31-37 | a set of passable cells plus the start has at most width*height+1 members |
| Frontier.Insert | src/utils/pathfinding.ts:65 | insertion into a sorted frontier keeps it sorted and adds exactly one occurrence of the node |
| Frontier.SortBy | src/utils/pathfinding.ts:65 | the sorted frontier is a permutation of the old one, ordered by f (A*) or g (Dijkstra) |
| Frontier.FirstMin | src/utils/pathfinding.ts:65-66 | the index of the first node of least key: no key is smaller, and every earlier key is strictly larger |
| Frontier.SortHeadIsFirstMin | src/utils/pathfinding.ts:65-66 | stability: `shift` after the sort takes the first least-key node of the unsorted frontier |
| Frontier.InsertDistinct | src/utils/pathfinding.ts:65 | inserting a node for a fresh cell keeps one node per cell |
| Frontier.SortDistinct | src/utils/pathfinding.ts:142 | sorting keeps one node per cell |
| Frontier.PopHead | src/utils/pathfinding.ts:142-143 | the shifted node came from the frontier, and no node in it has a smaller key |
| Frontier.PopRest | src/utils/pathfinding.ts:65-66 | after the shift the frontier holds exactly the other cells' nodes, one per cell |
| Frontier.UpdateFacts | src/utils/pathfinding.ts:111 | overwriting a cell's node in place (`Object.assign`) replaces that cell's entry and leaves the others |
| Frontier.AppendFacts | src/utils/pathfinding.ts:109 | pushing a node for a fresh cell adds it and keeps one node per cell |
| Frontier.FindByPos | src/utils/pathfinding.ts:95-97 | `find` by cell: -1 iff no node has the cell, otherwise the index of the first node that has it |
| Frontier.TraceCovers | src/utils/pathfinding.ts:71-72 | every closed cell has been reported to `onExplore` |
| Frontier.PopTrace | src/utils/pathfinding.ts:71-72 | closing a new cell and reporting it keeps trace and closed set in step; the start is reported first |
| Frontier.TraceFacts | src/utils/pathfinding.ts:71-72 | a trace in step with the closed cells starts at the start, repeats no cell, holds only passable cells besides the start, and has at most width*height+1 entries |
| Frontier.FoundIsShortest | src/utils/pathfinding.ts:74-83 | a walk to a finalised target with one cell more than the target's g is no longer than any other walk to it |
| AStar.PopIsOptimal | src/utils/pathfinding.ts:65-66 | with a consistent heuristic, the node of least f has g no greater than the length of any walk to its cell |
| AStar.PopOptimal | src/utils/pathfinding.ts:65-71 | closing the popped node keeps every closed g equal to the shortest distance |
| AStar.PopOpen | src/utils/pathfinding.ts:65-71 | after the pop, the open list is consistent with the closed cells: no closed cell is open, parents are closed |
| AStar.CloseNode | src/utils/pathfinding.ts:71 | adding the popped node keeps every closed node's parent chain a walk from the start |
| AStar.PopCovered | src/utils/pathfinding.ts:86-114 | the earlier closed cells keep all their open neighbours covered after the pop |
| AStar.OpenPush | src/utils/pathfinding.ts:108-109 | pushing a node for a cell not yet open keeps the open-list invariant |
| AStar.OpenReplace | src/utils/pathfinding.ts:110-111 | overwriting an open cell's node with a cheaper one keeps the open-list invariant |
| AStar.PopKeeps | src/utils/pathfinding.ts:65-72 | closing the head of the sorted open set keeps the open-list, closed-node, optimality, coverage and trace invariants |
| AStar.Pop | src/utils/pathfinding.ts:63-72 | one pop: the first open entry of least f (what the stable sort puts at the head), never a closed cell (the `continue` of line 69 cannot fire), is closed and reported; the open list is the rest of the stably sorted list, the other closed nodes are unchanged and the trace gains exactly that cell |
| AStar.NeighborNode | src/utils/pathfinding.ts:91-106 | the node built for a neighbour: g one more than the current node's, h the Manhattan distance to the target, f their sum, parent the current cell |
| AStar.Relax | src/utils/pathfinding.ts:87-113 | the exact rule: a closed neighbour, or an open one whose g is at most current.g+1, changes nothing; an unseen one is appended as the neighbour node; an open one with a larger g is replaced in place by it, every other entry unchanged; the search invariants are kept |
| AStar.Expand | src/utils/pathfinding.ts:86-114 | after the neighbour loop, every closed cell's unclosed neighbours are open with g at most one more, and no open entry's g has grown |
| AStar.ExpandCovers | src/utils/pathfinding.ts:86-114 | the per-neighbour facts of the loop give the covering invariant for the newly closed cell |
| AStar.Rebuild | src/utils/pathfinding.ts:76-82 | following parents from the goal gives a walk from the start of length g+1 |
| AStar.ExhaustedReachesAll | src/utils/pathfinding.ts:63-117 | when the open list empties, every cell some walk reaches from the start is closed |
| AStar.SearchStarts | src/utils/pathfinding.ts:51-61 | the loop invariant holds at entry: only the start is open, at g 0 with no parent, and nothing is closed |
| AStar.Visit | src/utils/pathfinding.ts:63-114 | one pass closes exactly one more cell; it either ends the search with a shortest path and the trace Outcome promises, or restores the loop invariant |
| AStar.Exhausted | src/utils/pathfinding.ts:63-117 | an empty open set means no walk reaches the target, every reachable cell was reported, and the trace does not end at the target |
| AStar.FindPathAStar | src/utils/pathfinding.ts:45-118 | Outcome: a returned path is a walk from start to end no longer than any other, and [] means no walk exists and every reachable cell was explored; the trace starts at the start, ends at the target iff a path was found, has no repeats, holds only passable cells besides the start and stays within width*height+1; start = end gives [start] |
| Dijkstra.PopIsOptimal | src/utils/pathfinding.ts:142-143 | the queued node of least g has g no greater than the length of any walk to its cell |
| Dijkstra.PopOptimal | src/utils/pathfinding.ts:142-146 | settling the popped node keeps every settled g equal to the shortest distance |
| Dijkstra.PopQueue | src/utils/pathfinding.ts:142-143 | after the shift the queue still holds one node per unsettled recorded cell, with its recorded distance |
| Dijkstra.PopBook | src/utils/pathfinding.ts:142-146 | after the shift every recorded cell is settled or queued, and the queue lies in layers current.g and current.g+1 |
| Dijkstra.PopCovered | src/utils/pathfinding.ts:165-184 | the cells settled earlier keep all their neighbours recorded after the pop |
| Dijkstra.PopKeeps | src/utils/pathfinding.ts:142-146 | settling the head of the sorted queue keeps queue, bookkeeping, optimality, layering, the trace and the earlier cells' coverage |
| Dijkstra.Pop | src/utils/pathfinding.ts:140-146 | one pop: the first queued entry of least g (what the stable sort puts at the head), never a settled cell, with g its recorded distance, is settled and reported; the queue is the rest of the stably sorted queue, the other settled nodes are unchanged and the trace gains exactly that cell |
| Dijkstra.Record | src/utils/pathfinding.ts:171-182 | recording a fresh neighbour at distance g+1 with the current cell as its predecessor keeps queue, records and layers consistent |
| Dijkstra.Relax | src/utils/pathfinding.ts:166-183 | the exact rule: a recorded neighbour (whose distance is then at most g+1) changes nothing, distance, predecessor and queue alike; an unrecorded one gets distance g+1, the current cell as predecessor, and a queue entry appended |
| Dijkstra.RelaxAll | src/utils/pathfinding.ts:166-184 | the neighbour loop: old distances never change and every neighbour ends up recorded at most one step further than the current cell |
| Dijkstra.Expand | src/utils/pathfinding.ts:165-184 | after the neighbour loop, all neighbours of every settled cell are recorded at most one step further |
| Dijkstra.ExpandCovers | src/utils/pathfinding.ts:165-184 | the per-neighbour facts of the loop give the covering invariant for the newly settled cell |
| Dijkstra.Rebuild | src/utils/pathfinding.ts:149-162 | walking `previous` back from the end, with its start special case, gives a walk from start to end of length distance+1 |
| Dijkstra.ExhaustedReachesAll | src/utils/pathfinding.ts:140-187 | when the queue empties, every cell some walk reaches from the start is settled |
| Dijkstra.SearchStarts | src/utils/pathfinding.ts:126-138 | the loop invariant holds at entry: only the start is queued and recorded, at distance 0, and nothing is settled |
| Dijkstra.Visit | src/utils/pathfinding.ts:141-184 | one pass settles exactly one more cell; it either ends the search with a shortest path and the trace Outcome promises, or restores the loop invariant |
| Dijkstra.Exhausted | src/utils/pathfinding.ts:140-187 | an empty queue means no walk reaches the target, every reachable cell was reported, and the trace does not end at the target |
| Dijkstra.FindPathDijkstra | src/utils/pathfinding.ts:120-188 | the same Outcome as A*: a shortest walk, or [] exactly when none exists and then every reachable cell was explored, with the same trace properties |
| Obstacles.MoveObstacle | src/pages/Index.tsx:70-109 | id, type and speed are kept; the obstacle moves one cell along its direction iff that cell is in bounds and not 1, otherwise it stays and takes the drawn direction |
| Obstacles.MoveObstacles | src/pages/Index.tsx:69-111 | the list keeps its length and order, and each obstacle is replaced by its own one-tick move |
| Obstacles.MoveObstaclesKeeps | src/pages/Index.tsx:69-111 | ids, types and speeds are kept, and each obstacle stays put or moves one cell straight ahead |
| Obstacles.MoveObstaclesStayOpen | src/pages/Index.tsx:69-111 | obstacles that all stand on open cells still do after the tick |
| Obstacles.CheckCollisionWithPath | src/pages/Index.tsx:113-120 | true iff some obstacle stands on some cell of the path; false for an empty list or path |
| Obstacles.PlacedObstaclesFacts | src/pages/Index.tsx:39-67 | the obstacles built from accepted placements are 3 to 5, each on an open cell other than start and target, no two on one cell |
| Obstacles.GenerateMovingObstacles | src/pages/Index.tsx:39-67 | the loop builds exactly the obstacles of the drawn placements: ids obstacle-0.., speed 1, 3 to 5 of them, each on an open cell other than start and target, no two on one cell |
| Simulation.RowOnesUpdate | src/pages/Index.tsx:139 | overwriting one cell of a row changes its count of 1s by the old and new cell's share |
| Simulation.OnesUpdate | src/pages/Index.tsx:139 | overwriting one cell changes the grid's count of 1s by that cell alone |
| Simulation.RowOnesZero | src/pages/Index.tsx:16-18 | an all-zero row has no 1s |
| Simulation.OnesZero | src/pages/Index.tsx:16-18 | the initial all-zero grid has no obstacles, matching the counter's 0 |
| Simulation.OnesAfterWrite | src/pages/Index.tsx:136-139 | after an in-place write of one cell, the obstacle count differs only by that cell |
| Simulation.FindPath | src/pages/Index.tsx:199-203 | whichever search is selected: a shortest walk, or [] exactly when the target is unreachable; the explored trace starts at the start without repeats |
| Simulation.DrawGrid | src/pages/Index.tsx:144-150 | a fresh 20x20 grid whose cells are 1 exactly where drawn, except start and target, which are 0 |
| Simulation.Simulator.constructor | src/pages/Index.tsx:16-37 | the initial page state: empty grid, start (2,2), target (17,17), A*, obstacle mode, all counters 0, no flight |
| Simulation.Simulator.WriteCell | src/pages/Index.tsx:126 | the in-place write sets one cell, leaves every other cell, and moves the obstacle count by that cell |
| Simulation.Simulator.HandleCellClick | src/pages/Index.tsx:122-141 | start/target mode places the point and clears its cell; obstacle mode toggles the cell and moves the counter by one, so a counter that agreed with the grid still agrees |
| Simulation.Simulator.RandomizeGrid | src/pages/Index.tsx:143-156 | a new grid from the draws with start and target clear, and the counter equals its number of obstacles |
| Simulation.Simulator.ResetSimulation | src/pages/Index.tsx:158-170 | signals a stop and clears the run state; the obstacle count and the grid are kept |
| Simulation.Simulator.BeginRun | src/pages/Index.tsx:178-186 | the run state a launch clears before searching |
| Simulation.Simulator.SimulateFlight | src/pages/Index.tsx:172-237 | without start and target nothing changes; otherwise in dynamic mode the obstacles are exactly those of the drawn placements (3 to 5, on open cells other than start and target, no two on one cell), none otherwise, and the flight starts on a shortest route, or "No path found!" exactly when the target is unreachable |
| Simulation.Simulator.PlaceObstacles | src/pages/Index.tsx:188-194 | dynamic mode places exactly the obstacles of the drawn placements: 3 to 5, on open cells other than start and target, no two on one cell; otherwise there are none |
| Simulation.Simulator.RunSearch | src/pages/Index.tsx:196-213 | the search's outcome: a shortest route shown and flown, or the no-path status and the end of the run |
| Simulation.Simulator.ShowFlight | src/pages/Index.tsx:215-237 | statistics, explored cells and path are shown; the flight starts at index 0 with the launch-time values |
| Simulation.Simulator.FinishFlight | src/pages/Index.tsx:297-302 | "Mission complete!" unless a stop was signalled; the run is over and unpaused |
| Simulation.Simulator.FollowNewPath | src/pages/Index.tsx:270-284 | the new route replaces the old from index 0; one more replan; statistics add the new search |
| Simulation.Simulator.FlyStep | src/pages/Index.tsx:249-294 | the drone moves to its route cell; with no collision the index advances; on a collision it follows a shortest route from there if one exists, else the flight ends |
| Simulation.Simulator.DynamicStep | src/pages/Index.tsx:253-291 | obstacles move one tick; the collision test against the launch-time list decides between advancing and replanning |
| Simulation.Simulator.Replan | src/pages/Index.tsx:260-290 | a shortest route from the drone's cell to the target replaces the route, or the flight ends when the target is unreachable |
| Simulation.Simulator.FlightTick | src/pages/Index.tsx:239-302 | one loop pass: at the route's end the mission completes; a stop ends the loop; a flight paused at launch makes no progress; otherwise FlyStep's outcome, a successful replan recording the new route as the recalculated path; the recalculated path is untouched in every other case |

## Left out

- Time: `performance.now`, `timeTaken`, the `setTimeout` waits and the speed setting are not modelled. The loop is modelled one pass at a time (`FlightTick`), so the caller decides how many passes run.
- Toast notifications are not modelled; they are user interface output only.
- The exploration animation of lines 224-228 is modelled at its last frame. A stop signalled during the animation, which returns before the path is shown, is not modelled.
- Concurrency: a second launch while an earlier loop is still waiting is not modelled. `flight` holds the latest loop only.
- Randomness is a set of parameters: the terrain draws, the accepted placements and the new directions of blocked obstacles. The retry loop of lines 46-54 is the precondition `PicksOk`, so the model assumes the draws eventually succeed.
- Simulation.Simulator.FlightTick: a flight launched while paused waits forever (line 243) and only a stop ends it. The model states this as no progress; it does not model the wait itself.
- The algorithm and placement-mode setters (Index.tsx:375 and 381) are plain state assignments reached from the control panel; they are not modelled as operations, and their fields are read as they are set.
- The dynamic-mode, speed and pause setters (Index.tsx:382-387) are passed to `ControlPanel`, but its props (ControlPanel.tsx:7-16) declare none of them, so no control reaches them. Those fields change only where the handlers set them (`isPaused` is cleared at launch and reset), and the model does the same.
- Geometry.GetNeighbors, AStar.FindPathAStar, Dijkstra.FindPathDijkstra and Simulation.FindPath require `|grid| > 0`. On an empty grid the source's `getNeighbors` reads `grid[0].length` and throws a TypeError (pathfinding.ts:33) when start differs from end and start.x >= -1 (for start.x <= -2 every `newX >= 0` test fails first and nothing throws); that crash is not modelled. The page's grid is always 20 x 20.
- The rendering is not part of this model: the JSX of `src/pages/Index.tsx` from line 304, and `GridMap`, `ControlPanel`, `StatsPanel`, `RadarOverlay` and `POVCamera`.
