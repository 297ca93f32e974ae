# ASRS warehouse storage: rack, slot search and grid path planners

This project models the logic of an automated storage and retrieval system
(ASRS) and proves properties of that model. The system stores boxes on a
rack drawn as a grid of cells and sends a trolley from an origin cell to the
cells it serves. The repository holds three generations of this logic, and
all three are modelled:

- The **square-footprint rack** of the warehouse application
  (`proto/asrs/core.py`, copied verbatim into `asrs-complete.py`). It has:
  - a grid of optional box ids and the reverse map `box_locations` from an
    id to `(row, col, size)`;
  - `_can_fit`, `place_box`, `remove_box` and `get_occupied_cells`;
  - the breadth-first `find_nearest_empty_slot`;
  - the application's store step, which searches from the trolley origin and
    places the new box in the slot it finds.
- The **rectangular-footprint rack** of the prototype game
  (`proto/intial/game.py`). It has:
  - boxes of `width` rows by `length` columns;
  - ids taken from a counter, with an arrival order `box_order` for the LIFO
    and FIFO picks;
  - the row-major `find_closest_available_location`.
- Three **grid A\* planners**:
  - `a_star_path` (`pathfinding.py` and its copy): every queue entry carries
    its path, and only bounds are checked;
  - the game's `a_star_pathfinding`: parent pointers and `g_score`, bounds
    only, and the returned path leaves out the start;
  - the stand-alone `A_star.py`: paths in the entries, `'X'` obstacles, and a
    `visited` set.
- The **Manhattan distance** heuristic, the **configuration constants** and
  the **zone table**, with the row-to-zone lookup of the full application.

How the source's forms become Dafny:

- Each rack is a `class` whose fields the methods reassign. The grid is a
  `seq<seq<Option<int>>>` and the dictionaries are `map`s.
- The nested loops that write a footprint, count cells, scan anchors or run
  the searches are `while`/`for` loops with invariants.
- Each loop method is proved against a specification function on values, for
  example `Occupancy.Fill` for a footprint write and `Occupancy.GridCount` for
  the occupied count. Lemmas then prove what the source promises about those
  functions.
- `heapq` becomes a multiset from which an entry of least priority is taken
  (`Frontier.PopMin`). Which of several equal-priority entries comes out is
  left open, so every result about the planners holds for any tie order.

Modules, one per file:

| module | file |
|---|---|
| `Options` | `options.dfy` |
| `Cells` | `cells.dfy` |
| `Occupancy` | `occupancy.dfy` |
| `Frontier` | `frontier.dfy` |
| `Config` | `config.dfy` |
| `ZoneMap` | `zones.dfy` |
| `AsrsRack` | `asrs_rack.dfy` |
| `Pathfinding` | `pathfinding.dfy` |
| `GameRack` | `game_rack.dfy` |
| `GamePathfinding` | `game_astar.dfy` |
| `AStar` | `astar.dfy` |

## Model

| member | source | states |
|---|---|---|
| Cells.Manhattan | pathfinding.py:9-11 | The distance is a natural number, and it is zero exactly when the two cells are equal. |
| Cells.ManhattanSymmetric | pathfinding.py:9-11 | The distance from a to b equals the distance from b to a. |
| Cells.ManhattanConsistent | pathfinding.py:9-11 | For any fixed goal, the distances of two 4-adjacent cells differ by exactly one, so the heuristic is consistent. |
| Cells.ManhattanTriangle | proto/intial/game.py:165-166 | The distance obeys the triangle inequality. |
| Cells.WalkLength | A_star.py:7-9 | Any walk of 4-adjacent cells has at least as many moves as the distance between its ends, so the heuristic never overestimates. |
| Cells.AdjacentIsStep | proto/asrs/core.py:44-45 | A cell is one move from another exactly when it is one of the four direction steps. |
| Cells.Toward | proto/asrs/core.py:44-45 | From any cell other than a target, some direction step brings it one closer to the target and stays inside any grid that holds both. |
| Cells.ReachesAll | proto/asrs/core.py:43-47 | Take a visited set that holds the origin and is closed under in-bounds moves, except for waiting cells farther than d. It holds every in-bounds cell within d of the origin. With nothing waiting, it holds the whole grid. |
| Cells.ReversedWalk | proto/intial/game.py:182-187 | Reversing a walk gives a walk. |
| Occupancy.EmptyGrid | proto/asrs/core.py:24 | The new grid has rows × cols cells, and every cell is empty. |
| Occupancy.Fill | proto/asrs/core.py:64-66 | The written grid keeps its shape. Every cell of the footprint holds the new value, and every other cell keeps its old value. |
| Occupancy.FillCount | proto/asrs/core.py:62-67 | Filling a free footprint raises the number of occupied cells by exactly height × width. |
| Occupancy.ClearCount | proto/asrs/core.py:73-80 | Clearing a footprint whose cells all hold one id lowers the number of occupied cells by exactly its area. |
| Occupancy.GridCountReplace | proto/asrs/core.py:82-89 | Raising the occupied count of n consecutive rows by w each, and changing no other row, raises the grid's count by n × w. |
| Occupancy.FillRoundTrip | proto/asrs/core.py:62-80 | Filling a free footprint and then clearing it gives back the original grid. |
| Occupancy.EmptyOwned | proto/asrs/core.py:21-25 | The empty grid with no recorded boxes satisfies the ownership invariant. |
| Occupancy.PlaceKeepsOwned | proto/asrs/core.py:62-67 | Placing a fresh id on a free footprint keeps the ownership invariant: each recorded footprint holds its own id, and each occupied cell belongs to the footprint recorded for its id. |
| Occupancy.ClearKeepsOwned | proto/asrs/core.py:69-80 | Clearing a recorded footprint and deleting its id keeps the ownership invariant. |
| Occupancy.PlacedBlocksOverlap | proto/asrs/core.py:51-67 | After a placement, no footprint that shares a cell with the placed one is free. |
| Frontier.PopMin | pathfinding.py:23 | The popped entry is in the queue and no entry has a smaller key, and the rest of the queue is the queue minus that one entry. |
| Config.OriginInGrid | proto/asrs/config.py:16-21 | The origin (GRID_ROWS - 1, 0) is a cell of the 30 × 25 grid. |
| Config.ModelZonesTileGrid | proto/asrs/config.py:16-28 | Every zone range is non-empty, and each starts one row after the previous one ends. The first starts at row 0 and the last ends at row GRID_ROWS - 1. |
| ZoneMap.ZoneForRow | proto/intial/asrs_complete/asrs-complete.py:1666-1672 | The lookup finds nothing exactly when no range holds the row. Otherwise it returns the id of a zone whose range holds the row, and no earlier zone's range holds it. |
| ZoneMap.ZonesIncreasing | proto/asrs/config.py:23-29 | In a table of consecutive non-empty ranges, every earlier range ends before any later one starts. |
| ZoneMap.ZonesCover | proto/asrs/config.py:23-29 | Consecutive non-empty ranges cover every row from the first start to the last end. |
| ZoneMap.PartitionLookup | proto/intial/asrs_complete/asrs-complete.py:1666-1672 | When the table tiles an interval, each row in it lies in exactly one zone and the lookup returns that zone. Rows outside the interval get no zone. |
| ZoneMap.ModelZoneForRow | proto/asrs/config.py:16-29 | Under the actual zone table, a row has a zone exactly when it is a grid row. That zone is the only one whose range holds the row. |
| AsrsRack.Rack.constructor | proto/asrs/core.py:21-25 | The new rack has the given size, an empty grid and an empty box_locations map, and it satisfies the ownership invariant. |
| AsrsRack.Rack.CanFit | proto/asrs/core.py:51-60 | `_can_fit` answers true exactly when the size × size square lies inside the grid and all of its cells are empty. It is false whenever row + size > rows or col + size > cols. The verbatim copy at proto/intial/asrs_complete/asrs-complete.py:270-279 behaves the same. |
| AsrsRack.Rack.PlaceBox | proto/asrs/core.py:62-67 | For a square the caller found free: the id is written into exactly its cells, every other cell is unchanged, and the map records (row, col, size). The occupied count rises by size × size. When the id is fresh, the ownership invariant is kept. The verbatim copy at proto/intial/asrs_complete/asrs-complete.py:281-286 behaves the same. |
| AsrsRack.Rack.RemoveBox | proto/asrs/core.py:69-80 | An unknown id returns false and changes neither the grid nor the map. A known id returns true: its square is cleared, its entry is deleted, and the occupied count falls by size × size. The ownership invariant is kept. The verbatim copy at proto/intial/asrs_complete/asrs-complete.py:288-299 behaves the same. |
| AsrsRack.Rack.OccupiedCells | proto/asrs/core.py:82-89 | The counting loop returns the number of non-empty cells of the grid. The verbatim copy at proto/intial/asrs_complete/asrs-complete.py:301-308 behaves the same. |
| AsrsRack.Rack.FindNearestEmptySlot | proto/asrs/core.py:27-49 | From an in-bounds origin, a returned cell is one where the square fits, and no fitting cell is closer to the origin in Manhattan distance. The origin itself is returned when the square fits there. None is returned exactly when no cell fits. The verbatim copy at proto/intial/asrs_complete/asrs-complete.py:246-268 behaves the same. |
| AsrsRack.Rack.Neighbours | proto/asrs/core.py:44-47 | The loop appends the in-bounds neighbours, in direction order, each one farther than the popped entry. |
| AsrsRack.Expansion | proto/asrs/core.py:44-47 | Every appended entry is an in-bounds neighbour at distance d + 1, and every in-bounds neighbour is appended. |
| AsrsRack.SearchStart | proto/asrs/core.py:29-30 | The initial queue, holding the origin at distance 0, satisfies the search invariant. |
| AsrsRack.SearchSkip | proto/asrs/core.py:33-36 | Popping an entry whose cell was already visited keeps the invariant. |
| AsrsRack.SearchExpand | proto/asrs/core.py:37-47 | Marking a popped cell that does not fit as visited and appending its neighbours keeps the invariant. The invariant says: visited cells do not fit, entries carry their true distances, the queue is ordered and spans two layers, and every cell closer than the front of the queue is visited. |
| AsrsRack.SearchFound | proto/asrs/core.py:40-41 | An unvisited cell at the front of the queue is at least as close to the origin as every fitting cell. |
| AsrsRack.SearchExhausted | proto/asrs/core.py:32-49 | When the queue is empty, no cell of the grid fits. |
| AsrsRack.LayerDone | proto/asrs/core.py:43-47 | Once every waiting cell that is not yet visited lies farther than d, all cells within d of the origin are visited. |
| AsrsRack.LayeredAppend | proto/asrs/core.py:33-47 | Taking the front of a queue at distance d and appending entries at d + 1 keeps the queue ordered within two layers. |
| AsrsRack.StoreItem | proto/intial/asrs_complete/asrs-complete.py:1499-1530 | The search runs from the configured origin. With no slot found, the rack is unchanged and no cell fits. Otherwise the slot fits, no fitting cell is nearer the origin in Manhattan distance, and the slot is the origin itself whenever the square fits there. The new box's square is written at the slot and recorded. The ownership invariant is kept. |
| AsrsRack.PlaceThenRemove | proto/asrs/core.py:62-80 | Placing a fresh id where its square fits and then removing it succeeds, and leaves the grid and box_locations exactly as they were. |
| Pathfinding.AStarPath | pathfinding.py:13-43 | A returned path starts at start, ends at end, steps between 4-adjacent cells and stays inside the grid after its first cell, and its cost is len(path) - 1. If start equals end, the result is ([start], 0). For in-bounds endpoints a path is always found, with cost equal to the Manhattan distance, which is the least possible. An out-of-bounds end other than start gives None. The rack is only read. The verbatim copy at proto/intial/asrs_complete/asrs-complete.py:318-348 behaves the same. |
| Pathfinding.PushNeighbours | pathfinding.py:33-41 | The loop pushes exactly the entries the specification function Pushes describes. |
| Pathfinding.PushesSound | pathfinding.py:37-41 | Every pushed entry extends the popped one by one move to an in-bounds neighbour, with cost + 1 and the heuristic added to its priority. |
| Pathfinding.PushesComplete | pathfinding.py:37-41 | Every in-bounds neighbour gets its entry. |
| Pathfinding.PushValid | pathfinding.py:39-41 | Extending a valid entry by one in-bounds move gives a valid entry: a walk from start of cost + 1 cells, and priority = cost + heuristic. |
| Pathfinding.EntryLowerBound | pathfinding.py:15-19 | No valid entry has a priority below the distance between the endpoints. |
| Pathfinding.TightExists | pathfinding.py:22-41 | While both endpoints are in bounds, the queue holds an entry whose priority is exactly the distance between them, so the search never runs dry. |
| Pathfinding.PopTight | pathfinding.py:23-26 | A popped entry of least priority is valid. When both endpoints are in bounds, its priority equals the distance between them. |
| Pathfinding.SearchSkip | pathfinding.py:28-29 | Dropping an entry for a visited cell keeps the search invariant. |
| Pathfinding.SearchExpand | pathfinding.py:30-41 | Visiting a popped cell and pushing its neighbours keeps the search invariant. |
| Pathfinding.ExpandProgress | pathfinding.py:30-41 | After an expansion, every visited cell's move toward the end is visited or carried by an entry of least possible priority. |
| GameRack.Box.constructor | proto/intial/game.py:36-39 | A new box has the given length and width and no id yet. |
| GameRack.Rack.constructor | proto/intial/game.py:50-57 | The new rack is empty, the counter starts at 1, box_order is empty, and the bookkeeping invariant holds. |
| GameRack.Rack.CanPlaceBox | proto/intial/game.py:59-71 | The answer is true exactly when the width × length footprint lies inside the grid and every one of its cells is empty. |
| GameRack.Rack.PlaceBox | proto/intial/game.py:73-91 | If the footprint does not fit, the call returns false and the rack and box are unchanged. Otherwise the box gets the old counter as its id and the counter goes up by one. The footprint is filled with that id. The box is recorded in boxes and box_positions, and its id is appended to box_order. The bookkeeping invariant is kept. |
| GameRack.Rack.RemoveBox | proto/intial/game.py:93-111 | An unknown id returns false and changes nothing. A known id returns true: its footprint is cleared, and the id is deleted from boxes and box_positions and removed from box_order. The counter is unchanged and the bookkeeping invariant is kept. |
| GameRack.Rack.FillFootprint | proto/intial/game.py:83-85 | The nested loop writes the value into exactly the footprint's cells and leaves every other field unchanged. |
| GameRack.Rack.LifoBox | proto/intial/game.py:113-116 | Returns None exactly when no box is stored. Otherwise it returns a stored id that is at least every stored id, which is the most recent arrival. |
| GameRack.Rack.FifoBox | proto/intial/game.py:118-121 | Returns None exactly when no box is stored. Otherwise it returns a stored id that is at most every stored id, which is the earliest arrival. |
| GameRack.Rack.OccupiedCells | proto/intial/game.py:138-139 | The number of non-empty cells equals the total footprint area of the stored boxes. |
| GameRack.Rack.FindClosestAvailableLocation | proto/intial/game.py:123-136 | A returned anchor is one where the box fits, at least as close to the origin as every fitting anchor, and strictly closer than every fitting anchor before it in row-major order. None is returned exactly when nothing fits. |
| GameRack.ScanNext | proto/intial/game.py:129-134 | Examining one anchor, and keeping it only if it fits and is strictly closer, extends the scan invariant by that anchor. |
| GameRack.ScanRow | proto/intial/game.py:127-128 | No anchor past the last column the loop tries can fit, so the scan moves to the next row. |
| GameRack.ScanEnd | proto/intial/game.py:127 | No anchor past the last row the loop tries can fit, so the scan has seen every fitting anchor. |
| GameRack.PlaceKeeps | proto/intial/game.py:73-91 | A placement keeps the bookkeeping invariant. It states: boxes, box_positions and box_order hold the same ids; box_order is increasing, so it has no duplicates; every id lies in [1, next_box_id); the grid holds exactly the recorded footprints; and the occupied count is their total area. |
| GameRack.RemoveKeeps | proto/intial/game.py:93-111 | A removal keeps the same bookkeeping invariant. |
| GameRack.RemoveFirstMultiset | proto/intial/game.py:109 | `list.remove` takes away exactly one occurrence of the id. |
| GameRack.RemoveFirstIncreasing | proto/intial/game.py:109 | On an increasing list, `remove` keeps the list increasing and keeps exactly the other elements. |
| GameRack.IncreasingEnds | proto/intial/game.py:113-121 | The first and last elements of an increasing list are its least and greatest elements. |
| GameRack.IncreasingAppend | proto/intial/game.py:89 | Appending an id above every listed one keeps the order increasing. |
| GameRack.AreaAppend | proto/intial/game.py:87-89 | Appending an id adds its footprint area to the total. |
| GameRack.AreaRemove | proto/intial/game.py:107-109 | Removing an id subtracts its footprint area from the total. |
| GameRack.EmptyCount | proto/intial/game.py:53 | The empty grid has no occupied cells. |
| GamePathfinding.AStarPathfinding | proto/intial/game.py:168-210 | If start equals goal, the result is []. A non-empty result leaves out start, ends at goal, prefixed with start forms a walk of 4-adjacent cells, and stays in bounds. For in-bounds endpoints that differ, the result is never empty. An out-of-bounds goal other than start gives []. The search terminates. |
| GamePathfinding.ExpandNeighbours | proto/intial/game.py:189-208 | After the neighbour loop, the parent tree and the queue invariant hold, costs only go down, and the queue is unchanged when no cost changed. |
| GamePathfinding.RelaxKeeps | proto/intial/game.py:202-207 | Giving a neighbour a better cost through the current cell keeps the parent tree. Each non-start cell with a cost has an adjacent parent of lower cost, and f = g + heuristic. |
| GamePathfinding.RelaxStep | proto/intial/game.py:204-208 | A relaxing neighbour extends the loop invariant by one direction. |
| GamePathfinding.SkipStep | proto/intial/game.py:199-204 | An out-of-bounds neighbour, or one whose cost does not improve, extends the loop invariant and changes nothing. |
| GamePathfinding.ScanDone | proto/intial/game.py:196-208 | After all four directions the current cell is expanded, so the queue invariant holds for every costed cell. |
| GamePathfinding.PopQueue | proto/intial/game.py:179 | Popping an entry for a non-goal cell keeps the queue invariant, with that cell as the one being expanded. |
| GamePathfinding.RelaxQueue | proto/intial/game.py:206-208 | Setting a cost and pushing an entry for it keeps the queue invariant. |
| GamePathfinding.Reconstruct | proto/intial/game.py:181-187 | Following came_from back from the goal, reversing and dropping start gives [] when start equals goal. Otherwise it gives a non-empty in-bounds path ending at goal that forms a walk from start. |
| GamePathfinding.Exhausted | proto/intial/game.py:178-210 | If the queue runs dry with every costed cell expanded, the start and the goal cannot both be in bounds. |
| GamePathfinding.Decreasing | proto/intial/game.py:178-208 | Each round of the main loop either costs a new cell, lowers a cost, or only pops an entry, so the loop terminates. |
| GamePathfinding.PotentialShrinks | proto/intial/game.py:204-206 | Lowering a cost strictly shrinks the set of (cell, k) pairs with k below that cell's cost. |
| AStar.AStarPathfinding | A_star.py:11-94 | A returned path starts at start and ends at goal. Its cells are 4-adjacent, and every cell after start is in bounds and not 'X'. It is no longer than any such walk, so its move count is the shortest over non-obstacle cells. None is returned exactly when no such walk exists. If start equals goal, the result is [start]. |
| AStar.PushNeighbours | A_star.py:65-89 | The loop pushes exactly the entries the specification function Pushes describes. |
| AStar.PushesSound | A_star.py:69-89 | Every pushed entry extends the popped one by one move to a free, unvisited neighbour. |
| AStar.PushesComplete | A_star.py:69-89 | Every free, unvisited neighbour gets its entry. |
| AStar.FreeCheck | A_star.py:69-75 | The source's bounds check followed by its 'X' check decides exactly whether a cell is in bounds and not an obstacle. |
| AStar.PushCarries | A_star.py:82-89 | A pushed entry carries a walk of its cost, and its priority is its cost plus the heuristic. |
| AStar.PopOptimal | A_star.py:36-55 | The cell of an unvisited popped entry of least priority cannot be reached in fewer moves than the entry's cost. |
| AStar.SearchSkip | A_star.py:43-46 | Popping an entry for a visited cell keeps the search invariant. |
| AStar.SearchExpand | A_star.py:48-89 | Visiting a popped cell, recording its cost and pushing its free, unvisited neighbours keeps the search invariant: every entry carries a walk, every visited cell is settled at its least cost, and every free neighbour of a visited cell is offered. |
| AStar.Exhausted | A_star.py:93-94 | When the heap is empty, no walk over free cells reaches the goal. |
| AStar.LeaveBound | A_star.py:36-38 | A walk to the cell of a least-priority entry leaves the visited cells at a cell the heap offers cheaply enough. So the entry's cost is at most the walk's length. |
| AStar.FirstLeave | A_star.py:43-48 | A walk that starts inside a set and ends outside it leaves the set at some move. |
| AStar.EmptyGridExample | A_star.py:154-171 | On example 1's empty 5 × 5 grid, the path from (0,0) to (4,4) has 9 cells, which is 8 moves. |
| AStar.EdgeWalk | A_star.py:154-163 | Example 1's grid has an 8-move walk between its corners. |
| AStar.WalledInExample | A_star.py:237-252 | In example 4, a start walled in by 'X' on all four sides has no path, so the result is None. |

## Left out

- User interface, persistence and demo code. Not modelled because they are
  presentation and external I/O, not logic:
  - Qt windows, widgets and 3D/matplotlib rendering;
  - the sqlite database and CSV export;
  - JSON save/load and `to_dict`/`from_dict`;
  - timer-driven animations;
  - the prints, `print_grid_with_path` and the demo script of `A_star.py`.
- Floating point:
  - `find_closest_available_location` compares `math.sqrt` of the squared
    distance. The model compares the squared integer distance, which gives
    the same order and so the same argmin and tie resolution.
  - Its initial `float('inf')` becomes `None`.
  - `a_star_path`'s `([], inf)` answer becomes `None`.
  - Capacity percentages and efficiency scores are not modelled.
- `heapq` tie-breaking: Python compares the remaining tuple fields of
  equal-priority entries, and the model leaves that order open. Which of
  several shortest paths a planner returns is therefore not determined.
- AsrsRack.Rack.FindNearestEmptySlot: requires an in-bounds origin. Python
  would wrap negative indices at an out-of-bounds origin.
- AsrsRack.Rack.PlaceBox: requires the footprint to be free, because the
  source does no collision check and its only caller passes a slot that
  `_can_fit` accepted. The ownership invariant is promised only for a fresh
  id.
- AsrsRack.StoreItem: takes the database's fresh row id as a parameter, and
  takes the footprint side `max(length, width)` as a parameter instead of
  reading it from the database. The database insert, the distance log and
  the alerts are not modelled.
- GamePathfinding.AStarPathfinding: the path it returns is not proved
  shortest, because the source makes no such promise. Its queue may hold
  stale entries, and a cell is expanded again when one of them is popped.
  The model does this too. The grid's contents are never read, so the grid
  appears only through its row count and first-row length.
- AStar.AStarPathfinding: requires every row to be at least as long as the
  first. For ragged grids the source could index out of range, and that
  error path is not modelled.
- AStar.AStarPathfinding: requires a non-empty grid. On an empty grid the
  source raises `IndexError` at `len(grid[0])`, and that error path is not
  modelled.
- GamePathfinding.AStarPathfinding: requires a non-empty grid. On an empty
  grid the source raises `IndexError` at `len(grid[0])`, and that error path
  is not modelled.
- GameRack.Box.constructor: does not take the optional `box_id` argument,
  which only `from_dict` supplies.
- The zone lookup returns a zone id, or `None` where the source returns a
  fallback colour. Colours and names of the zone table are not modelled.
- The game's own grid constants (20 × 20, proto/intial/game.py:16-22) are
  not modelled. The racks take their size as constructor arguments.
