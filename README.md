# Maze solver: breadth-first search, path reconstruction and compass directions

This project models the `MazeSolver` class of `maze-solver/maze_solver.py`,
which finds a shortest route through a rectangular grid of one-character
cells and answers it as a string of compass letters. It has three stages:

- **`solve` and `explore`** run a breadth-first search from the start cell.
  The search keeps two parallel FIFO lists `rq`/`cq` of rows and columns, a
  `visited` matrix, a `tracker` matrix of predecessors, and the level
  counters `nodes_left`, `nodes_upcoming` and `moves`. Neighbours are tried
  up, down, left, right. `'X'` cells are walls. The search stops when a cell
  holding `'B'` is dequeued.
- **`path_generator`** walks the tracker back from the end coordinate to
  the start's marker, putting each cell in front of the path.
- **`direction_generator`** emits at most one letter per cell of the path,
  comparing it with the cell before it: none when the two cells are equal or
  differ in both coordinates. For the first cell it compares with the last
  cell of the path, because index `-1` wraps around. `execute` chains the
  three stages.

The Dafny model keeps the same form:

- `Solver.MazeSolver` is a class with the source's fields, except the
  direction vectors `dr`/`dc`, which never change and are the constants
  `Grid.DR`/`Grid.DC`. `visited` and `tracker` are `array2`s written in
  place. `rq`, `cq`, `path` and `directions` are sequences that the methods
  reassign.
- Each loop of the source is a loop here.
- Beside its real state, the search carries a ghost record:
  - `order` holds every cell ever enqueued, in order; the queue is always its suffix from `head`;
  - `head` counts the cells expanded so far;
  - `dist` gives each enqueued cell's BFS level;
  - `slot` gives each enqueued cell's place in `order`.
- Module `Search` states the BFS invariant on these values and proves it is
  kept and that it makes every level a shortest distance.
- Module `Directions` gives the letters their meaning. `Replay` follows a
  string of letters from a cell.
- Module `Grid` holds the grid, the neighbour offsets and walks. A walk is a
  sequence of cells from the start in which every later cell is open (in
  bounds and not a wall) and adjacent to the one before it.

Things proved:

- The search only enqueues open, unseen neighbours, in the fixed order.
- No cell is enqueued twice, at most R·C cells are enqueued, and the loop
  terminates.
- The level counters track BFS levels exactly.
- `solve` answers -1 exactly when no walk reaches a `'B'`. Otherwise it
  answers the length of a shortest such walk.
- The tracker chains are acyclic walks back to the start.
- The path is a shortest walk from the start to the end, with `moves + 1`
  cells.
- The letters equal the wrap-around letter (last cell to first) followed by
  one letter per step, and those step letters replay the path.

## Model

| member | source | states |
|---|---|---|
| Grid.Neighbour | maze-solver/maze_solver.py:41-42 | direction k of a cell is an adjacent cell: 0 has a smaller row (up), 1 a larger row (down), 2 a smaller column (left), 3 a larger column (right) |
| Grid.DirectionOf | maze-solver/maze_solver.py:41-42 | every adjacent cell is the neighbour in exactly the direction this names |
| Grid.NeighboursDistinct | maze-solver/maze_solver.py:41-42 | the four offsets lead to four different cells |
| Grid.GridCells | maze-solver/maze_solver.py:15-16 | an R x C grid has exactly R·C coordinates, the bound on enqueued cells |
| Grid.WalkSnoc | maze-solver/maze_solver.py:109-112 | a walk extended by an open cell adjacent to its end is a walk, as each tracker step back adds one |
| Directions.Letter | maze-solver/maze_solver.py:123-130 | the letter for a pair has at most one character from N/S/E/W. It is empty exactly when the cells are equal or differ in both coordinates. For adjacent cells it is the move that leads from the first to the second |
| Directions.Replay | maze-solver/maze_solver.py:123-130 | following k letters from a cell visits k + 1 cells starting there; this is the meaning the letters are checked against |
| Directions.TokensUpTo | maze-solver/maze_solver.py:120-130 | every letter emitted for the first k cells is one of N, S, E, W |
| Directions.TokensUpToNext | maze-solver/maze_solver.py:120-130 | handling cell k appends exactly its letter to what was emitted before |
| Directions.StepsSnoc | maze-solver/maze_solver.py:120-130 | adding a cell to a path adds the letter of the new last pair to the step letters |
| Directions.ReplaySteps | maze-solver/maze_solver.py:120-130 | a connected path has one step letter per step, and replaying them from its first cell retraces the path |
| Directions.TokensUpToSplit | maze-solver/maze_solver.py:120-130 | the letters emitted for the first k cells are the wrap-around letter (last cell to first) followed by the letters of the first k - 1 steps |
| Directions.TokensOfPath | maze-solver/maze_solver.py:120-130 | the whole output is the wrap-around letter followed by the step letters. That letter is present exactly when first and last cell differ but share a row or column. The step letters number one per step and replay the path |
| Directions.SharedRowExample | maze-solver/maze_solver.py:120-122 | for the path (0,0), (0,1), (0,2) the output is "WEE", which does not replay the path; the step letters "EE" do |
| Search.DiscoveredUpTo | maze-solver/maze_solver.py:52-61 | after the first k directions, a neighbour is discovered exactly when its direction is below k, it is in bounds and not a wall, and it was not seen before. Every discovered cell is adjacent to the expanded one |
| Search.DiscoveredInOrder | maze-solver/maze_solver.py:52-55 | discovered cells come in increasing direction order (up, down, left, right), so none repeats |
| Search.SeedEstablishes | maze-solver/maze_solver.py:75-80 | the start alone, at level 0 and not yet expanded, with `nodes_left` 1, satisfies the search invariant |
| Search.EnqueueOne | maze-solver/maze_solver.py:63-67 | enqueueing an open, unseen neighbour one level deeper keeps the bookkeeping of enqueued cells |
| Search.ExtendFacts | maze-solver/maze_solver.py:63-67 | the level map after an expansion holds exactly the old cells and the discovered ones, the latter one level deeper |
| Search.LevelsPreserved | maze-solver/maze_solver.py:90-95 | after one expansion, the first `nodes_left` queued cells are at level `moves` and the rest at `moves + 1`. When `nodes_left` drops to 0, `nodes_left` takes `nodes_upcoming`, which resets, and `moves` grows by exactly 1 |
| Search.ClosedPreserved | maze-solver/maze_solver.py:48-68 | after an expansion, every open neighbour of an expanded cell is enqueued at most one level deeper |
| Search.ExpandPreserves | maze-solver/maze_solver.py:83-95 | expanding the queue head keeps the whole search invariant |
| Search.WalkMeetsFrontier | maze-solver/maze_solver.py:83-95 | any walk from the start either ends on an expanded cell no deeper than its length, or passes a queued cell no deeper than its position |
| Search.ShortestToEnqueued | maze-solver/maze_solver.py:83-95 | no walk reaches an enqueued cell in fewer steps than its level |
| Search.NoCloserGoal | maze-solver/maze_solver.py:86-88 | while no expanded cell holds 'B', no walk reaches a 'B' in fewer than `moves` steps |
| Search.ExhaustedCoversWalks | maze-solver/maze_solver.py:83 | once the queue is empty, every walk from the start ends on an enqueued cell |
| Search.DistinctCount | maze-solver/maze_solver.py:82-84 | a general counting fact behind the R·C bound on the loop: a sequence has at most as many distinct cells as elements, and exactly as many when none repeats |
| Search.EnqueuedOnce | maze-solver/maze_solver.py:59-66 | no cell is enqueued twice |
| Search.EnqueueBound | maze-solver/maze_solver.py:82-84 | at most R·C cells are ever enqueued |
| Solver.QueueAdvance | maze-solver/maze_solver.py:84-85 | popping the front of `rq`/`cq` and appending the discovered cells leaves the queues holding `order` from `head + 1` on |
| Solver.ExploredInit | maze-solver/maze_solver.py:52 | before any direction is tried, nothing has been enqueued |
| Solver.ExploredStep | maze-solver/maze_solver.py:52-68 | trying direction i keeps queues, levels and `nodes_upcoming` equal to the start values plus exactly the cells the first i + 1 directions discover |
| Solver.SeedState | maze-solver/maze_solver.py:75-80 | after seeding, the queues hold just the start and the search invariant holds |
| Solver.ExpandStep | maze-solver/maze_solver.py:84-95 | one pass of the loop on a non-'B' head keeps the search invariant, the queue contents and the R·C bound, with the level counters updated as the source does |
| Solver.NoGoalExtended | maze-solver/maze_solver.py:86-89 | expanding a head that holds no 'B' keeps every expanded cell free of 'B' |
| Solver.GoalDequeued | maze-solver/maze_solver.py:86-88 | dequeuing a 'B' ends the search with answer `moves`, the level of that cell, and no walk to any 'B' is shorter |
| Solver.QueueExhausted | maze-solver/maze_solver.py:83 | when the queue runs dry, every enqueued cell was expanded, the answer is -1, and no walk from the start reaches a 'B' |
| Solver.SolvedAtStart | maze-solver/maze_solver.py:82-89 | when the start cell holds 'B', the search ends by dequeuing a 'B' and answers 0 |
| Solver.GoalIsEnd | maze-solver/maze_solver.py:86 | with the only 'B' at the end coordinate, the 'B' cell that stops the search is the end |
| Solver.EndUnreachable | maze-solver/maze_solver.py:137-142 | when the search finds no 'B', no walk from the start reaches the end |
| Solver.FoundPath | maze-solver/maze_solver.py:137-143 | the reconstructed path is a shortest walk to the end, and its letters are the wrap-around letter plus step letters that replay it. They never spell "Could not find goal!", and they equal the step letters when start and end differ in both coordinates |
| Solver.StartIsGoal | maze-solver/maze_solver.py:137-143 | when the start holds the only 'B', the path is the start alone and no letter is emitted |
| Solver.MazeSolver.constructor | maze-solver/maze_solver.py:11-46 | keeps the map; takes the row from component 1 and the column from component 0 of each position; the queues are empty; `moves` 0, `nodes_upcoming` 0, `nodes_left` 1; not reached; all cells unvisited and untracked; path and directions empty |
| Solver.MazeSolver.Explore | maze-solver/maze_solver.py:48-68 | expanding a cell enqueues and marks visited exactly the cells the four directions discover, in order, and counts them in `nodes_upcoming`. The tracker entry of each of them names the expanded cell, and the entries of cells enqueued before are unchanged. Queue, levels and matrices stay consistent, and other fields are unchanged |
| Solver.MazeSolver.ExploreStep | maze-solver/maze_solver.py:53-68 | one pass of the `for` loop keeps the expansion's running state: exactly the cells the directions tried so far discover are enqueued, each tracked to the expanded cell, and older tracker entries are unchanged |
| Solver.MazeSolver.Visit | maze-solver/maze_solver.py:53-68 | the neighbour in direction k is enqueued exactly when it is in bounds, unvisited and not 'X'. It is then marked visited, its tracker entry names the expanded cell, and `nodes_upcoming` grows by one; otherwise nothing changes |
| Solver.MazeSolver.Admit | maze-solver/maze_solver.py:63-68 | appends to both queues, marks visited, records the predecessor once, counts the cell, and leaves older tracker entries alone |
| Solver.MazeSolver.TrackBack | maze-solver/maze_solver.py:109-112 | following tracker entries back from an enqueued cell yields level + 1 cells from the start to that cell, the i-th at level i, so the chain has no cycle |
| Solver.MazeSolver.TrackBackUnfold | maze-solver/maze_solver.py:109-112 | an enqueued cell's tracker entry is the start's marker or an enqueued predecessor one level shallower |
| Solver.MazeSolver.TrackBackWalk | maze-solver/maze_solver.py:106-113 | the recorded cells form a walk from the start: each is open and adjacent to the one before |
| Solver.MazeSolver.TrackBackLinks | maze-solver/maze_solver.py:109-112 | the recorded cells form a chain of tracker links ending at the start's marker |
| Solver.MazeSolver.Solve | maze-solver/maze_solver.py:70-100 | answers -1 exactly when the queue empties without a 'B' being dequeued; then no walk from the start reaches a 'B'. Otherwise it answers `moves`, the level of the dequeued 'B', and no walk to a 'B' is shorter (0 when the start holds it). On both paths the search invariant, the level accounting, no repeated enqueue and the R·C bound hold, and the matrices agree with the record |
| Solver.MazeSolver.Pass | maze-solver/maze_solver.py:83-95 | one pass of the loop after popping a non-'B' cell: the record and both queues gain exactly its discovered cells, one level deeper; the level counters change as in lines 90-95; the new tracker entries name the popped cell and older entries are kept; and the whole search invariant still holds: levels, queue contents, no 'B' expanded, the R·C bound, and the matrices' agreement with the record |
| Solver.MazeSolver.Expand | maze-solver/maze_solver.py:89-95 | expanding a dequeued cell appends exactly its discovered cells to the record and to both queues, one level deeper. It then counts the cell off: `nodes_upcoming` first grows by their number; when `nodes_left` was 1 it takes that count, `nodes_upcoming` resets and `moves` grows by 1, otherwise `nodes_left` drops by 1. Each new tracker entry names the expanded cell and older entries are kept. The record stays consistent and the matrices agree with it |
| Solver.MazeSolver.CountOff | maze-solver/maze_solver.py:91-95 | decrements `nodes_left`. When it reaches 0, `nodes_left` takes `nodes_upcoming`, which resets to 0, and `moves` grows by 1 |
| Solver.MazeSolver.PathGenerator | maze-solver/maze_solver.py:102-113 | following tracker links from the end to the start's marker puts exactly the chain's cells, start first, in front of the old path; the marker itself is not kept |
| Solver.MazeSolver.DirectionGenerator | maze-solver/maze_solver.py:115-130 | appends exactly the letters of the path, the first cell compared with the last |
| Solver.MazeSolver.Execute | maze-solver/maze_solver.py:132-143 | answers "Could not find goal!" exactly when no walk reaches the end. Otherwise the path is a shortest walk from start to end with `moves + 1` cells. The answer is the wrap-around letter followed by one letter per step, and those step letters replay the path. The answer is "" when start is the end, and replays the path when they differ in both coordinates |

## Left out

- `maze-solver/racer.py` is not part of this model. It fetches mazes over HTTP, posts solutions, prints and writes a file.
- The `requests` and `json` imports of `maze_solver.py` are unused there and not modelled.
- The constructor takes the map and the two positions as parameters instead of one dictionary; the x/y to row/column swap is kept.
- A row shorter than row 0, and a start outside the map, make the source fail or index the wrong cell (negative indexes wrap in Python); a row longer than row 0 does neither, since the column count comes from row 0 and its extra cells are never looked at. The constructor requires a rectangular map and a start inside it, so longer rows are left out too. A wall at the start is allowed and searched from, as in the source.
- Solver.MazeSolver.Execute: requires the end inside the map and the only 'B' at the end. With a 'B' elsewhere, the source stops at that cell and then reads the tracker at the end coordinate, which may be unset (a crash) or belong to a different, longer route. That behaviour is not modelled.
- Solver.MazeSolver.Execute: among several shortest routes, does not say which one the path is. The source's choice follows from the up/down/left/right order and the first-discovery tracker entries, which Explore states, but that tie-break is not lifted to the whole search.
- Solver.MazeSolver.PathGenerator: requires a chain of tracker links from the end back to the start's marker, the only case where the source neither crashes nor loops.
- Solve and Execute are modelled on a freshly constructed solver. A second call, which in the source starts from the previous call's matrices and queues, is not modelled.
- The start marker `["H","H"]` is the `Home` case of the `Track` datatype, and an unset entry (`None`) is `Untracked`. The source inserts the marker in front of the path and then drops it with `path[1:]`; the model never inserts it, which leaves the same path.
- `directions` is a sequence of characters rather than a list of one-letter strings joined at the end; the two give the same string.
- Python integers are unbounded, like Dafny's, so no overflow is modelled.

## Findings

| source | as written | input that shows it | evidently intended | confidence | as-written member | corrected member |
|---|---|---|---|---|---|---|
| maze-solver/maze_solver.py:120-122 | for `i = 0`, `prev = path[-1]` compares the first cell with the last, which emits an extra leading letter whenever start and end differ but share a row or column | start (0,0), end (0,2), path (0,0), (0,1), (0,2): the answer is "WEE", and following it from the start goes to (0,-1) | one letter per step, starting at `i = 1` ("EE"), which replays the path | high; not executed | Directions.SharedRowExample | Directions.ReplaySteps |
