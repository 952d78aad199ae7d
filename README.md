# Maze simulator: breadth-first search engine and maze generator in Dafny

This project models the logic behind a maze simulator that teaches breadth-first
search (BFS). The model has two parts:

- **The engine `BFSEngine`.** It takes a grid of cells: 0 free, 1 wall, 2 start,
  3 target. It finds the start and the target, then explores the grid one
  `step()` at a time. Each step dequeues a cell and discovers that cell's
  unvisited non-wall neighbours, in the order up, right, down, left. The engine
  records a parent map, a depth map and a list of tree edges. `getShortestPath()`
  follows the parent links back from the target, and `getState()` returns a
  snapshot.
- **The generator `generateRandomMaze`.** It builds a grid with a wall border
  and random interior walls. The start goes at (1, 1) and the target at
  (rows - 2, cols - 2). A random walk then carves a free path from the start to
  the target.

The project has these modules:

- `GridModel` (grid.dfy): cells, coordinates, the engine's `isValid`, four-neighbour
  adjacency, walks, and the neighbour scan order.
- `BFSSearch` (bfs_search.dfy): the engine as a transition system on values.
  - `Initial` is the state after construction.
  - `Step` is one `step()`, with `Expand` and `Discover` for the neighbour loop.
  - `Inv` is the invariant of every reachable state: the discovery tree, the
    edge list, the queue and BFS layering, closed cells, and how the search
    ended.
  - Lemmas prove that the invariant is preserved, and what each kind of step does.
  - Lemmas prove that depths are shortest distances.
  - Lemmas prove that the reported path is a shortest walk.
  - Lemmas prove that an exhausted search has visited every reachable cell.
  - A measure proves that the step loop terminates.
- `Engine` (bfs_engine.dfy): class `BFSEngine`.
  - `visited` is a two-dimensional array written in place.
  - The queue, parent map, depth map and tree-edge list are fields that the
    methods reassign.
  - Each method is proved to perform exactly the transition of `BFSSearch`.
- `Stats` (stats.dfy): the counts shown by the statistics view. When the grid
  has a start, the visited flags in a snapshot number exactly one more than
  the tree edges. On a grid with no start the view disagrees with itself: it
  shows 0 visited nodes but 1 tree node, because "Tree Nodes" is always
  `treeEdges.length + 1`.
- `MazeGenerator` (maze_generator.dfy): the generator as a method with loops.
  - It is proved equal to a cell-by-cell description `Maze`.
  - `Maze` is a function with the maze's shape properties.
  - Lemmas prove that the walker's route is a walk of non-wall cells from the
    start to the target.
- `MazeSearch` (maze_search.dfy): the two parts together.
  - The app's step loop always terminates.
  - On any generated maze larger than 3 by 3, a search run to completion finds
    the target, and the reported path is a shortest walk.

The generator's randomness becomes two input sequences. `walls[r][c]` says
whether interior cell (r, c) starts as a wall (the `Math.random() < wallProb`
test). `moves[k]` says whether the walker's k-th move changes the row (the
`Math.random() > 0.5` test).

## Model

| member | source | states |
|---|---|---|
| GridModel.Neighbor | src/logic/BFSEngine.js:56-61 | The i-th cell of the scan (offsets up, right, down, left) is four-adjacent to the current cell |
| GridModel.DirectionTo | src/logic/BFSEngine.js:55-61 | Every four-adjacent cell is one of the four scanned neighbours, so the loop misses no neighbour |
| GridModel.FirstOccurrenceUnique | src/logic/BFSEngine.js:29-36 | A grid determines its row-major first occurrence of a value, so `findNode` has only one correct answer |
| Engine.BFSEngine.FindNode | src/logic/BFSEngine.js:29-36 | Returns the first cell in row-major order that holds the value, or None when no cell holds it |
| Engine.BFSEngine.constructor | src/logic/BFSEngine.js:2-27 | Records the first start and the first target. With a start, only the start is queued and visited, at depth 0. Parents and edges are empty, current is null, found and finished are false. With no start everything is empty. The engine invariant holds |
| Engine.BFSEngine.Step | src/logic/BFSEngine.js:38-84 | The new fields and the result are exactly one `BFSSearch.Step` of the old state, and the engine invariant (tree, edges, queue, layers, outcome) is kept |
| Engine.BFSEngine.Transition | src/logic/BFSEngine.js:39-53 | The finished or empty-queue exit, the dequeue into current, the target check and the expansion agree with `BFSSearch.Step` |
| Engine.BFSEngine.ExpandNeighbors | src/logic/BFSEngine.js:55-81 | The four-iteration neighbour loop leaves the state `BFSSearch.Expand` gives after all four neighbours, and the visited array still mirrors the visited set |
| Engine.BFSEngine.VisitNeighbor | src/logic/BFSEngine.js:60-80 | A neighbour that passes `isValid` and is unvisited is marked visited in the array, queued, given a parent and depth + 1, and gets one tree edge. Any other neighbour changes nothing |
| Engine.BFSEngine.GetShortestPath | src/logic/BFSEngine.js:94-106 | Returns `BFSSearch.ShortestPath`: empty unless found, otherwise the parent chain from start to target |
| Engine.BFSEngine.TraceBack | src/logic/BFSEngine.js:97-105 | Following parent links from x and stopping at the start, then reversing, yields exactly the chain P from the start to x. The loop ends because each round moves one cell down the chain |
| Engine.BFSEngine.GetState | src/logic/BFSEngine.js:108-119 | The snapshot holds the grid, the visited flags, current, queue, tree edges, found and finished. The shortest path is included only when finished and found, otherwise it is empty |
| Engine.BFSEngine.CopyVisited | src/logic/BFSEngine.js:111 | The row-by-row copy of the visited array is the rows × cols matrix of the visited set |
| Engine.VisitedMatrix | src/logic/BFSEngine.js:11 | A rows × cols matrix whose (r, c) flag is set exactly when (r, c) is visited |
| BFSSearch.Initial | src/logic/BFSEngine.js:10-26 | The state the constructor builds: only the start (if any) is visited and queued, at depth 0, with no parents, no edges, no current cell, and found and finished false. InitialInv proves it satisfies the invariant |
| BFSSearch.Discover | src/logic/BFSEngine.js:63-80 | One pass of the neighbour loop: a valid unvisited neighbour is visited, appended to the queue, linked to the current cell and given its depth + 1; any other neighbour leaves the state unchanged. Visited and edges only grow |
| BFSSearch.Expand | src/logic/BFSEngine.js:59-81 | The first k passes of the neighbour loop keep the current cell's depth. ExpandRecords states exactly what they record |
| BFSSearch.Step | src/logic/BFSEngine.js:38-84 | `step()` on values: it returns true exactly when the search is not finished and the queue is not empty, a true step makes the old head current, and afterwards found holds exactly when it held before or the dequeued head is the target. StepWhenDone, StepOnTarget, StepExpands and StepPreservesInv state the rest |
| BFSSearch.InitialInv | src/logic/BFSEngine.js:21-26 | The state after construction satisfies the invariant |
| BFSSearch.StepPreservesInv | src/logic/BFSEngine.js:38-84 | Every step keeps the invariant: every queued cell is visited and has a depth, each cell is the `to` of at most one tree edge, and visited cells number one more than edges. Queue depths are non-decreasing and within one layer. Every closed cell's open neighbours are visited. `found` means the target is current |
| BFSSearch.StepWhenDone | src/logic/BFSEngine.js:39-42 | When finished or the queue is empty, the step only sets finished and returns false, and a second step changes nothing (idempotent) |
| BFSSearch.StepOnTarget | src/logic/BFSEngine.js:45-53 | Dequeuing the target makes it current, sets found and finished, returns true and discovers no neighbour |
| BFSSearch.StepExpands | src/logic/BFSEngine.js:55-83 | Dequeuing any other cell makes it current and returns true. Its valid unvisited neighbours, in scan order, are appended to the rest of the queue, marked visited, given it as parent and its depth + 1, and each gets one edge. No other parent, depth or visited flag changes |
| BFSSearch.ExpandRecords | src/logic/BFSEngine.js:59-81 | After the first k neighbour iterations, exactly the fresh cells among the first k neighbours are recorded, in order, on top of the state before the loop |
| BFSSearch.FreshNeighborsValid | src/logic/BFSEngine.js:59-63 | The neighbours that pass `isValid` and are unvisited are open, not yet seen, adjacent to the current cell and pairwise distinct |
| BFSSearch.FreshNeighborsComplete | src/logic/BFSEngine.js:59-63 | Every one of the first k neighbours that is open and unvisited is among them |
| BFSSearch.FreshNeighborsBeyond | src/logic/BFSEngine.js:59-63 | No neighbour after the k-th in scan order is among the first k fresh ones |
| BFSSearch.EdgesToAt | src/logic/BFSEngine.js:75-79 | One edge per discovered cell, in discovery order, from the current cell to that cell, at the discovered depth |
| BFSSearch.StepMonotone | src/logic/BFSEngine.js:63-72 | Across any step, visited never reverts, tree edges are only appended, a depth or parent once set never changes, and a finished search stays unchanged. The depth of successive current cells never decreases |
| BFSSearch.FrontierFacts | src/logic/BFSEngine.js:45-65 | Every visited cell that is not yet expanded is on the frontier, no shallower than its head, and no visited cell is more than one layer below the head |
| BFSSearch.WalkBound | src/logic/BFSEngine.js:71-72 | For any walk from the start, a visited end cell has depth at most the walk's length, and an unvisited end cell lies beyond the frontier |
| BFSSearch.NoShorterWalk | src/logic/BFSEngine.js:71-72 | No walk from the start to a visited cell has fewer edges than the cell's depth |
| BFSSearch.PathTo | src/logic/BFSEngine.js:97-105 | The parent chain from the start to x is a walk of depth(x) + 1 cells, the i-th at depth i. With NoShorterWalk, depth(x) is the shortest distance |
| BFSSearch.ShortestPath | src/logic/BFSEngine.js:94-106 | Empty unless found. When found it walks from start to target, is depth(target) + 1 cells long, repeats no cell, and is no longer than any other walk between them |
| BFSSearch.ShortestPathChain | src/logic/BFSEngine.js:97-105 | Read backwards, the reported path is the parent chain from the target, and only its first cell is the start |
| BFSSearch.ExhaustedMeansUnreachable | src/logic/BFSEngine.js:39-42 | A search that finished without finding the target has visited every cell that a walk from the start can reach, and no walk from start to target exists |
| BFSSearch.StepDecreases | src/logic/BFSEngine.js:38-84 | Every step that returns true lowers a natural-number measure, and a step that returns false leaves the search finished |
| Stats.VisitedCount | src/components/SearchStatsModal.jsx:21 | Counting the set flags of the visited matrix counts the visited cells |
| Stats.VisitedCellsAreTreeNodes | src/components/SearchStatsModal.jsx:89 | In a reachable state with a start, the visited count equals the "Tree Nodes" figure, tree edges + 1. Without a start there are no visited cells and no edges, so the view shows 0 visited nodes but 1 tree node |
| MazeGenerator.Advance | src/logic/MazeGenerator.js:40-48 | A move changes at most the chosen coordinate, by one, towards the target. The Manhattan distance never grows, and it shrinks by one when the chosen axis is not aligned. The walker stays in the box between start and target |
| MazeGenerator.MoveTowards | src/logic/MazeGenerator.js:40-48 | The row or column move of the walk loop is the move Advance describes |
| MazeGenerator.Trail | src/logic/MazeGenerator.js:35-49 | The cells the walker stands on at line 37: starting at the start, never the target, inside the box between start and target |
| MazeGenerator.ReachesIff | src/logic/MazeGenerator.js:36-49 | The walk reaches the target if and only if the move oracle holds enough row moves for the row distance and enough column moves for the column distance |
| MazeGenerator.Route | src/logic/MazeGenerator.js:35-49 | The walker's positions without repeats form a chain of adjacent cells from the start, every cell on the trail or the last, and the last is the target when the walk reaches it |
| MazeGenerator.FillCell | src/logic/MazeGenerator.js:10-13 | The fill loop's value for a cell is a wall or free, and free exactly for an interior cell that the wall oracle leaves open |
| MazeGenerator.MazeCell | src/logic/MazeGenerator.js:21-50 | A cell's final value lies in 0..3. It is the target exactly at (rows-2, cols-2), and the start exactly at (1, 1) unless the target coincides with it. Any other cell on the walker's trail is free |
| MazeGenerator.Maze | src/logic/MazeGenerator.js:1-53 | The grid is rows × cols with values 0..3 and a wall border. The target is at (rows-2, cols-2) and nowhere else. The start is at (1, 1) and nowhere else, except that the 3 × 3 target overwrites it. Interior cells the walk never touched keep their random wall or free value |
| MazeGenerator.CarvedShape | src/logic/MazeGenerator.js:6-25 | Any grid filled from the wall oracle, marked with start and target and carved along an interior trail that avoids the target has Maze's shape |
| MazeGenerator.MazeTrailCell | src/logic/MazeGenerator.js:37 | A cell the walker stands on is interior, and it ends free or as the start |
| MazeGenerator.MazeCarved | src/logic/MazeGenerator.js:31-50 | With a fair move oracle, every trail cell ends free or as the start, and the walker's route is a walk of non-wall cells from start to target |
| MazeGenerator.GenerateRandomMaze | src/logic/MazeGenerator.js:1-53 | The fill loop, the start and target placement, the walk and the final target write produce exactly Maze |
| MazeGenerator.CarveWalk | src/logic/MazeGenerator.js:35-49 | The walk loop terminates on a fair oracle, and it leaves the filled grid carved along exactly the walker's trail |
| MazeSearch.MazeEndpoints | src/logic/MazeGenerator.js:20-25 | In a maze larger than 3 × 3, `findNode` finds the start at (1, 1) and the target at (rows-2, cols-2) |
| MazeSearch.Maze3x3 | src/logic/MazeGenerator.js:20-25 | In the 3 × 3 maze no start remains, so the first step returns false and finds nothing |
| MazeSearch.MazeAlwaysFound | src/logic/MazeGenerator.js:31-50 | On a maze larger than 3 × 3, every finished search has found the target |
| MazeSearch.Run | src/App.jsx:38-45 | Repeating `step()` from a reachable state until it returns false is well defined (it terminates by StepDecreases), keeps the invariant, and ends in a finished state |
| MazeSearch.RunToCompletion | src/App.jsx:38-45 | Calling `step()` until it returns false terminates. It leaves the engine valid and finished, in exactly the state `MazeSearch.Run` reaches from the old state, so the tree, the edges and the path shown afterwards are determined |
| MazeSearch.SolveMaze | src/App.jsx:92-93 | A new maze, a new engine and the search run to completion together give found, and the reported path is a shortest walk from (1, 1) to (rows-2, cols-2) |

## Left out

- Randomness: `Math.random()` is replaced by the oracles `walls` and `moves`. The `wallProb` parameter and its floating-point comparison are not modelled. Only the resulting wall flag is modelled.
- MazeGenerator.GenerateRandomMaze: requires the move oracle to hold at least rows - 3 row moves and cols - 3 column moves. The source's loop ends with probability one but not for every sequence of coin flips. ReachesIff shows that this requirement is exactly the condition for the walk to end.
- MazeGenerator.GenerateRandomMaze: requires rows ≥ 3 and cols ≥ 3. For smaller sizes the start or target lands on or outside the border. With rows ≤ 1 the start write `grid[1][1] = 2` (src/logic/MazeGenerator.js:21) indexes a missing row and throws a TypeError. The app always uses 10 × 10.
- Engine.BFSEngine.constructor: requires a non-empty rectangular grid. The column count is read from row 0.
- Engine.BFSEngine.constructor: requires that a grid with a start also has a target. Without one, `step()` dereferences the null target (src/logic/BFSEngine.js:49) and throws; the thrown exception is not modelled.
- Map keys: the `"r,c"` string keys of the parent and depth maps are modelled as coordinate keys. This is the same map for integer coordinates.
- Object identity: cells are modelled as values. Aliasing is not modelled: the parent map stores the very `current` object, and the snapshot shares `grid` and the cell objects. A snapshot holds `seq` values, so a later `step()` cannot change a snapshot already taken; this is what the copies of `visited`, `queue` and `treeEdges` in `getState()` achieve. The copy of `visited` is the loop `CopyVisited`. The sharing of `grid` and of the cell objects between the engine and its snapshots is not modelled.
- `isValid` (src/logic/BFSEngine.js:86-92) is the predicate `GridModel.IsValid`. It appears in the contracts of VisitNeighbor and FreshNeighborsValid rather than in a row of its own.
- Method structure: `Transition`, `ExpandNeighbors` and `VisitNeighbor` split the body of `step()`. `TraceBack` is the loop of `getShortestPath()`, and `CopyVisited` is the deep copy in `getState()`. `MoveTowards` is the move branch of the walk loop. The splits follow the source's statements, and each piece carries its own contract.
- User interface: the React components, the timer-driven loop (modelled only as the plain loop `RunToCompletion`), playback, the modals and the explanatory texts are not modelled. The visited count and the "Tree Nodes" figure of the statistics view are modelled in `Stats`.
