# Maze game: a verified model of its core

The maze game keeps a 30 x 40 grid of walls (1) and passages (0), a
player and an exit. A new game builds an all-wall grid. It puts the player
at the top-left corner and the exit at the bottom-right corner, then
carves a maze with a randomized depth-first search on the lattice of
cells whose row and column are both even. A breadth-first "connectivity
check" follows, and behind it a fallback that carves a staircase from
corner to corner. The player moves one cell at a time through passages
and wins on the exit.

The model is imperative where the game is:

- `Maze.MazeGame` is a class over an `array2<int>` grid with the player's
  and the exit's coordinates as fields.
- Carving, the search and the staircase are loops with invariants.

Their bookkeeping lives in three value-level modules:

- `Grid`: geometry, walks through passages, player moves, and the staircase.
- `Carving`: the invariant of the depth-first loop and one lemma per branch.
- `Search`: the invariant of the breadth-first loop and one lemma per step.

The main results:

- Started from an all-wall grid, the carving opens every lattice node, and
  each node gets a walk from (0, 0) through passages.
- The carving produces a perfect maze. It opens all 300 nodes and 299 cells
  between them, 599 cells in all. Every opened cell between two nodes has
  both nodes open. Being connected, these cells form a tree (`Carve`).
- The carving writes only nodes and cells between two nodes, never in the
  last row or the last column.
- A new game's exit is reachable from the start, so some sequence of
  player moves leads there (`ResetGame` with `ReachableByMoves`).
- A move never leaves the grid and never ends on a wall.

Random choices are a parameter, `pick: nat -> nat`. At the k-th choice,
the carving takes neighbour `pick(k) % |neighbors|`. Every property above
holds for every `pick`.

The model follows the code as written:

- The connectivity check's target is (39, 29), written column first.
  Carving and the search use the row as the first coordinate, and rows
  only run up to 29, so the target is never dequeued. The check therefore
  never succeeds, and the staircase is always carved (`SearchExit`
  ensures `!reached`).
- The search does not test the wall cell between two nodes, only the node
  it steps to.
- Its `visited` set starts as `{0, 0}`, which is the one-element set {0}.
  The start cell is not marked, so it may be queued a second time.
  `Search.Entry` models the integer 0 and the coordinate pairs side by side.
- The staircase's first step, from (0, 0) to (1, 1), is diagonal. On its
  own it is not a walk (`StaircaseStartsDiagonally`). The exit is still
  reachable: the carved node (28, 30) sits next to the staircase's run
  along the last row (`StaircaseReachesExit`).

## Model

| member | source | states |
|---|---|---|
| Grid.Midpoint | main.py:61-62 | the cell halfway along a lattice step shares a side with both ends, lies in bounds when they do, and is never a lattice node |
| Grid.Neighbour | main.py:106-114 | the cell one step in a direction shares a side with the start and lies on that side of it |
| Grid.Move | main.py:106-114 | a move ends on the neighbour in that direction exactly when it is in bounds and a passage, otherwise where it started |
| Grid.WalkAsMoves | main.py:106-114 | any walk through in-bounds passages is replayed by one player move per step, ending at the walk's end |
| Grid.ReachableByMoves | main.py:106-118 | a cell reachable from (0, 0) through passages is where some sequence of player moves from (0, 0) ends |
| Grid.ExtendThroughWall | main.py:40-43 | a walk to a node, extended through the opened middle cell to the next node, is a walk to that node |
| Grid.JoinPaths | main.py:31-47 | two walks that meet form a walk from the first's start to the second's end |
| Grid.MidpointDetermines | main.py:61-62 | the cell between two nodes a lattice step apart determines the two nodes, up to order |
| Grid.NodesBelowCount | main.py:8 | the nodes in the first 2h rows number 20 per pair of rows |
| Grid.NodeCount | main.py:8 | the 30 x 40 grid has exactly 300 nodes |
| Grid.StepToNode | main.py:49-59 | an in-bounds lattice step from a node lands on a node |
| Grid.ClosedSetHoldsNode | main.py:49-59 | a set holding (0, 0) and closed under lattice steps holds every node: the node lattice is connected |
| Grid.ClosedSetHoldsAllNodes | main.py:49-59 | the same for all nodes at once |
| Grid.StairCell | main.py:85-92 | the staircase cell after k steps is in bounds up to the last step; the last step reaches the bottom-right corner and no earlier one does |
| Grid.StaircaseStartsDiagonally | main.py:86-92 | the staircase's first two cells share no side |
| Grid.StaircaseReachesExit | main.py:85-92 | a walk from (0, 0) to node (28, 30), with the staircase open, extends along the last row to a walk reaching the bottom-right corner |
| Carving.CarveStart | main.py:32-33 | with (0, 0) opened and pushed, the carving invariant holds |
| Carving.CarvePush | main.py:39-43 | opening a wall node two cells from the stack's top, and the cell between, and pushing it keeps the invariant, including a walk to the new node |
| Carving.PushWalks | main.py:39-43 | after a push, every stacked node and the new one have a walk from (0, 0), and popped nodes still have no wall two steps away |
| Carving.PushTree | main.py:39-43 | from all walls, a push opens exactly two former walls (the node and the cell between), so the open cells stay one fewer than twice the carved nodes, each in-between cell joining two open nodes |
| Carving.CarvePop | main.py:44-45 | popping a top with no wall node two cells away keeps the invariant |
| Carving.CarveDone | main.py:35-45 | when the stack empties after starting from all walls, every lattice node has been carved: all 300 |
| Search.StepIsSearchStep | main.py:76-77 | the four search moves reach exactly the cells a lattice step away |
| Search.SearchStart | main.py:67-68 | the queue holding (0, 0), with only the integer 0 visited, satisfies the search invariant |
| Search.ExpandStart | main.py:70-71 | dequeuing the head and marking it explored starts its expansion with the invariant intact |
| Search.ExpandMove | main.py:76-81 | one move marks and queues its cell exactly when that cell is in bounds, a passage and unvisited, and keeps the expansion invariant |
| Search.ExpandEnd | main.py:76-81 | after the four moves every passage a lattice step from the dequeued cell is visited, and the loop measure has gone down or the queue has shrunk |
| Search.SearchEnd | main.py:70-81 | with the queue empty, the explored cells hold (0, 0) and every passage a lattice step from any of them |
| Maze.MazeGame.constructor | main.py:19-29 | a new game is a reset game: player at (0, 0) on a passage, exit at the corner, not yet won, every node and the exit reachable |
| Maze.MazeGame.ResetGame | main.py:139-145 | after a reset the grid is fresh, the player is at (0, 0) on a passage without having won, and every node and the exit are reachable from the start |
| Maze.MazeGame.SetUpState | main.py:140-144 | the grid is a fresh all-wall 30 x 40 grid, the player at (0, 0), the exit at (29, 39) |
| Maze.MazeGame.GenerateMaze | main.py:31-47 | (0, 0) is a passage, no passage closes, and from an all-wall grid every node and the bottom-right corner are reachable from (0, 0) |
| Maze.MazeGame.MazeReachable | main.py:31-47 | walks to every node through the carved passages, plus the open staircase, make every node and the bottom-right corner reachable |
| Maze.MazeGame.Carve | main.py:31-45 | every cell that changes becomes a passage and is a node or a cell between two nodes, never in the last row or column; no passage closes; each returned walk leads from (0, 0) through passages; from all walls all 300 nodes are carved and the 599 passages form a tree |
| Maze.MazeGame.CarveResult | main.py:35-45 | the state the carving loop leaves, restated on the grid: the changed cells, the walks, and from all walls every node carved and the passage count and tree shape |
| Maze.MazeGame.CarveTowards | main.py:40-43 | exactly the middle cell and the next node become passages, and the ghost wall and passage sets follow the grid |
| Maze.MazeGame.GetUnvisitedNeighbors | main.py:49-59 | a cell is listed exactly when it is in bounds, a lattice step away and a wall; at most four are listed |
| Maze.MazeGame.RemoveWallBetween | main.py:61-62 | only the cell halfway between the two coordinates becomes a passage |
| Maze.MazeGame.EnsurePathToExit | main.py:64-83 | every staircase cell ends a passage and every other cell is unchanged |
| Maze.MazeGame.SearchExit | main.py:64-81 | the target is never reached; the explored cells are (0, 0) and passage nodes and are closed under lattice steps to passages |
| Maze.MazeGame.CreateDirectPath | main.py:85-92 | the walk takes 39 steps, every staircase cell and the corner become passages, and no other cell changes |
| Maze.MazeGame.MovePlayer | main.py:106-118 | the new position is the one `Move` gives on the grid's passages, stays in bounds and on a passage if it started on one; the result is the win check after the move |

## Left out

- Drawing, the window, fonts, the frame clock, the event loop (`run`), the
  win screen and `wait_for_restart` are presentation and input handling.
  `ResetGame` stops after generating the maze and does not enter the loop.
- `random.choice` becomes the parameter `pick`. The uniform distribution is
  not modelled; every property holds for every choice sequence.
- Directions are a closed datatype. main.py compares strings, and a
  string other than the four names moves nobody.
- Maze.MazeGame.CheckWin: a predicate on the state with no contract of its
  own. The win screen that main.py opens when it holds is left out.
- Maze.MazeGame.Carve: states properties of the carved maze, not the
  exact maze that a given `pick` produces. The tree shape holds for the
  carved grid only: the staircase carved afterwards adds cycles, so
  `GenerateMaze` does not restate it.
- Maze.MazeGame.EnsurePathToExit: the deque becomes a sequence, and the
  early return on reaching the target becomes a `reached` flag. That flag
  is provably never set.
