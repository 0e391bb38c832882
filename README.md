# Pac-Man game logic in Dafny

A verified model of the game logic of `pcgame.py`, a small Pac-Man clone on a fixed 9 x 15 maze.
The maze is a grid of cell values: 0 is a dot, 1 is a wall, 2 is a cell whose dot was eaten.
Pac-Man moves one cell at a time under the arrow keys. One to three ghosts chase him. Each ghost
takes the first step of a shortest path computed by a priority-queue search. Eating a dot scores
one point. A ghost on Pac-Man's cell ends the game as lost, and a maze with no dot left ends it as
won.

The project has three modules:

- `Grid` (`grid.dfy`): cells, moves, which cells can be entered, the neighbour scan, and walks,
  reachability and shortest paths as specifications.
- `Pathfinding` (`pathfinding.dfy`): the ghosts' pathfinder. The heap is a sequence of
  `(cost, cell)` entries with least-entry extraction in Python's tuple order, so ties go to the
  smaller `(row, col)`. The visited dictionary is a map from cell to optional predecessor. The
  search is proved to return a shortest walk to the goal, namely the one that this tie-break
  picks. When the goal was never discovered, the source fails on `visited[goal]`. The model
  returns `None` in that case and proves that this happens exactly when the goal is unreachable.
- `Game` (`game.dfy`): the level, dot counting, the player move with its key priority, the
  pursuit round, the two terminal checks, and the class `Session`. The class holds the game state
  that the source keeps in globals: maze, Pac-Man, ghosts, score and the two timers. `Tick` is one
  pass of the main loop.

The session invariant `Session.Valid` keeps these facts:

- the maze has its shape and its outer walls;
- Pac-Man and every ghost stand on open cells;
- every ghost can still reach Pac-Man;
- the score equals the number of eaten cells.

Because every ghost can reach Pac-Man, the pursuit round never meets the failing lookup.

Inputs that come from the outside world become parameters. `Tick` takes the current time in
milliseconds and the set of held arrow keys. The constructor takes the ghost count chosen in the
difficulty menu.

Behaviour of the code worth knowing:

- The heap orders entries as `(cost, (row, col))` tuples, so between two entries of the same cost
  the one with the smaller `(row, col)` is popped first. Each ghost therefore follows one
  particular shortest path: every cell on it is entered from the least `(row, col)` among its
  neighbours that lie one move closer to the ghost. The model proves that this path is unique.
- For a goal that is never discovered, the path rebuild looks up a missing key in `visited` and
  fails. The model returns `None` there.
- The player move reads every held arrow key and applies the first one, in the order down,
  left, right, up, that points to an open cell.
- The collision check runs before the victory check. When both hold after the same tick, the
  outcome is `Lost`.
- The program exits at the end of a game. `Tick` reports the outcome, and nothing is modelled
  after it.

## Model

| member | source | states |
|---|---|---|
| Grid.Neighbors | pcgame.py:76-81 | a cell is listed exactly when it is one move from `pos`, inside the 9 x 15 board and holds 0 or 2; the list follows the scan order up, down, left, right, so it has no repeats |
| Grid.ReachAlong | pcgame.py:76-81 | a chain of cells, each one move from the cell before it, leads from its first cell to its last |
| Grid.WalkClosed | pcgame.py:85-93 | a set of cells that holds the start and is closed under moves holds the end of every walk from the start |
| Grid.ShortestEmpty | pcgame.py:94-100 | a shortest path is empty exactly when start and goal are the same cell |
| Grid.ShortestTail | pcgame.py:102-106 | the first step of a shortest path is one open move from the start, and the rest of the path is a shortest path from that step |
| Grid.ShortestFromNeighbor | pcgame.py:102-106 | from a cell next to the goal, the only shortest path is the single step onto the goal |
| Grid.LeastAgreeStep | pcgame.py:84-93 | two walks that both enter each cell from its least `(row, col)` closer neighbour enter a shared position from the same cell |
| Grid.LeastWalkUnique | pcgame.py:83-100 | there is only one shortest walk whose every cell is entered from its least `(row, col)` neighbour one move closer to the start |
| Grid.SameOpenReach | pcgame.py:176-179 | reachability depends only on which cells can be entered, so turning a dot into an eaten cell does not change it |
| Pathfinding.HeapPop | pcgame.py:87 | removes one entry that no other entry precedes in (cost, row, col) order; what remains is the heap minus that one entry |
| Pathfinding.Reversed | pcgame.py:99 | the result has the same length and holds the elements in opposite order |
| Pathfinding.Started | pcgame.py:84-85 | the starting heap `[(0, start)]` and `visited = {start: None}` satisfy the search invariant and the tie-break |
| Pathfinding.PopLeast | pcgame.py:87 | the popped cost is the current level or one more; its cell is discovered at that distance, not yet expanded, on the board, and first in `(row, col)` order among the waiting cells of its level; the invariant holds for the rest of the heap |
| Pathfinding.Popped | pcgame.py:86-87 | the same facts for a pop given as a multiset split of the heap with a least entry |
| Pathfinding.PoppedLeast | pcgame.py:87 | the popped cell comes first in `(row, col)` order among the waiting cells of the same distance |
| Pathfinding.CoversNextLevel | pcgame.py:86-93 | when the least entry costs `level + 1`, every cell within `level + 1` moves of the start has been discovered |
| Pathfinding.Visit | pcgame.py:91-93 | an undiscovered neighbour gets `current` as its predecessor, distance `cost + 1` and a heap entry `(cost + 1, n)`; a discovered one leaves heap, predecessors and distances unchanged |
| Pathfinding.Undiscovered | pcgame.py:90-91 | a cell is in the result exactly when it is in the scanned list and not yet discovered |
| Pathfinding.NeighborsDistinct | pcgame.py:76-81 | the neighbour scan lists no cell twice |
| Pathfinding.DiscoverOptimal | pcgame.py:91-93 | a cell discovered from a cell of distance `level` has no walk shorter than `level + 1` |
| Pathfinding.Discover | pcgame.py:91-93 | recording an undiscovered neighbour with predecessor `current` and pushing it at `cost + 1` keeps the search invariant |
| Pathfinding.DiscoverLeast | pcgame.py:91-93 | the cell being expanded is the least `(row, col)` neighbour one move closer to the start of each cell it discovers |
| Pathfinding.LeastTreeAdd | pcgame.py:91-92 | recording a cell with its least closer neighbour as predecessor keeps the tie-break |
| Pathfinding.DiscoverOne | pcgame.py:91-93 | discovering one neighbour keeps both the search invariant and the tie-break |
| Pathfinding.DiscoverAll | pcgame.py:90-93 | discovering a list of distinct undiscovered neighbours one after another keeps the search invariant and the tie-break |
| Pathfinding.AddedFacts | pcgame.py:90-93 | the cells added by the neighbour loop are distinct undiscovered neighbours of `current`, and afterwards every neighbour of `current` is discovered |
| Pathfinding.Expand | pcgame.py:90-93 | the discovered cells become the old ones plus every open neighbour of `current`; exactly the undiscovered neighbours are added, each mapped to `current` with distance `cost + 1` and pushed at `cost + 1` in scan order; every earlier key keeps its value |
| Pathfinding.Expanded | pcgame.py:90-93 | after the neighbour loop, `current` counts as expanded under the search invariant and the tie-break |
| Pathfinding.Finish | pcgame.py:90-93 | once all neighbours of the cell being expanded are discovered, it joins the expanded cells |
| Pathfinding.Round | pcgame.py:86-93 | one pass of the search loop either pops the goal (then it is discovered) or keeps the search invariant and the tie-break with one more board cell expanded |
| Pathfinding.Exhausted | pcgame.py:86-93 | a search whose heap ran empty without discovering the goal shows that the goal cannot be reached |
| Pathfinding.Search | pcgame.py:84-93 | on exit the predecessor map is a tree of shortest walks from the start that keeps the tie-break, and the goal is missing from it only when it is unreachable |
| Pathfinding.RebuildPath | pcgame.py:94-100 | the result is `None` exactly when the goal was never discovered (the failing lookup); otherwise it is a walk from start to goal, excluding start, whose length is the goal's distance and whose every cell is entered from its recorded predecessor |
| Pathfinding.RebuiltLeast | pcgame.py:94-99 | a walk read back through predecessors that were each the least closer neighbour keeps the tie-break |
| Pathfinding.Concluded | pcgame.py:94-100 | the walk read back from a finished search is the unique tie-broken shortest walk to the goal, and it is empty exactly when the goal is the start |
| Pathfinding.Dijkstra | pcgame.py:83-100 | the result is `None` exactly when the goal is unreachable; otherwise it is a shortest walk from start to goal, excluding start, whose every cell is entered from its least `(row, col)` neighbour one move closer to the start (so by `Grid.LeastWalkUnique` it is the one path the program returns), and it is empty exactly when start is the goal |
| Game.Caught | pcgame.py:108-109 | true exactly when Pac-Man's cell is one of the ghost positions |
| Game.Cleared | pcgame.py:124-125 | true exactly when no cell of the maze holds a dot |
| Game.ClearedIffNoDots | pcgame.py:124-125 | the victory check holds exactly when the count of dot cells is zero |
| Game.CountCellsZero | pcgame.py:124-125 | the count of cells holding a value is zero exactly when no row contains it |
| Game.OpenIsInterior | pcgame.py:112-122 | in a maze walled all around, an open cell is not on the outer ring, so the four unchecked neighbour lookups of the player move stay inside the maze |
| Game.CollectEffect | pcgame.py:176-179 | a dot under Pac-Man becomes an eaten cell and no other cell changes; the eaten count rises by one exactly when there was a dot and the dot count falls by the same amount; open cells stay open and walls stay walls |
| Game.NextPacmanPos | pcgame.py:112-122 | Pac-Man stays put exactly when no held key points to an open cell; otherwise he moves one open step in a held direction, and every held key of higher priority (down, left, right, up) is blocked |
| Game.PursuitMoveFirst | pcgame.py:102-106 | a pursuit move lands on the first cell of the tie-broken shortest path to Pac-Man, or stays put when that path is empty |
| Game.PursuitMoveUnique | pcgame.py:102-106 | two pursuit moves from the same cell towards the same target land on the same cell |
| Game.PursuitRoundFirst | pcgame.py:102-106 | after a pursuit round each ghost is on the first cell of its tie-broken shortest path, or where it was when that path is empty |
| Game.PursuitMoveEffect | pcgame.py:102-106 | a ghost stays put exactly when it is on its target; otherwise it moves one open step, can still reach the target, and its shortest distance to the target drops by exactly one |
| Game.AdjacentGhostCaptures | pcgame.py:102-106 | a ghost next to Pac-Man lands on Pac-Man's cell in the next pursuit round |
| Game.PursuitCatches | pcgame.py:102-109 | a ghost on or next to Pac-Man before a pursuit round puts the collision check to true after it |
| Game.PursuitAlong | pcgame.py:104-106 | moving to the first cell of the tie-broken shortest path, or staying when the path is empty, is a pursuit move onto an open cell from which the target is still reachable |
| Game.Pursue | pcgame.py:102-106 | each ghost in turn makes its pursuit move towards Pac-Man, so it stays put or moves one open step, and every ghost can still reach Pac-Man |
| Game.InitialMazeShape | pcgame.py:25-36 | the level has 9 rows of 15 cells with walls all around |
| Game.InitialMazeNothingEaten | pcgame.py:25-36 | the level starts with no eaten cell, so a score of 0 equals the eaten count |
| Game.ReachFromBottomRight | pcgame.py:25-41 | the ghost start (7, 13) is open and can reach Pac-Man's start (1, 1) |
| Game.ReachFromTopRight | pcgame.py:25-41 | the ghost start (1, 13) is open and can reach Pac-Man's start (1, 1) |
| Game.ReachFromBottomLeft | pcgame.py:25-41 | the ghost start (7, 1) is open and can reach Pac-Man's start (1, 1) |
| Game.InitialState | pcgame.py:25-41 | the level is walled, Pac-Man starts on an open inner cell, and every ghost start is open and can reach Pac-Man |
| Game.Session.constructor | pcgame.py:211-212 | with a ghost count of 1 to 3 from the menu, the session starts on the level with Pac-Man at (1, 1), the first `count` ghost starts, score 0 and both timers 0 (the initial values of pcgame.py:25-50), and it satisfies the session invariant |
| Game.Session.HandlePacmanMove | pcgame.py:112-122 | Pac-Man moves to `NextPacmanPos` of the held keys, nothing else changes, and the invariant is kept |
| Game.Session.CollectDot | pcgame.py:176-179 | the maze becomes `Collect` of the old maze, the score rises by one exactly when Pac-Man stood on a dot, and the invariant (score equals eaten cells) is kept |
| Game.Session.MoveGhosts | pcgame.py:102-106 | each ghost moves to the first cell of its tie-broken shortest path to Pac-Man, or stays put when that path is empty, so it stays put or moves one open step; the ghost count, the maze, Pac-Man and the score are unchanged, and the invariant is kept |
| Game.Session.Tick | pcgame.py:172-198 | the player moves and the move timer resets only when `now - lastMoveTime > 120`; the dot under Pac-Man is collected; the ghosts move, each to the first cell of its tie-broken shortest path, and the ghost timer resets only when `now - lastGhostTime > 600`; score plus remaining dots is conserved; the outcome is `Lost` if a ghost is on Pac-Man, else `Won` if no dot is left, else `Running` |

## Left out

- Drawing the grid, the entities, the score and the end screens: these are display calls with no effect on the game state.
- The difficulty menu's mouse handling and text: only its result, a ghost count from 1 to 3, is modelled, as the constructor's argument.
- The real clock, the event pump, the frame-rate limit, the five-second pause and the program exit: the current time is a parameter of `Tick`, and the caller stops ticking once the outcome is not `Running`.
- The window-close event, which ends the loop without a game outcome.
- Font and display set-up, and the unused `random` import.
- Game.NextPacmanPos: requires Pac-Man to be off the outer ring. The source indexes the four neighbour cells without a bounds check, and with walls all around it never stands on the ring. Python's negative indexing on the ring is therefore not modelled.
- Pathfinding.Dijkstra: requires a maze of the level's 9 x 15 shape, which is the only maze the source has.
- Game.Pursue: works on a copy of the ghost list, which `Session.MoveGhosts` then stores back. The source updates the list in place; nothing reads it in between, so the result is the same.
