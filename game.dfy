/** The game session: the maze with its dots, Pac-Man, the ghosts, the score and the two movement
    timers, and one tick of the main loop (gated player move, dot collection, gated pursuit round,
    collision check, victory check). Drawing, the menu and the real clock stay outside: the tick
    takes the current time and the set of pressed arrow keys as inputs. */
module Game {
  import opened Grid
  import opened Pathfinding

  /** Milliseconds between two player moves and between two pursuit rounds. */
  const MoveDelay := 120
  const GhostDelay := 600

  /** The fixed level: walls all around, every other cell a dot. */
  const InitialMaze: Maze := [
    [1,1,1,1,1,1,1,1,1,1,1,1,1,1,1],
    [1,0,0,0,0,1,0,0,0,1,0,0,0,0,1],
    [1,0,1,1,0,1,0,1,0,1,0,1,1,0,1],
    [1,0,0,1,0,0,0,1,0,0,0,1,0,0,1],
    [1,1,0,1,1,1,0,1,0,1,1,1,0,1,1],
    [1,0,0,0,0,0,0,1,0,0,0,0,0,0,1],
    [1,0,1,1,1,1,0,1,0,1,1,1,1,0,1],
    [1,0,0,0,0,0,0,0,0,0,0,0,0,0,1],
    [1,1,1,1,1,1,1,1,1,1,1,1,1,1,1]
  ]

  const PacmanStart := Cell(1, 1)

  /** Start cells of up to three ghosts; a game with n ghosts uses the first n. */
  const GhostStarts := [Cell(7, 13), Cell(1, 13), Cell(7, 1)]

  /** What the terminal checks of a tick decide. */
  datatype Outcome = Running | Lost | Won

  // ---------------------------------------------------------------- counting cells

  /** The number of the first `n` cells of `row` holding `v`. */
  function CountRow(row: seq<int>, n: nat, v: int): nat
    requires n <= |row|
  {
    if n == 0 then 0 else CountRow(row, n - 1, v) + (if row[n - 1] == v then 1 else 0)
  }

  /** The number of cells holding `v` in the first `n` rows of the maze. */
  function CountRows(maze: Maze, n: nat, v: int): nat
    requires n <= |maze|
  {
    if n == 0 then 0 else CountRows(maze, n - 1, v) + CountRow(maze[n - 1], |maze[n - 1]|, v)
  }

  /** The number of cells of the maze holding `v`. */
  function CountCells(maze: Maze, v: int): nat {
    CountRows(maze, |maze|, v)
  }

  lemma {:induction false} CountRowUpdate(row: seq<int>, n: nat, i: int, x: int, v: int)
    requires n <= |row| && 0 <= i < |row|
    ensures CountRow(row[i := x], n, v) + (if i < n && row[i] == v then 1 else 0)
         == CountRow(row, n, v) + (if i < n && x == v then 1 else 0)
  {
    if n > 0 {
      CountRowUpdate(row, n - 1, i, x, v);
    }
  }

  lemma {:induction false} CountRowsUpdate(maze: Maze, n: nat, r: int, row: seq<int>, v: int)
    requires n <= |maze| && 0 <= r < |maze|
    ensures CountRows(maze[r := row], n, v) + (if r < n then CountRow(maze[r], |maze[r]|, v) else 0)
         == CountRows(maze, n, v) + (if r < n then CountRow(row, |row|, v) else 0)
  {
    if n > 0 {
      CountRowsUpdate(maze, n - 1, r, row, v);
    }
  }

  lemma {:induction false} CountRowZero(row: seq<int>, n: nat, v: int)
    requires n <= |row|
    ensures CountRow(row, n, v) == 0 <==> v !in row[..n]
  {
    if n > 0 {
      CountRowZero(row, n - 1, v);
      assert row[..n] == row[..n - 1] + [row[n - 1]];
    }
  }

  lemma {:induction false} CountRowsZero(maze: Maze, n: nat, v: int)
    requires n <= |maze|
    ensures CountRows(maze, n, v) == 0 <==> forall r :: 0 <= r < n ==> v !in maze[r]
  {
    if n > 0 {
      CountRowsZero(maze, n - 1, v);
      CountRowZero(maze[n - 1], |maze[n - 1]|, v);
      assert maze[n - 1][..|maze[n - 1]|] == maze[n - 1];
    }
  }

  lemma CountCellsZero(maze: Maze, v: int)
    ensures CountCells(maze, v) == 0 <==> forall r :: 0 <= r < |maze| ==> v !in maze[r]
  {
    CountRowsZero(maze, |maze|, v);
  }

  // ---------------------------------------------------------------- terminal checks

  /** Some ghost stands on Pac-Man's cell. */
  function Caught(pacman: Cell, ghosts: seq<Cell>): (caught: bool)
    ensures caught <==> pacman in ghosts
  {
    exists i :: 0 <= i < |ghosts| && ghosts[i] == pacman
  }

  /** No row of the maze still holds a dot: no cell anywhere holds one. */
  function Cleared(maze: Maze): (cleared: bool)
    ensures cleared <==> forall r, c :: 0 <= r < |maze| && 0 <= c < |maze[r]| ==> maze[r][c] != Dot
  {
    !exists r :: 0 <= r < |maze| && Dot in maze[r]
  }

  /** The level is won exactly when the count of remaining dots is zero. */
  lemma ClearedIffNoDots(maze: Maze)
    ensures Cleared(maze) <==> CountCells(maze, Dot) == 0
  {
    CountCellsZero(maze, Dot);
  }

  // ---------------------------------------------------------------- dot collection

  /** Walls all around the maze. */
  predicate BorderWalls(maze: Maze)
    requires WellFormed(maze)
  {
    (forall c :: 0 <= c < Cols ==> maze[0][c] == Wall && maze[Rows - 1][c] == Wall) &&
    (forall r :: 0 <= r < Rows ==> maze[r][0] == Wall && maze[r][Cols - 1] == Wall)
  }

  /** Not on the outer ring: all four neighbouring cells exist. */
  predicate Interior(p: Cell) {
    1 <= p.row < Rows - 1 && 1 <= p.col < Cols - 1
  }

  lemma OpenIsInterior(maze: Maze, p: Cell)
    requires WellFormed(maze) && BorderWalls(maze) && IsOpen(maze, p)
    ensures Interior(p)
  {
    assert maze[0][p.col] == Wall && maze[Rows - 1][p.col] == Wall;
    assert maze[p.row][0] == Wall && maze[p.row][Cols - 1] == Wall;
  }

  /** The maze after the collection step with Pac-Man on `p`. */
  function Collect(maze: Maze, p: Cell): Maze
    requires WellFormed(maze) && InBounds(p)
  {
    if maze[p.row][p.col] == Dot then maze[p.row := maze[p.row][p.col := Eaten]] else maze
  }

  /** Collection turns a dot under Pac-Man into an eaten cell and changes nothing else: the
      eaten count grows by one exactly when a dot was there, the dot count shrinks by the same,
      and walls and open cells stay as they were. */
  lemma CollectEffect(maze: Maze, p: Cell)
    requires WellFormed(maze) && InBounds(p)
    ensures WellFormed(Collect(maze, p))
    ensures Collect(maze, p)[p.row][p.col] == if maze[p.row][p.col] == Dot then Eaten else maze[p.row][p.col]
    ensures forall q :: InBounds(q) && q != p ==> Collect(maze, p)[q.row][q.col] == maze[q.row][q.col]
    ensures CountCells(Collect(maze, p), Eaten) == CountCells(maze, Eaten) + (if maze[p.row][p.col] == Dot then 1 else 0)
    ensures CountCells(Collect(maze, p), Dot) + (if maze[p.row][p.col] == Dot then 1 else 0) == CountCells(maze, Dot)
    ensures SameOpen(maze, Collect(maze, p))
  {
    var r, c := p.row, p.col;
    if maze[r][c] == Dot {
      var row := maze[r][c := Eaten];
      CountRowUpdate(maze[r], |row|, c, Eaten, Eaten);
      CountRowUpdate(maze[r], |row|, c, Eaten, Dot);
      CountRowsUpdate(maze, |maze|, r, row, Eaten);
      CountRowsUpdate(maze, |maze|, r, row, Dot);
    }
  }

  // ---------------------------------------------------------------- player move

  /** Which held key wins: down, then left, then right, then up. */
  function KeyPriority(d: Dir): nat {
    match d
    case Down => 0
    case Left => 1
    case Right => 2
    case Up => 3
  }

  /** Pac-Man's position after one move attempt with the arrow keys `keys` held. */
  function NextPacmanPos(maze: Maze, pos: Cell, keys: set<Dir>): (next: Cell)
    requires WellFormed(maze) && Interior(pos)
    ensures next == pos <==> forall d :: d in keys ==> !IsOpen(maze, Step(pos, d))
    ensures next != pos ==>
      exists d :: d in keys && next == Step(pos, d) && IsOpen(maze, next) &&
        forall e :: e in keys && KeyPriority(e) < KeyPriority(d) ==> !IsOpen(maze, Step(pos, e))
    ensures next == pos || Adjacent(maze, pos, next)
  {
    var r, c := pos.row, pos.col;
    if Down in keys && Passable(maze[r + 1][c]) then Cell(r + 1, c)
    else if Left in keys && Passable(maze[r][c - 1]) then Cell(r, c - 1)
    else if Right in keys && Passable(maze[r][c + 1]) then Cell(r, c + 1)
    else if Up in keys && Passable(maze[r - 1][c]) then Cell(r - 1, c)
    else pos
  }

  // ---------------------------------------------------------------- pursuit

  /** `g'` is where a ghost on `g` goes in one pursuit round: the first cell of the shortest path
      to `target` that the pathfinder's tie-break picks, or `g` itself when the path is empty. */
  ghost predicate PursuitMove(maze: Maze, target: Cell, g: Cell, g': Cell)
    requires WellFormed(maze)
  {
    exists path :: LeastWalk(maze, g, path, target) && g' == (if path == [] then g else path[0])
  }

  /** The pursuit move is determined: it is the first cell of any tie-broken shortest path, as
      there is only one such path. */
  lemma PursuitMoveFirst(maze: Maze, target: Cell, g: Cell, g': Cell, path: seq<Cell>)
    requires WellFormed(maze) && PursuitMove(maze, target, g, g') && LeastWalk(maze, g, path, target)
    ensures g' == if path == [] then g else path[0]
  {
    var w :| LeastWalk(maze, g, w, target) && g' == (if w == [] then g else w[0]);
    LeastWalkUnique(maze, g, w, path, target);
  }

  /** After a pursuit round every ghost stands on the first cell of its tie-broken shortest path
      to `target`, or where it stood when that path is empty. */
  lemma PursuitRoundFirst(maze: Maze, target: Cell, before: seq<Cell>, after: seq<Cell>)
    requires WellFormed(maze) && |after| == |before|
    requires forall i :: 0 <= i < |after| ==> PursuitMove(maze, target, before[i], after[i])
    ensures forall i, path :: 0 <= i < |after| && LeastWalk(maze, before[i], path, target) ==>
      after[i] == if path == [] then before[i] else path[0]
  {
    forall i, path | 0 <= i < |after| && LeastWalk(maze, before[i], path, target)
      ensures after[i] == if path == [] then before[i] else path[0]
    {
      PursuitMoveFirst(maze, target, before[i], after[i], path);
    }
  }

  /** Two pursuit moves from the same cell towards the same target land on the same cell. */
  lemma PursuitMoveUnique(maze: Maze, target: Cell, g: Cell, g1: Cell, g2: Cell)
    requires WellFormed(maze) && PursuitMove(maze, target, g, g1) && PursuitMove(maze, target, g, g2)
    ensures g1 == g2
  {
    var w :| LeastWalk(maze, g, w, target) && g2 == (if w == [] then g else w[0]);
    PursuitMoveFirst(maze, target, g, g1, w);
  }

  /** A ghost stays put only when it already stands on its target; otherwise it takes one move
      onto an open cell and its shortest distance to the target drops by exactly one. */
  lemma PursuitMoveEffect(maze: Maze, target: Cell, g: Cell, g': Cell)
    requires WellFormed(maze) && PursuitMove(maze, target, g, g')
    ensures g' == g <==> g == target
    ensures g != target ==> Adjacent(maze, g, g') && Reachable(maze, g', target)
    ensures g != target ==>
      forall p :: Shortest(maze, g, p, target) ==> exists p' :: Shortest(maze, g', p', target) && |p'| == |p| - 1
  {
    var w :| LeastWalk(maze, g, w, target) && g' == (if w == [] then g else w[0]);
    ShortestEmpty(maze, g, w, target);
    if g != target {
      ShortestTail(maze, g, w, target);
      assert WalkTo(maze, g', w[1..], target);
      forall p | Shortest(maze, g, p, target) ensures exists p' :: Shortest(maze, g', p', target) && |p'| == |p| - 1 {
        assert |p| == |w|;
        assert Shortest(maze, g', w[1..], target);
      }
    }
  }

  /** A ghost next to Pac-Man lands on Pac-Man's cell in the next pursuit round. */
  lemma AdjacentGhostCaptures(maze: Maze, target: Cell, g: Cell, g': Cell)
    requires WellFormed(maze) && Adjacent(maze, g, target) && PursuitMove(maze, target, g, g')
    ensures g' == target
  {
    var w :| LeastWalk(maze, g, w, target) && g' == (if w == [] then g else w[0]);
    ShortestFromNeighbor(maze, g, w, target);
  }

  /** A ghost on or next to Pac-Man before a pursuit round is on Pac-Man after it, so the
      collision check then holds. */
  lemma PursuitCatches(maze: Maze, target: Cell, before: seq<Cell>, after: seq<Cell>, i: int)
    requires WellFormed(maze) && |after| == |before|
    requires forall j :: 0 <= j < |after| ==> PursuitMove(maze, target, before[j], after[j])
    requires 0 <= i < |before| && (before[i] == target || Adjacent(maze, before[i], target))
    ensures Caught(target, after)
  {
    if before[i] == target {
      PursuitMoveEffect(maze, target, before[i], after[i]);
    } else {
      AdjacentGhostCaptures(maze, target, before[i], after[i]);
    }
  }

  /** The step a ghost on `g` takes along the tie-broken shortest path to `target` is a pursuit
      move, and from the new cell the target can still be reached. */
  lemma PursuitAlong(maze: Maze, target: Cell, g: Cell, path: seq<Cell>)
    requires WellFormed(maze) && IsOpen(maze, g) && LeastWalk(maze, g, path, target)
    ensures var g' := if path == [] then g else path[0];
      PursuitMove(maze, target, g, g') && IsOpen(maze, g') && Reachable(maze, g', target) &&
      (path != [] ==> Adjacent(maze, g, g'))
  {
    if path == [] {
      ReachRefl(maze, g);
      ShortestEmpty(maze, g, path, target);
    } else {
      ShortestTail(maze, g, path, target);
      assert WalkTo(maze, path[0], path[1..], target);
    }
  }

  // ---------------------------------------------------------------- the level

  lemma InitialMazeShape()
    ensures WellFormed(InitialMaze) && BorderWalls(InitialMaze)
  {
  }

  lemma InitialMazeNothingEaten()
    ensures CountCells(InitialMaze, Eaten) == 0
  {
    assert forall r :: 0 <= r < |InitialMaze| ==> Eaten !in InitialMaze[r];
    CountCellsZero(InitialMaze, Eaten);
  }

  /** The bottom-right ghost start reaches Pac-Man's start. */
  lemma ReachFromBottomRight()
    ensures WellFormed(InitialMaze) && IsOpen(InitialMaze, Cell(7, 13)) && Reachable(InitialMaze, Cell(7, 13), PacmanStart)
  {
    assert WellFormed(InitialMaze);
    ReachAlong(InitialMaze, [Cell(7, 13), Cell(7, 12), Cell(7, 11), Cell(7, 10), Cell(7, 9), Cell(7, 8),
      Cell(7, 7), Cell(7, 6), Cell(6, 6), Cell(5, 6), Cell(4, 6), Cell(3, 6), Cell(3, 5), Cell(3, 4),
      Cell(2, 4), Cell(1, 4), Cell(1, 3), Cell(1, 2), Cell(1, 1)]);
  }

  /** The top-right ghost start reaches Pac-Man's start. */
  lemma ReachFromTopRight()
    ensures WellFormed(InitialMaze) && IsOpen(InitialMaze, Cell(1, 13)) && Reachable(InitialMaze, Cell(1, 13), PacmanStart)
  {
    assert WellFormed(InitialMaze);
    ReachAlong(InitialMaze, [Cell(1, 13), Cell(1, 12), Cell(1, 11), Cell(1, 10), Cell(2, 10), Cell(3, 10),
      Cell(3, 9), Cell(3, 8), Cell(2, 8), Cell(1, 8), Cell(1, 7), Cell(1, 6), Cell(2, 6), Cell(3, 6),
      Cell(3, 5), Cell(3, 4), Cell(2, 4), Cell(1, 4), Cell(1, 3), Cell(1, 2), Cell(1, 1)]);
  }

  /** The bottom-left ghost start reaches Pac-Man's start. */
  lemma ReachFromBottomLeft()
    ensures WellFormed(InitialMaze) && IsOpen(InitialMaze, Cell(7, 1)) && Reachable(InitialMaze, Cell(7, 1), PacmanStart)
  {
    assert WellFormed(InitialMaze);
    ReachAlong(InitialMaze, [Cell(7, 1), Cell(6, 1), Cell(5, 1), Cell(5, 2), Cell(4, 2), Cell(3, 2),
      Cell(3, 1), Cell(2, 1), Cell(1, 1)]);
  }

  /** The level as set up: its shape and outer walls, no eaten cell yet, Pac-Man and every
      ghost start on open cells, and every ghost start can reach Pac-Man. */
  lemma InitialState()
    ensures WellFormed(InitialMaze) && BorderWalls(InitialMaze)
    ensures IsOpen(InitialMaze, PacmanStart) && Interior(PacmanStart)
    ensures forall i :: 0 <= i < |GhostStarts| ==>
      IsOpen(InitialMaze, GhostStarts[i]) && Reachable(InitialMaze, GhostStarts[i], PacmanStart)
  {
    InitialMazeShape();
    forall i | 0 <= i < |GhostStarts|
      ensures IsOpen(InitialMaze, GhostStarts[i]) && Reachable(InitialMaze, GhostStarts[i], PacmanStart)
    {
      if i == 0 {
        assert GhostStarts[i] == Cell(7, 13);
        ReachFromBottomRight();
      } else if i == 1 {
        assert GhostStarts[i] == Cell(1, 13);
        ReachFromTopRight();
      } else {
        assert GhostStarts[i] == Cell(7, 1);
        ReachFromBottomLeft();
      }
    }
  }

  // ---------------------------------------------------------------- the session

  /** Every ghost stands on an open cell from which `pacman` can be reached. */
  ghost predicate GhostsOk(maze: Maze, ghosts: seq<Cell>, pacman: Cell)
    requires WellFormed(maze)
  {
    forall i :: 0 <= i < |ghosts| ==> IsOpen(maze, ghosts[i]) && Reachable(maze, ghosts[i], pacman)
  }

  lemma GhostsOkUpdate(maze: Maze, ghosts: seq<Cell>, pacman: Cell, i: int, g: Cell)
    requires WellFormed(maze) && GhostsOk(maze, ghosts, pacman) && 0 <= i < |ghosts|
    requires IsOpen(maze, g) && Reachable(maze, g, pacman)
    ensures GhostsOk(maze, ghosts[i := g], pacman)
  {
  }

  /** The loop of the pursuit round: each ghost in turn takes the first step of the path the
      pathfinder returns towards `target`, and stays put when that path is empty. */
  method Pursue(maze: Maze, target: Cell, ghosts: seq<Cell>) returns (moved: seq<Cell>)
    requires WellFormed(maze) && GhostsOk(maze, ghosts, target)
    ensures |moved| == |ghosts| && GhostsOk(maze, moved, target)
    ensures forall i :: 0 <= i < |moved| ==> PursuitMove(maze, target, ghosts[i], moved[i])
    ensures forall i :: 0 <= i < |moved| ==> moved[i] == ghosts[i] || Adjacent(maze, ghosts[i], moved[i])
  {
    moved := ghosts;
    for i := 0 to |moved|
      invariant |moved| == |ghosts| && GhostsOk(maze, moved, target)
      invariant forall j :: 0 <= j < i ==> PursuitMove(maze, target, ghosts[j], moved[j])
      invariant forall j :: 0 <= j < i ==> moved[j] == ghosts[j] || Adjacent(maze, ghosts[j], moved[j])
      invariant forall j :: i <= j < |moved| ==> moved[j] == ghosts[j]
    {
      var found := Dijkstra(maze, moved[i], target);
      match found
      case None =>
        assert false;
      case Some(path) =>
        PursuitAlong(maze, target, moved[i], path);
        if path != [] {
          GhostsOkUpdate(maze, moved, target, i, path[0]);
          moved := moved[i := path[0]];
        }
    }
  }

  class Session {
    var maze: Maze
    var pacman: Cell
    var ghosts: seq<Cell>
    var score: int
    var lastMoveTime: int
    var lastGhostTime: int

    /** The maze keeps its shape and its outer walls, Pac-Man and every ghost stand on open
        cells, every ghost can still reach Pac-Man, and the score is the number of eaten cells. */
    ghost predicate Valid()
      reads this
    {
      WellFormed(maze) && BorderWalls(maze) && IsOpen(maze, pacman) && Interior(pacman) &&
      GhostsOk(maze, ghosts, pacman) &&
      score == CountCells(maze, Eaten)
    }

    /** Session setup with the ghost count chosen in the difficulty menu. */
    constructor (ghostCount: int)
      requires 1 <= ghostCount <= |GhostStarts|
      ensures Valid()
      ensures maze == InitialMaze && pacman == PacmanStart && ghosts == GhostStarts[..ghostCount]
      ensures score == 0 && lastMoveTime == 0 && lastGhostTime == 0
    {
      InitialState();
      InitialMazeNothingEaten();
      maze := InitialMaze;
      pacman := PacmanStart;
      ghosts := GhostStarts[..ghostCount];
      score := 0;
      lastMoveTime := 0;
      lastGhostTime := 0;
    }

    /** One move attempt with the keys `keys` held. */
    method HandlePacmanMove(keys: set<Dir>)
      requires Valid()
      modifies this
      ensures Valid()
      ensures pacman == NextPacmanPos(maze, old(pacman), keys)
      ensures maze == old(maze) && ghosts == old(ghosts) && score == old(score)
      ensures lastMoveTime == old(lastMoveTime) && lastGhostTime == old(lastGhostTime)
    {
      OpenIsInterior(maze, pacman);
      var r, c := pacman.row, pacman.col;
      if Down in keys && Passable(maze[r + 1][c]) {
        pacman := Cell(r + 1, c);
      } else if Left in keys && Passable(maze[r][c - 1]) {
        pacman := Cell(r, c - 1);
      } else if Right in keys && Passable(maze[r][c + 1]) {
        pacman := Cell(r, c + 1);
      } else if Up in keys && Passable(maze[r - 1][c]) {
        pacman := Cell(r - 1, c);
      }
      OpenIsInterior(maze, pacman);
      forall i | 0 <= i < |ghosts| ensures Reachable(maze, ghosts[i], pacman) {
        if pacman != Cell(r, c) {
          ReachExtend(maze, ghosts[i], Cell(r, c), pacman);
        }
      }
    }

    /** The collection step: a dot under Pac-Man is eaten and scores one point. */
    method CollectDot()
      requires Valid()
      modifies this
      ensures Valid()
      ensures maze == Collect(old(maze), pacman)
      ensures score == old(score) + (if old(maze)[pacman.row][pacman.col] == Dot then 1 else 0)
      ensures pacman == old(pacman) && ghosts == old(ghosts)
      ensures lastMoveTime == old(lastMoveTime) && lastGhostTime == old(lastGhostTime)
    {
      ghost var before := maze;
      CollectEffect(maze, pacman);
      var r, c := pacman.row, pacman.col;
      if maze[r][c] == Dot {
        maze := maze[r := maze[r][c := Eaten]];
        score := score + 1;
      }
      forall i | 0 <= i < |ghosts| ensures Reachable(maze, ghosts[i], pacman) {
        SameOpenReach(before, maze, ghosts[i], pacman);
      }
    }

    /** The pursuit round: each ghost in turn takes the first step of its path to Pac-Man. */
    method MoveGhosts()
      requires Valid()
      modifies this
      ensures Valid()
      ensures |ghosts| == |old(ghosts)|
      ensures forall i :: 0 <= i < |ghosts| ==> PursuitMove(maze, pacman, old(ghosts)[i], ghosts[i])
      ensures forall i, path :: 0 <= i < |ghosts| && LeastWalk(maze, old(ghosts)[i], path, pacman) ==>
        ghosts[i] == if path == [] then old(ghosts)[i] else path[0]
      ensures forall i :: 0 <= i < |ghosts| ==> ghosts[i] == old(ghosts)[i] || Adjacent(maze, old(ghosts)[i], ghosts[i])
      ensures maze == old(maze) && pacman == old(pacman) && score == old(score)
      ensures lastMoveTime == old(lastMoveTime) && lastGhostTime == old(lastGhostTime)
    {
      ghosts := Pursue(maze, pacman, ghosts);
      PursuitRoundFirst(maze, pacman, old(ghosts), ghosts);
    }

    /** One pass of the main loop at time `now` with the keys `keys` held: the gated player
        move, the collection step, the gated pursuit round, then the collision check before the
        victory check. */
    method Tick(now: int, keys: set<Dir>) returns (outcome: Outcome)
      requires Valid()
      modifies this
      ensures Valid()
      ensures now - old(lastMoveTime) > MoveDelay ==>
        pacman == NextPacmanPos(old(maze), old(pacman), keys) && lastMoveTime == now
      ensures now - old(lastMoveTime) <= MoveDelay ==>
        pacman == old(pacman) && lastMoveTime == old(lastMoveTime)
      ensures maze == Collect(old(maze), pacman)
      ensures score + CountCells(maze, Dot) == old(score) + CountCells(old(maze), Dot)
      ensures |ghosts| == |old(ghosts)|
      ensures now - old(lastGhostTime) > GhostDelay ==>
        lastGhostTime == now && (forall i :: 0 <= i < |ghosts| ==> PursuitMove(maze, pacman, old(ghosts)[i], ghosts[i]))
      ensures now - old(lastGhostTime) > GhostDelay ==>
        forall i, path :: 0 <= i < |ghosts| && LeastWalk(maze, old(ghosts)[i], path, pacman) ==>
          ghosts[i] == if path == [] then old(ghosts)[i] else path[0]
      ensures now - old(lastGhostTime) <= GhostDelay ==>
        lastGhostTime == old(lastGhostTime) && ghosts == old(ghosts)
      ensures outcome == if Caught(pacman, ghosts) then Lost else if Cleared(maze) then Won else Running
    {
      if now - lastMoveTime > MoveDelay {
        HandlePacmanMove(keys);
        lastMoveTime := now;
      }
      CollectEffect(maze, pacman);
      CollectDot();
      if now - lastGhostTime > GhostDelay {
        MoveGhosts();
        lastGhostTime := now;
      }
      if Caught(pacman, ghosts) {
        return Lost;
      }
      if Cleared(maze) {
        return Won;
      }
      return Running;
    }
  }
}
