/** Geometry of the maze: cells, the four moves, which cells can be entered, and walks between
    cells. Adjacency is a pure function of the maze; walls never change during a game, so the
    graph it describes is fixed for a session. */
module Grid {

  /** Size of the maze (ROWS, COLS). */
  const Rows := 9
  const Cols := 15

  /** Cell values: a dot still to collect, a wall, a cell whose dot has been eaten. */
  const Dot := 0
  const Wall := 1
  const Eaten := 2

  /** The maze is a list of rows of cell values. */
  type Maze = seq<seq<int>>

  /** A (row, column) position. */
  datatype Cell = Cell(row: int, col: int)

  /** The four moves. */
  datatype Dir = Up | Down | Left | Right

  predicate WellFormed(maze: Maze) {
    |maze| == Rows && forall r :: 0 <= r < |maze| ==> |maze[r]| == Cols
  }

  predicate InBounds(p: Cell) {
    0 <= p.row < Rows && 0 <= p.col < Cols
  }

  /** The membership test `in [0, 2]`: a dot or an eaten cell can be walked on, a wall cannot. */
  predicate Passable(v: int) {
    v == Dot || v == Eaten
  }

  /** A cell inside the maze that can be walked on. */
  predicate IsOpen(maze: Maze, p: Cell)
    requires WellFormed(maze)
  {
    InBounds(p) && Passable(maze[p.row][p.col])
  }

  function Step(p: Cell, d: Dir): Cell {
    match d
    case Up => Cell(p.row - 1, p.col)
    case Down => Cell(p.row + 1, p.col)
    case Left => Cell(p.row, p.col - 1)
    case Right => Cell(p.row, p.col + 1)
  }

  /** `b` differs from `a` by one in exactly one coordinate. */
  predicate OneMove(a: Cell, b: Cell) {
    (a.row == b.row && (a.col - b.col == 1 || b.col - a.col == 1))
    || (a.col == b.col && (a.row - b.row == 1 || b.row - a.row == 1))
  }

  /** `b` is one move away from `a` and can be entered. */
  predicate Adjacent(maze: Maze, a: Cell, b: Cell)
    requires WellFormed(maze)
  {
    OneMove(a, b) && IsOpen(maze, b)
  }

  /** Where `n` stands in the scan order up, down, left, right around `p`. */
  function ScanRank(p: Cell, n: Cell): nat {
    if n == Step(p, Up) then 0
    else if n == Step(p, Down) then 1
    else if n == Step(p, Left) then 2
    else 3
  }

  /** The move from `p` in direction `d`, if it lands on an open cell. */
  function OpenStep(maze: Maze, p: Cell, d: Dir): seq<Cell>
    requires WellFormed(maze)
  {
    if IsOpen(maze, Step(p, d)) then [Step(p, d)] else []
  }

  /** Every cell one move away from `a` is one of the four steps. */
  lemma UnitDistance(a: Cell, b: Cell)
    requires OneMove(a, b)
    ensures b == Step(a, Up) || b == Step(a, Down) || b == Step(a, Left) || b == Step(a, Right)
  {
  }

  /** The open cells one move away from `p`, scanned up, down, left, right. */
  function Neighbors(maze: Maze, p: Cell): (ns: seq<Cell>)
    requires WellFormed(maze)
    ensures forall n :: n in ns <==> Adjacent(maze, p, n)
    ensures forall i, j :: 0 <= i < j < |ns| ==> ScanRank(p, ns[i]) < ScanRank(p, ns[j])
  {
    var ns := OpenStep(maze, p, Up) + OpenStep(maze, p, Down) + OpenStep(maze, p, Left) + OpenStep(maze, p, Right);
    assert forall n :: Adjacent(maze, p, n) ==> n in ns by {
      forall n | Adjacent(maze, p, n) ensures n in ns {
        UnitDistance(p, n);
      }
    }
    ns
  }

  /** The cell that move `i` of `path` starts from: `start` for the first move. */
  function From(start: Cell, path: seq<Cell>, i: nat): Cell
    requires i <= |path|
  {
    if i == 0 then start else path[i - 1]
  }

  /** Where `path` ends when it is walked from `start`. */
  function Last(start: Cell, path: seq<Cell>): Cell {
    From(start, path, |path|)
  }

  /** Every cell of `path` is one move from the cell before it (from `start` for the first);
      `start` itself is not part of `path`. */
  ghost predicate IsWalk(maze: Maze, start: Cell, path: seq<Cell>)
    requires WellFormed(maze)
  {
    forall i :: 0 <= i < |path| ==> Adjacent(maze, From(start, path, i), path[i])
  }

  ghost predicate WalkTo(maze: Maze, start: Cell, path: seq<Cell>, goal: Cell)
    requires WellFormed(maze)
  {
    IsWalk(maze, start, path) && Last(start, path) == goal
  }

  ghost predicate Reachable(maze: Maze, a: Cell, b: Cell)
    requires WellFormed(maze)
  {
    exists path :: WalkTo(maze, a, path, b)
  }

  /** `path` is a walk from `a` to `b` and no walk from `a` to `b` is shorter. */
  ghost predicate Shortest(maze: Maze, a: Cell, path: seq<Cell>, b: Cell)
    requires WellFormed(maze)
  {
    WalkTo(maze, a, path, b) && forall q :: WalkTo(maze, a, q, b) ==> |path| <= |q|
  }

  /** The order of `(row, col)` tuples: `a` does not come after `b`. */
  predicate CellLeq(a: Cell, b: Cell) {
    a.row < b.row || (a.row == b.row && a.col <= b.col)
  }

  /** `w` is next to `v` and some walk of exactly `k` moves leads from `start` to `w`. */
  ghost predicate CloserNeighbor(maze: Maze, start: Cell, w: Cell, v: Cell, k: int)
    requires WellFormed(maze)
  {
    Adjacent(maze, w, v) && exists q :: WalkTo(maze, start, q, w) && |q| == k
  }

  /** A shortest walk in which each cell is entered from the least `(row, col)` among the cells
      next to it that are as many moves from `start` as its predecessor on the walk. */
  ghost predicate LeastWalk(maze: Maze, start: Cell, path: seq<Cell>, goal: Cell)
    requires WellFormed(maze)
  {
    Shortest(maze, start, path, goal) && TieBroken(maze, start, path)
  }

  /** `u` is the least `(row, col)` among the neighbours of `v` that a walk of `k` moves reaches
      from `start` (or comes before all of them). */
  ghost predicate LeastEntry(maze: Maze, start: Cell, v: Cell, u: Cell, k: int)
    requires WellFormed(maze)
  {
    forall w {:trigger CloserNeighbor(maze, start, w, v, k)} :: CloserNeighbor(maze, start, w, v, k) ==> CellLeq(u, w)
  }

  /** Each cell of `path` is entered from the least `(row, col)` among its neighbours that a walk
      of the same number of moves reaches from `start`. */
  ghost predicate TieBroken(maze: Maze, start: Cell, path: seq<Cell>)
    requires WellFormed(maze)
  {
    forall i :: 0 <= i < |path| ==> LeastEntry(maze, start, path[i], From(start, path, i), i)
  }

  /** Two mazes agree on which cells can be entered (collecting a dot keeps this). */
  ghost predicate SameOpen(m1: Maze, m2: Maze)
    requires WellFormed(m1) && WellFormed(m2)
  {
    forall p :: IsOpen(m1, p) <==> IsOpen(m2, p)
  }

  lemma WalkPrefix(maze: Maze, start: Cell, path: seq<Cell>, k: nat)
    requires WellFormed(maze) && IsWalk(maze, start, path) && k <= |path|
    ensures IsWalk(maze, start, path[..k]) && Last(start, path[..k]) == From(start, path, k)
  {
    assert forall i :: 0 <= i <= k ==> From(start, path[..k], i) == From(start, path, i);
  }

  lemma WalkExtend(maze: Maze, start: Cell, path: seq<Cell>, n: Cell)
    requires WellFormed(maze) && IsWalk(maze, start, path) && Adjacent(maze, Last(start, path), n)
    ensures IsWalk(maze, start, path + [n]) && Last(start, path + [n]) == n
  {
    var q := path + [n];
    forall i | 0 <= i < |q| ensures Adjacent(maze, From(start, q, i), q[i]) {
      if i < |path| {
        assert q[i] == path[i];
        assert From(start, q, i) == From(start, path, i);
      } else {
        assert From(start, q, i) == Last(start, path);
      }
    }
  }

  lemma WalkCons(maze: Maze, a: Cell, b: Cell, path: seq<Cell>)
    requires WellFormed(maze) && Adjacent(maze, a, b) && IsWalk(maze, b, path)
    ensures IsWalk(maze, a, [b] + path) && Last(a, [b] + path) == Last(b, path)
  {
    var q := [b] + path;
    forall i | 0 <= i < |q| ensures Adjacent(maze, From(a, q, i), q[i]) {
      if i > 0 {
        assert From(a, q, i) == From(b, path, i - 1);
      }
    }
  }

  /** A walk from `b` seen from the cell one move before it. */
  lemma WalkTail(maze: Maze, a: Cell, path: seq<Cell>)
    requires WellFormed(maze) && IsWalk(maze, a, path) && path != []
    ensures Adjacent(maze, a, path[0])
    ensures IsWalk(maze, path[0], path[1..]) && Last(path[0], path[1..]) == Last(a, path)
  {
    var t := path[1..];
    forall i | 0 <= i < |t| ensures Adjacent(maze, From(path[0], t, i), t[i]) {
      assert From(path[0], t, i) == From(a, path, i + 1);
    }
  }

  /** A set that holds `start` and is closed under moves holds the end of every walk from
      `start`. */
  lemma {:induction false} WalkClosed(maze: Maze, start: Cell, s: set<Cell>, path: seq<Cell>)
    requires WellFormed(maze) && start in s
    requires forall u, n :: u in s && Adjacent(maze, u, n) ==> n in s
    requires IsWalk(maze, start, path)
    ensures Last(start, path) in s
  {
    if path != [] {
      var k := |path| - 1;
      WalkPrefix(maze, start, path, k);
      WalkClosed(maze, start, s, path[..k]);
      assert Adjacent(maze, From(start, path, k), path[k]);
    }
  }

  lemma ReachRefl(maze: Maze, a: Cell)
    requires WellFormed(maze)
    ensures Reachable(maze, a, a)
  {
    assert WalkTo(maze, a, [], a);
  }

  /** One move, then a walk. */
  lemma ReachStep(maze: Maze, a: Cell, b: Cell, c: Cell)
    requires WellFormed(maze) && Adjacent(maze, a, b) && Reachable(maze, b, c)
    ensures Reachable(maze, a, c)
  {
    var p :| WalkTo(maze, b, p, c);
    WalkCons(maze, a, b, p);
    assert WalkTo(maze, a, [b] + p, c);
  }

  /** A walk, then one move. */
  lemma ReachExtend(maze: Maze, a: Cell, b: Cell, c: Cell)
    requires WellFormed(maze) && Reachable(maze, a, b) && Adjacent(maze, b, c)
    ensures Reachable(maze, a, c)
  {
    var p :| WalkTo(maze, a, p, b);
    WalkExtend(maze, a, p, c);
    assert WalkTo(maze, a, p + [c], c);
  }

  /** A chain of cells, each one move from the one before, leads from its first cell to its
      last. */
  lemma {:induction false} ReachAlong(maze: Maze, cells: seq<Cell>)
    requires WellFormed(maze) && cells != []
    requires forall i :: 0 < i < |cells| ==> Adjacent(maze, cells[i - 1], cells[i])
    ensures Reachable(maze, cells[0], cells[|cells| - 1])
  {
    if |cells| == 1 {
      ReachRefl(maze, cells[0]);
    } else {
      ReachAlong(maze, cells[1..]);
      assert cells[1..][0] == cells[1];
      assert Adjacent(maze, cells[0], cells[1]);
      ReachStep(maze, cells[0], cells[1], cells[|cells| - 1]);
    }
  }

  /** Walks, and so reachability and shortest paths, depend only on which cells are open. */
  lemma SameOpenWalks(m1: Maze, m2: Maze, a: Cell, path: seq<Cell>)
    requires WellFormed(m1) && WellFormed(m2) && SameOpen(m1, m2)
    ensures IsWalk(m1, a, path) <==> IsWalk(m2, a, path)
  {
  }

  lemma SameOpenReach(m1: Maze, m2: Maze, a: Cell, b: Cell)
    requires WellFormed(m1) && WellFormed(m2) && SameOpen(m1, m2)
    ensures Reachable(m1, a, b) <==> Reachable(m2, a, b)
  {
    forall p ensures WalkTo(m1, a, p, b) <==> WalkTo(m2, a, p, b) {
      SameOpenWalks(m1, m2, a, p);
    }
  }

  /** A shortest path is empty exactly when it starts at its goal. */
  lemma ShortestEmpty(maze: Maze, a: Cell, path: seq<Cell>, b: Cell)
    requires WellFormed(maze) && Shortest(maze, a, path, b)
    ensures path == [] <==> a == b
  {
    if a == b {
      assert WalkTo(maze, a, [], b);
    }
  }

  /** After the first move of a shortest path, the rest is a shortest path from there. */
  lemma ShortestTail(maze: Maze, a: Cell, path: seq<Cell>, b: Cell)
    requires WellFormed(maze) && Shortest(maze, a, path, b) && path != []
    ensures Adjacent(maze, a, path[0])
    ensures Shortest(maze, path[0], path[1..], b)
  {
    WalkTail(maze, a, path);
    forall q | WalkTo(maze, path[0], q, b) ensures |path| - 1 <= |q| {
      WalkCons(maze, a, path[0], q);
      assert WalkTo(maze, a, [path[0]] + q, b);
    }
  }

  /** From a cell next to the goal, the shortest path is the single move onto the goal. */
  lemma ShortestFromNeighbor(maze: Maze, a: Cell, path: seq<Cell>, b: Cell)
    requires WellFormed(maze) && Adjacent(maze, a, b) && Shortest(maze, a, path, b)
    ensures path == [b]
  {
    assert WalkTo(maze, a, [b], b);
    ShortestEmpty(maze, a, path, b);
  }

  /** The cell before position `k` of a walk is one of that position's neighbours one move closer. */
  lemma PrefixWitness(maze: Maze, start: Cell, path: seq<Cell>, k: nat)
    requires WellFormed(maze) && IsWalk(maze, start, path) && k < |path|
    ensures CloserNeighbor(maze, start, From(start, path, k), path[k], k)
  {
    WalkPrefix(maze, start, path, k);
    assert WalkTo(maze, start, path[..k], From(start, path, k));
  }

  /** Two walks that both break ties by `(row, col)` and agree at position `k` enter it from the
      same cell. */
  lemma LeastAgreeStep(maze: Maze, start: Cell, p1: seq<Cell>, p2: seq<Cell>, k: nat)
    requires WellFormed(maze) && IsWalk(maze, start, p1) && IsWalk(maze, start, p2)
    requires TieBroken(maze, start, p1) && TieBroken(maze, start, p2)
    requires k < |p1| && k < |p2| && p1[k] == p2[k]
    ensures From(start, p1, k) == From(start, p2, k)
  {
    PrefixWitness(maze, start, p1, k);
    PrefixWitness(maze, start, p2, k);
    var a1, a2 := From(start, p1, k), From(start, p2, k);
    assert CellLeq(a1, a2);
    assert CellLeq(a2, a1);
  }

  /** Two walks that both break ties by `(row, col)` enter every position where they agree from
      the same cell. */
  lemma LeastAgreeAll(maze: Maze, start: Cell, p1: seq<Cell>, p2: seq<Cell>)
    requires WellFormed(maze) && IsWalk(maze, start, p1) && IsWalk(maze, start, p2)
    requires TieBroken(maze, start, p1) && TieBroken(maze, start, p2)
    ensures forall k :: 0 <= k < |p1| && k < |p2| && p1[k] == p2[k] ==> From(start, p1, k) == From(start, p2, k)
  {
    forall k | 0 <= k < |p1| && k < |p2| && p1[k] == p2[k] ensures From(start, p1, k) == From(start, p2, k) {
      LeastAgreeStep(maze, start, p1, p2, k);
    }
  }

  /** Two sequences of the same length with the same last cell, each of whose agreeing positions
      is entered from the same cell, agree from position `k` on. */
  lemma {:induction false} AgreeFromEnd(start: Cell, p1: seq<Cell>, p2: seq<Cell>, k: nat)
    requires |p1| == |p2| && Last(start, p1) == Last(start, p2) && k <= |p1|
    requires forall j :: 0 <= j < |p1| && p1[j] == p2[j] ==> From(start, p1, j) == From(start, p2, j)
    ensures From(start, p1, k) == From(start, p2, k) && p1[k..] == p2[k..]
    decreases |p1| - k
  {
    if k < |p1| {
      AgreeFromEnd(start, p1, p2, k + 1);
      assert p1[k] == From(start, p1, k + 1) == From(start, p2, k + 1) == p2[k];
      assert p1[k..] == [p1[k]] + p1[k + 1..];
      assert p2[k..] == [p2[k]] + p2[k + 1..];
    }
  }

  /** Two shortest walks between the same cells have the same length. */
  lemma ShortestSameLength(maze: Maze, start: Cell, p1: seq<Cell>, p2: seq<Cell>, goal: Cell)
    requires WellFormed(maze) && Shortest(maze, start, p1, goal) && Shortest(maze, start, p2, goal)
    ensures |p1| == |p2|
  {
    assert WalkTo(maze, start, p1, goal) && WalkTo(maze, start, p2, goal);
  }

  /** The least walk is unique: the `(row, col)` order leaves no choice between shortest walks. */
  lemma LeastWalkUnique(maze: Maze, start: Cell, p1: seq<Cell>, p2: seq<Cell>, goal: Cell)
    requires WellFormed(maze) && LeastWalk(maze, start, p1, goal) && LeastWalk(maze, start, p2, goal)
    ensures p1 == p2
  {
    ShortestSameLength(maze, start, p1, p2, goal);
    LeastAgreeAll(maze, start, p1, p2);
    AgreeFromEnd(start, p1, p2, 0);
    assert p1 == p1[0..] && p2 == p2[0..];
  }
}
