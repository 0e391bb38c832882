/** The ghosts' pathfinder: a uniform-cost search over a min-heap of (cost, cell) entries.
    A cell is marked visited when it is discovered, so with unit costs the search behaves as a
    breadth-first search; ties between equal costs go to the smaller (row, col). The path is
    rebuilt backwards from the goal through the predecessor map. */
module Pathfinding {
  import opened Grid

  datatype Option<T> = None | Some(value: T)

  /** A heap entry (cost, (row, col)). */
  type Entry = (nat, Cell)

  /** Python's ordering of the tuple (cost, (row, col)). */
  predicate EntryLess(a: Entry, b: Entry) {
    a.0 < b.0 ||
    (a.0 == b.0 && (a.1.row < b.1.row || (a.1.row == b.1.row && a.1.col < b.1.col)))
  }

  /** Removes a least entry of the heap (heapq.heappop). */
  method HeapPop(heap: seq<Entry>) returns (top: Entry, rest: seq<Entry>)
    requires heap != []
    ensures multiset(heap) == multiset(rest) + multiset{top} && |rest| == |heap| - 1
    ensures top in heap && forall e :: e in heap ==> !EntryLess(e, top)
  {
    var m := 0;
    var k := 1;
    while k < |heap|
      invariant m < k <= |heap|
      invariant forall j :: 0 <= j < k ==> !EntryLess(heap[j], heap[m])
    {
      if EntryLess(heap[k], heap[m]) {
        m := k;
      }
      k := k + 1;
    }
    top, rest := heap[m], heap[..m] + heap[m + 1..];
    assert heap == heap[..m] + [top] + heap[m + 1..];
  }

  function Reversed(s: seq<Cell>): (r: seq<Cell>)
    ensures |r| == |s|
    ensures forall i :: 0 <= i < |s| ==> r[i] == s[|s| - 1 - i]
  {
    if s == [] then [] else [s[|s| - 1]] + Reversed(s[..|s| - 1])
  }

  /** The predecessor map `visited` with the ghost distances `dist`: `start` has no predecessor,
      every other discovered cell has a discovered predecessor one move before it and one step
      further from `start`. */
  ghost predicate TreeOk(maze: Maze, start: Cell, visited: map<Cell, Option<Cell>>, dist: map<Cell, nat>)
    requires WellFormed(maze)
  {
    start in visited && visited[start] == None && dist.Keys == visited.Keys && dist[start] == 0 &&
    forall v :: v in visited && v != start ==>
      visited[v].Some? && visited[v].value in visited &&
      Adjacent(maze, visited[v].value, v) && dist[v] == dist[visited[v].value] + 1
  }

  /** No walk from `start` to a discovered cell is shorter than its recorded distance. */
  ghost predicate Optimal(maze: Maze, start: Cell, dist: map<Cell, nat>)
    requires WellFormed(maze)
  {
    forall v, q {:trigger WalkTo(maze, start, q, v)} :: v in dist && WalkTo(maze, start, q, v) ==> dist[v] <= |q|
  }

  /** Every cell within `level` moves of `start` has been discovered. */
  ghost predicate Covers(maze: Maze, start: Cell, visited: map<Cell, Option<Cell>>, level: nat)
    requires WellFormed(maze)
  {
    forall q {:trigger IsWalk(maze, start, q)} :: IsWalk(maze, start, q) && |q| <= level ==> Last(start, q) in visited
  }

  /** The heap holds, once each, an entry (dist[v], v) for every discovered cell `v` that is
      neither expanded (`done`) nor being expanded (`busy`); its costs are `level` or
      `level + 1`. */
  ghost predicate HeapOk(heap: seq<Entry>, visited: map<Cell, Option<Cell>>, dist: map<Cell, nat>,
                         done: set<Cell>, busy: set<Cell>, level: nat)
  {
    dist.Keys == visited.Keys &&
    (forall e {:trigger e in heap} :: e in heap ==>
       e.1 in visited && e.0 == dist[e.1] && e.1 !in done && e.1 !in busy && level <= e.0 <= level + 1) &&
    (forall e :: multiset(heap)[e] <= 1) &&
    (forall v :: v in visited && v !in done && v !in busy ==> (dist[v], v) in heap)
  }

  /** Expanded cells are discovered, no further than `level`, and all their neighbours are
      discovered. */
  ghost predicate DoneOk(maze: Maze, visited: map<Cell, Option<Cell>>, dist: map<Cell, nat>,
                         done: set<Cell>, level: nat)
    requires WellFormed(maze)
  {
    done <= visited.Keys && dist.Keys == visited.Keys &&
    (forall u :: u in done ==> dist[u] <= level) &&
    (forall u, n :: u in done && Adjacent(maze, u, n) ==> n in visited)
  }

  ghost predicate SearchOk(maze: Maze, start: Cell, heap: seq<Entry>, visited: map<Cell, Option<Cell>>,
                           dist: map<Cell, nat>, done: set<Cell>, busy: set<Cell>, level: nat)
    requires WellFormed(maze)
  {
    TreeOk(maze, start, visited, dist) && Optimal(maze, start, dist) && Covers(maze, start, visited, level) &&
    HeapOk(heap, visited, dist, done, busy, level) && DoneOk(maze, visited, dist, done, level)
  }

  /** The tie-break of the search, first half: every discovered cell other than `start` was
      entered from the least `(row, col)` among its neighbours one move closer to `start`. */
  ghost predicate LeastTree(maze: Maze, start: Cell, visited: map<Cell, Option<Cell>>, dist: map<Cell, nat>)
    requires WellFormed(maze)
  {
    forall v :: v in visited && visited[v].Some? && v in dist && dist[v] >= 1
      ==> LeastEntry(maze, start, v, visited[v].value, dist[v] - 1)
  }

  /** The tie-break of the search, second half: the cell being expanded (`busy`) comes first in
      `(row, col)` order among the cells of its level still waiting in the heap. */
  ghost predicate BusyLeast(visited: map<Cell, Option<Cell>>, dist: map<Cell, nat>, done: set<Cell>, busy: set<Cell>) {
    forall b, w {:trigger CellLeq(b, w)} ::
      b in busy && w in visited && w !in done && w !in busy && b in dist && w in dist && dist[w] == dist[b]
      ==> CellLeq(b, w)
  }

  /** All cells of the board. */
  ghost function Board(): set<Cell> {
    set r: int, c: int | 0 <= r < Rows && 0 <= c < Cols :: Cell(r, c)
  }

  /** When the least entry costs `level + 1`, no entry costs `level` any more and every cell of
      that level is expanded, so every cell within `level + 1` moves has been discovered. */
  lemma CoversNextLevel(maze: Maze, start: Cell, heap: seq<Entry>, visited: map<Cell, Option<Cell>>,
                        dist: map<Cell, nat>, done: set<Cell>, level: nat, top: Entry)
    requires WellFormed(maze) && SearchOk(maze, start, heap, visited, dist, done, {}, level)
    requires top in heap && top.0 == level + 1
    requires forall e :: e in heap ==> !EntryLess(e, top)
    ensures Covers(maze, start, visited, level + 1)
  {
    forall q | IsWalk(maze, start, q) && |q| <= level + 1 ensures Last(start, q) in visited {
      if |q| == level + 1 {
        WalkPrefix(maze, start, q, level);
        var u := From(start, q, level);
        assert u in visited;
        assert WalkTo(maze, start, q[..level], u);
        assert dist[u] <= level;
        if u !in done {
          assert (dist[u], u) in heap;
          assert EntryLess((dist[u], u), top);
        }
        assert Adjacent(maze, u, q[level]);
      }
    }
  }

  /** A cell discovered from the cell being expanded at `level` is no closer than `level + 1`
      moves, since every cell within `level` moves is discovered already. */
  lemma DiscoverOptimal(maze: Maze, start: Cell, heap: seq<Entry>, visited: map<Cell, Option<Cell>>,
                        dist: map<Cell, nat>, done: set<Cell>, current: Cell, level: nat, n: Cell)
    requires WellFormed(maze) && SearchOk(maze, start, heap, visited, dist, done, {current}, level)
    requires n !in visited
    ensures Optimal(maze, start, dist[n := level + 1])
  {
    forall v, q | v in dist[n := level + 1] && WalkTo(maze, start, q, v) ensures dist[n := level + 1][v] <= |q| {
      if v == n {
        assert IsWalk(maze, start, q) && Last(start, q) !in visited;
      }
    }
  }

  /** Discovering `n` from the cell being expanded at `level` keeps the search invariant. */
  lemma Discover(maze: Maze, start: Cell, heap: seq<Entry>, visited: map<Cell, Option<Cell>>,
                 dist: map<Cell, nat>, done: set<Cell>, current: Cell, level: nat, n: Cell)
    requires WellFormed(maze) && SearchOk(maze, start, heap, visited, dist, done, {current}, level)
    requires current in visited && dist[current] == level && current !in done
    requires Adjacent(maze, current, n) && n !in visited
    ensures SearchOk(maze, start, heap + [(level + 1, n)], visited[n := Some(current)],
                     dist[n := level + 1], done, {current}, level)
  {
    var visited', dist', heap' := visited[n := Some(current)], dist[n := level + 1], heap + [(level + 1, n)];
    DiscoverOptimal(maze, start, heap, visited, dist, done, current, level, n);
    assert (level + 1, n) !in heap;
    forall e ensures multiset(heap')[e] <= 1 {
      assert multiset(heap') == multiset(heap) + multiset{(level + 1, n)};
    }
    assert HeapOk(heap', visited', dist', done, {current}, level);
  }

  /** Discovering `n` from `current` keeps the tie-break: no neighbour of `n` one level closer to
      `start` comes before `current`, since each such neighbour is expanded already (and then `n`
      would be discovered) or is waiting in the heap at the level of `current`. */
  lemma DiscoverLeast(maze: Maze, start: Cell, heap: seq<Entry>, visited: map<Cell, Option<Cell>>,
                    dist: map<Cell, nat>, done: set<Cell>, current: Cell, level: nat, n: Cell)
    requires WellFormed(maze) && SearchOk(maze, start, heap, visited, dist, done, {current}, level)
    requires BusyLeast(visited, dist, done, {current})
    requires current in visited && dist[current] == level && current !in done
    requires Adjacent(maze, current, n) && n !in visited
    ensures LeastEntry(maze, start, n, current, level)
  {
    forall w | CloserNeighbor(maze, start, w, n, level) ensures CellLeq(current, w) {
      var q :| WalkTo(maze, start, q, w) && |q| == level;
      assert w in visited && dist[w] <= level;
      if w != current {
        assert w !in done;
        assert (dist[w], w) in heap;
      }
    }
  }

  /** A closed search that never discovered `goal` shows that `goal` cannot be reached. */
  lemma Exhausted(maze: Maze, start: Cell, visited: map<Cell, Option<Cell>>, dist: map<Cell, nat>,
                  done: set<Cell>, level: nat, goal: Cell)
    requires WellFormed(maze) && SearchOk(maze, start, [], visited, dist, done, {}, level)
    requires goal !in visited
    ensures !Reachable(maze, start, goal)
  {
    forall q | IsWalk(maze, start, q) ensures Last(start, q) != goal {
      WalkClosed(maze, start, visited.Keys, q);
    }
  }

  /** Every cell of `path`, walked from `a`, is discovered with the cell before it as its recorded
      predecessor and lies one recorded step further than that cell. */
  ghost predicate Recorded(visited: map<Cell, Option<Cell>>, dist: map<Cell, nat>, a: Cell, path: seq<Cell>) {
    a in dist &&
    forall i :: 0 <= i < |path| ==>
      path[i] in visited && visited[path[i]] == Some(From(a, path, i)) && path[i] in dist &&
      dist[path[i]] == dist[a] + i + 1
  }

  lemma RecordedCons(visited: map<Cell, Option<Cell>>, dist: map<Cell, nat>, b: Cell, c: Cell, path: seq<Cell>)
    requires Recorded(visited, dist, c, path) && b in dist
    requires c in visited && visited[c] == Some(b) && dist[c] == dist[b] + 1
    ensures Recorded(visited, dist, b, [c] + path)
  {
    var q := [c] + path;
    forall i | 0 < i < |q| ensures q[i] in visited && visited[q[i]] == Some(From(b, q, i)) {
      assert q[i] == path[i - 1] && From(b, q, i) == From(c, path, i - 1);
    }
  }

  /** Walks the predecessor map back from `goal` and reverses the trail. `None` is the failed
      lookup of a goal that was never discovered. Each cell of the result is entered from its
      recorded predecessor and lies at its recorded distance. */
  method RebuildPath(maze: Maze, start: Cell, goal: Cell, visited: map<Cell, Option<Cell>>, ghost dist: map<Cell, nat>)
    returns (result: Option<seq<Cell>>)
    requires WellFormed(maze) && TreeOk(maze, start, visited, dist)
    ensures result.None? <==> goal !in visited
    ensures result.Some? ==> WalkTo(maze, start, result.value, goal) && |result.value| == dist[goal]
    ensures result.Some? ==> Recorded(visited, dist, start, result.value)
  {
    var trail: seq<Cell> := [];
    var cur: Option<Cell> := Some(goal);
    while cur.Some? && cur.value != start
      invariant cur.Some?
      invariant trail == [] ==> cur.value == goal
      invariant trail != [] ==> cur.value in visited
      invariant WalkTo(maze, cur.value, Reversed(trail), goal)
      invariant cur.value in visited ==> goal in visited && |trail| + dist[cur.value] == dist[goal]
      invariant cur.value in visited ==> Recorded(visited, dist, cur.value, Reversed(trail))
      decreases if cur.Some? && cur.value in dist then dist[cur.value] else 0
    {
      var c := cur.value;
      trail := trail + [c];
      if c !in visited {
        return None;
      }
      cur := visited[c];
      assert Reversed(trail) == [c] + Reversed(trail[..|trail| - 1]);
      WalkCons(maze, cur.value, c, Reversed(trail[..|trail| - 1]));
      RecordedCons(visited, dist, cur.value, c, Reversed(trail[..|trail| - 1]));
    }
    result := Some(Reversed(trail));
  }

  /** Popping the least entry: a cost of `level + 1` opens the next level; the popped cell is
      the one being expanded. */
  lemma Popped(maze: Maze, start: Cell, heap: seq<Entry>, visited: map<Cell, Option<Cell>>,
               dist: map<Cell, nat>, done: set<Cell>, level: nat, top: Entry, rest: seq<Entry>)
    requires WellFormed(maze) && SearchOk(maze, start, heap, visited, dist, done, {}, level)
    requires multiset(heap) == multiset(rest) + multiset{top}
    requires forall e :: e in heap ==> !EntryLess(e, top)
    ensures level <= top.0 <= level + 1
    ensures top.1 in visited && dist[top.1] == top.0 && top.1 !in done && top.1 in Board() + {start}
    ensures SearchOk(maze, start, rest, visited, dist, done, {top.1}, top.0)
    ensures BusyLeast(visited, dist, done, {top.1})
  {
    assert top in multiset(heap);
    assert top in heap;
    PoppedLeast(maze, start, heap, visited, dist, done, level, top);
    OnBoard(maze, start, visited, dist, top.1);
    if top.0 == level + 1 {
      CoversNextLevel(maze, start, heap, visited, dist, done, level, top);
    }
    assert multiset(heap)[top] <= 1;
    assert top !in multiset(rest);
    forall e | e in rest ensures e in heap && e.1 != top.1 {
      assert multiset(rest)[e] > 0;
      assert multiset(heap)[e] > 0;
      assert e in heap && e != top;
      assert e.0 == dist[e.1] && top.0 == dist[top.1];
    }
    forall v | v in visited && v !in done && v !in {top.1} ensures (dist[v], v) in rest {
      assert (dist[v], v) in multiset(heap);
    }
    forall e ensures multiset(rest)[e] <= 1 {
      assert multiset(heap)[e] <= 1;
    }
  }

  /** The popped cell comes first in `(row, col)` order among the cells of its level still in
      the heap, because the heap's order breaks equal costs by `(row, col)`. */
  lemma PoppedLeast(maze: Maze, start: Cell, heap: seq<Entry>, visited: map<Cell, Option<Cell>>,
                    dist: map<Cell, nat>, done: set<Cell>, level: nat, top: Entry)
    requires WellFormed(maze) && SearchOk(maze, start, heap, visited, dist, done, {}, level)
    requires top in heap && forall e :: e in heap ==> !EntryLess(e, top)
    ensures BusyLeast(visited, dist, done, {top.1})
  {
    forall w | w in visited && w !in done && w != top.1 && w in dist && dist[w] == dist[top.1]
      ensures CellLeq(top.1, w)
    {
      assert (dist[w], w) in heap;
    }
  }

  /** Once every neighbour of the cell being expanded is discovered, it joins the expanded
      cells. */
  lemma Finish(maze: Maze, start: Cell, heap: seq<Entry>, visited: map<Cell, Option<Cell>>,
               dist: map<Cell, nat>, done: set<Cell>, current: Cell, level: nat)
    requires WellFormed(maze) && SearchOk(maze, start, heap, visited, dist, done, {current}, level)
    requires current in visited && dist[current] == level
    requires forall n :: Adjacent(maze, current, n) ==> n in visited
    ensures SearchOk(maze, start, heap, visited, dist, done + {current}, {}, level)
    ensures BusyLeast(visited, dist, done + {current}, {})
  {
  }

  /** The open neighbours of `current` not yet discovered, in the scan order of `get_neighbors`. */
  function Added(maze: Maze, current: Cell, visited: map<Cell, Option<Cell>>): seq<Cell>
    requires WellFormed(maze)
  {
    Undiscovered(Neighbors(maze, current), visited)
  }

  /** One neighbour `n` of the cell being expanded: if it is not yet visited, record `current`
      as its predecessor and push it with cost `cost + 1`; otherwise nothing changes. */
  method Visit(current: Cell, cost: nat, n: Cell, heap: seq<Entry>, visited: map<Cell, Option<Cell>>,
               ghost dist: map<Cell, nat>)
    returns (heap': seq<Entry>, visited': map<Cell, Option<Cell>>, ghost dist': map<Cell, nat>)
    ensures n !in visited ==>
      visited' == visited[n := Some(current)] && dist' == dist[n := cost + 1] && heap' == heap + [(cost + 1, n)]
    ensures n in visited ==> visited' == visited && dist' == dist && heap' == heap
  {
    heap', visited', dist' := heap, visited, dist;
    if n !in visited {
      visited' := visited[n := Some(current)];
      dist' := dist[n := cost + 1];
      heap' := heap + [(cost + 1, n)];
    }
  }

  /** The cells of `ns` not yet discovered, in the order of `ns`. */
  function Undiscovered(ns: seq<Cell>, visited: map<Cell, Option<Cell>>): (r: seq<Cell>)
    ensures forall v :: v in r <==> v in ns && v !in visited
  {
    if ns == [] then []
    else Undiscovered(ns[..|ns| - 1], visited) + (if ns[|ns| - 1] in visited then [] else [ns[|ns| - 1]])
  }

  /** The heap entries pushed for `cells`, in order, each at cost `cost`. */
  function Pushed(cells: seq<Cell>, cost: nat): seq<Entry> {
    if cells == [] then [] else Pushed(cells[..|cells| - 1], cost) + [(cost, cells[|cells| - 1])]
  }

  /** `m` with every cell of `cells` mapped to `x`, assigned in order. */
  function Assign<V>(m: map<Cell, V>, cells: seq<Cell>, x: V): map<Cell, V> {
    if cells == [] then m else Assign(m, cells[..|cells| - 1], x)[cells[|cells| - 1] := x]
  }

  /** The keys of `Assign(m, cells, x)` are those of `m` and the cells of `cells`; the cells of
      `cells` map to `x` and every other key keeps its value. */
  lemma {:induction false} AssignFacts<V>(m: map<Cell, V>, cells: seq<Cell>, x: V)
    ensures forall v :: v in Assign(m, cells, x) <==> v in m || v in cells
    ensures forall v :: v in Assign(m, cells, x) ==> Assign(m, cells, x)[v] == if v in cells then x else m[v]
  {
    if cells != [] {
      AssignFacts(m, cells[..|cells| - 1], x);
      assert cells == cells[..|cells| - 1] + [cells[|cells| - 1]];
    }
  }

  lemma PushedSnoc(cells: seq<Cell>, x: Cell, cost: nat)
    ensures Pushed(cells + [x], cost) == Pushed(cells, cost) + [(cost, x)]
  {
    assert (cells + [x])[..|cells|] == cells;
  }

  lemma AssignSnoc<V>(m: map<Cell, V>, cells: seq<Cell>, y: Cell, x: V)
    ensures Assign(m, cells + [y], x) == Assign(m, cells, x)[y := x]
  {
    assert (cells + [y])[..|cells|] == cells;
  }

  lemma UndiscoveredSnoc(ns: seq<Cell>, k: nat, visited: map<Cell, Option<Cell>>)
    requires k < |ns|
    ensures Undiscovered(ns[..k + 1], visited) ==
            Undiscovered(ns[..k], visited) + (if ns[k] in visited then [] else [ns[k]])
  {
    assert ns[..k + 1][..k] == ns[..k];
  }

  /** The neighbour scan lists no cell twice. */
  lemma NeighborsDistinct(maze: Maze, p: Cell)
    requires WellFormed(maze)
    ensures forall i, j :: 0 <= i < j < |Neighbors(maze, p)| ==> Neighbors(maze, p)[i] != Neighbors(maze, p)[j]
  {
    var ns := Neighbors(maze, p);
    forall i, j | 0 <= i < j < |ns| ensures ns[i] != ns[j] {
      assert ScanRank(p, ns[i]) < ScanRank(p, ns[j]);
    }
  }

  lemma {:induction false} UndiscoveredDistinct(ns: seq<Cell>, visited: map<Cell, Option<Cell>>)
    requires forall i, j :: 0 <= i < j < |ns| ==> ns[i] != ns[j]
    ensures forall i, j :: 0 <= i < j < |Undiscovered(ns, visited)| ==>
      Undiscovered(ns, visited)[i] != Undiscovered(ns, visited)[j]
  {
    if ns != [] {
      var init := ns[..|ns| - 1];
      UndiscoveredDistinct(init, visited);
      assert ns[|ns| - 1] !in init;
    }
  }

  /** The state after visiting `ns[..k]`: its undiscovered cells are recorded with predecessor
      `current` and distance `cost + 1`, and pushed at `cost + 1` in order. */
  ghost predicate Progress(heap: seq<Entry>, visited: map<Cell, Option<Cell>>, dist: map<Cell, nat>,
                           heap': seq<Entry>, visited': map<Cell, Option<Cell>>, dist': map<Cell, nat>,
                           current: Cell, cost: nat, ns: seq<Cell>, k: nat)
    requires k <= |ns|
  {
    var pending := Undiscovered(ns[..k], visited);
    visited' == Assign(visited, pending, Some(current)) && dist' == Assign<nat>(dist, pending, cost + 1) &&
    heap' == heap + Pushed(pending, cost + 1)
  }

  /** Assigning `x` to `ns[k]` when it is undiscovered extends the assignment to `ns[..k + 1]`. */
  lemma AssignStep<V>(m: map<Cell, V>, m1: map<Cell, V>, m2: map<Cell, V>, visited: map<Cell, Option<Cell>>,
                      x: V, ns: seq<Cell>, k: nat)
    requires k < |ns| && m1 == Assign(m, Undiscovered(ns[..k], visited), x)
    requires ns[k] !in visited ==> m2 == m1[ns[k] := x]
    requires ns[k] in visited ==> m2 == m1
    ensures m2 == Assign(m, Undiscovered(ns[..k + 1], visited), x)
  {
    var pending := Undiscovered(ns[..k], visited);
    UndiscoveredSnoc(ns, k, visited);
    if ns[k] !in visited {
      AssignSnoc(m, pending, ns[k], x);
    } else {
      assert pending + [] == pending;
    }
  }

  lemma HeapStep(heap: seq<Entry>, heap1: seq<Entry>, heap2: seq<Entry>, visited: map<Cell, Option<Cell>>,
                 cost: nat, ns: seq<Cell>, k: nat)
    requires k < |ns| && heap1 == heap + Pushed(Undiscovered(ns[..k], visited), cost + 1)
    requires ns[k] !in visited ==> heap2 == heap1 + [(cost + 1, ns[k])]
    requires ns[k] in visited ==> heap2 == heap1
    ensures heap2 == heap + Pushed(Undiscovered(ns[..k + 1], visited), cost + 1)
  {
    var pending := Undiscovered(ns[..k], visited);
    UndiscoveredSnoc(ns, k, visited);
    if ns[k] !in visited {
      PushedSnoc(pending, ns[k], cost + 1);
      assert heap2 == heap + (Pushed(pending, cost + 1) + [(cost + 1, ns[k])]);
    } else {
      assert pending + [] == pending;
    }
  }

  /** Visiting `ns[k]`, which does not occur earlier in `ns`, extends the progress by one. */
  lemma ProgressStep(heap: seq<Entry>, visited: map<Cell, Option<Cell>>, dist: map<Cell, nat>,
                     heap1: seq<Entry>, visited1: map<Cell, Option<Cell>>, dist1: map<Cell, nat>,
                     heap2: seq<Entry>, visited2: map<Cell, Option<Cell>>, dist2: map<Cell, nat>,
                     current: Cell, cost: nat, ns: seq<Cell>, k: nat)
    requires k < |ns| && ns[k] !in ns[..k]
    requires Progress(heap, visited, dist, heap1, visited1, dist1, current, cost, ns, k)
    requires ns[k] !in visited1 ==>
      visited2 == visited1[ns[k] := Some(current)] && dist2 == dist1[ns[k] := cost + 1] && heap2 == heap1 + [(cost + 1, ns[k])]
    requires ns[k] in visited1 ==> visited2 == visited1 && dist2 == dist1 && heap2 == heap1
    ensures Progress(heap, visited, dist, heap2, visited2, dist2, current, cost, ns, k + 1)
  {
    AssignFacts(visited, Undiscovered(ns[..k], visited), Some(current));
    assert ns[k] in visited1 <==> ns[k] in visited;
    AssignStep(visited, visited1, visited2, visited, Some(current), ns, k);
    AssignStep<nat>(dist, dist1, dist2, visited, cost + 1, ns, k);
    HeapStep(heap, heap1, heap2, visited, cost, ns, k);
  }

  /** Adding a cell entered from its least closer neighbour keeps the tie-break. */
  lemma LeastTreeAdd(maze: Maze, start: Cell, visited: map<Cell, Option<Cell>>, dist: map<Cell, nat>,
                     done: set<Cell>, current: Cell, level: nat, n: Cell)
    requires WellFormed(maze) && LeastTree(maze, start, visited, dist) && BusyLeast(visited, dist, done, {current})
    requires LeastEntry(maze, start, n, current, level) && current in dist && dist[current] == level && n != current
    ensures LeastTree(maze, start, visited[n := Some(current)], dist[n := level + 1])
    ensures BusyLeast(visited[n := Some(current)], dist[n := level + 1], done, {current})
  {
  }

  /** Discovering one neighbour of the cell being expanded keeps the search invariant and the
      tie-break. */
  lemma DiscoverOne(maze: Maze, start: Cell, heap: seq<Entry>, visited: map<Cell, Option<Cell>>,
                    dist: map<Cell, nat>, done: set<Cell>, current: Cell, cost: nat, n: Cell)
    requires WellFormed(maze) && SearchOk(maze, start, heap, visited, dist, done, {current}, cost)
    requires LeastTree(maze, start, visited, dist) && BusyLeast(visited, dist, done, {current})
    requires current in visited && dist[current] == cost && current !in done
    requires Adjacent(maze, current, n) && n !in visited
    ensures SearchOk(maze, start, heap + [(cost + 1, n)], visited[n := Some(current)], dist[n := cost + 1], done, {current}, cost)
    ensures LeastTree(maze, start, visited[n := Some(current)], dist[n := cost + 1])
    ensures BusyLeast(visited[n := Some(current)], dist[n := cost + 1], done, {current})
  {
    Discover(maze, start, heap, visited, dist, done, current, cost, n);
    DiscoverLeast(maze, start, heap, visited, dist, done, current, cost, n);
    LeastTreeAdd(maze, start, visited, dist, done, current, cost, n);
  }

  /** Before the last cell of `cells` is discovered, `current` keeps its entry and that last cell
      is still undiscovered. */
  lemma AssignLast(visited: map<Cell, Option<Cell>>, dist: map<Cell, nat>, cells: seq<Cell>, current: Cell, cost: nat)
    requires cells != [] && current in visited && current in dist && dist[current] == cost
    requires forall i :: 0 <= i < |cells| ==> cells[i] !in visited
    requires forall i, j :: 0 <= i < j < |cells| ==> cells[i] != cells[j]
    ensures var init, n := cells[..|cells| - 1], cells[|cells| - 1];
      current in Assign(visited, init, Some(current)) && current in Assign<nat>(dist, init, cost + 1) &&
      Assign<nat>(dist, init, cost + 1)[current] == cost && n !in Assign(visited, init, Some(current))
  {
    var init, n := cells[..|cells| - 1], cells[|cells| - 1];
    AssignFacts(visited, init, Some(current));
    AssignFacts<nat>(dist, init, cost + 1);
    assert n !in init;
    assert current !in init;
  }

  /** Discovering the cells of `cells` one after another from the cell being expanded keeps the
      search invariant and the tie-break. */
  lemma {:induction false} DiscoverAll(maze: Maze, start: Cell, heap: seq<Entry>, visited: map<Cell, Option<Cell>>,
                                       dist: map<Cell, nat>, done: set<Cell>, current: Cell, cost: nat, cells: seq<Cell>)
    requires WellFormed(maze) && SearchOk(maze, start, heap, visited, dist, done, {current}, cost)
    requires LeastTree(maze, start, visited, dist) && BusyLeast(visited, dist, done, {current})
    requires current in visited && dist[current] == cost && current !in done
    requires forall i :: 0 <= i < |cells| ==> Adjacent(maze, current, cells[i]) && cells[i] !in visited
    requires forall i, j :: 0 <= i < j < |cells| ==> cells[i] != cells[j]
    ensures SearchOk(maze, start, heap + Pushed(cells, cost + 1), Assign(visited, cells, Some(current)),
                     Assign<nat>(dist, cells, cost + 1), done, {current}, cost)
    ensures LeastTree(maze, start, Assign(visited, cells, Some(current)), Assign<nat>(dist, cells, cost + 1))
    ensures BusyLeast(Assign(visited, cells, Some(current)), Assign<nat>(dist, cells, cost + 1), done, {current})
    decreases |cells|
  {
    if cells != [] {
      var init, n := cells[..|cells| - 1], cells[|cells| - 1];
      DiscoverAll(maze, start, heap, visited, dist, done, current, cost, init);
      var heap1, visited1, dist1 := heap + Pushed(init, cost + 1), Assign(visited, init, Some(current)), Assign<nat>(dist, init, cost + 1);
      AssignLast(visited, dist, cells, current, cost);
      DiscoverOne(maze, start, heap1, visited1, dist1, done, current, cost, n);
      assert heap1 + [(cost + 1, n)] == heap + Pushed(cells, cost + 1);
    }
  }

  /** The loop over `get_neighbors(current)`, visiting each neighbour in scan order: exactly the
      undiscovered neighbours are added, each with `current` as its predecessor and distance
      `cost + 1`, and pushed at `cost + 1` in scan order; every earlier entry keeps its value. */
  method Expand(maze: Maze, current: Cell, cost: nat, heap: seq<Entry>,
                visited: map<Cell, Option<Cell>>, ghost dist: map<Cell, nat>)
    returns (heap': seq<Entry>, visited': map<Cell, Option<Cell>>, ghost dist': map<Cell, nat>)
    requires WellFormed(maze)
    ensures forall v :: v in visited' <==> v in visited || Adjacent(maze, current, v)
    ensures visited' == Assign(visited, Added(maze, current, visited), Some(current))
    ensures dist' == Assign<nat>(dist, Added(maze, current, visited), cost + 1)
    ensures heap' == heap + Pushed(Added(maze, current, visited), cost + 1)
    ensures forall v :: v in visited ==> v in visited' && visited'[v] == visited[v]
    ensures forall v :: v in visited' && v !in visited ==> visited'[v] == Some(current) && v in dist' && dist'[v] == cost + 1
  {
    var ns := Neighbors(maze, current);
    heap', visited', dist' := heap, visited, dist;
    assert ns[..0] == [];
    for k := 0 to |ns|
      invariant Progress(heap, visited, dist, heap', visited', dist', current, cost, ns, k)
    {
      assert ns[k] !in ns[..k] by {
        NeighborsDistinct(maze, current);
      }
      ghost var heap1, visited1, dist1 := heap', visited', dist';
      heap', visited', dist' := Visit(current, cost, ns[k], heap', visited', dist');
      ProgressStep(heap, visited, dist, heap1, visited1, dist1, heap', visited', dist', current, cost, ns, k);
    }
    assert ns[..|ns|] == ns;
    AssignFacts(visited, Undiscovered(ns, visited), Some(current));
    AssignFacts<nat>(dist, Undiscovered(ns, visited), cost + 1);
  }

  /** The cells added by expanding `current` are distinct undiscovered open neighbours of it, and
      once they are added every open neighbour of `current` is discovered. */
  lemma AddedFacts(maze: Maze, current: Cell, visited: map<Cell, Option<Cell>>)
    requires WellFormed(maze)
    ensures forall i :: 0 <= i < |Added(maze, current, visited)| ==>
      Adjacent(maze, current, Added(maze, current, visited)[i]) && Added(maze, current, visited)[i] !in visited
    ensures forall i, j :: 0 <= i < j < |Added(maze, current, visited)| ==>
      Added(maze, current, visited)[i] != Added(maze, current, visited)[j]
    ensures forall n :: Adjacent(maze, current, n) ==> n in Assign(visited, Added(maze, current, visited), Some(current))
  {
    var ns := Neighbors(maze, current);
    NeighborsDistinct(maze, current);
    UndiscoveredDistinct(ns, visited);
    AssignFacts(visited, Undiscovered(ns, visited), Some(current));
  }

  /** Expanding `current` into `heap'`, `visited'` and `dist'` keeps the search invariant and
      the tie-break, with `current` now among the expanded cells. */
  lemma Expanded(maze: Maze, start: Cell, heap: seq<Entry>, visited: map<Cell, Option<Cell>>,
                 dist: map<Cell, nat>, done: set<Cell>, current: Cell, cost: nat,
                 heap': seq<Entry>, visited': map<Cell, Option<Cell>>, dist': map<Cell, nat>)
    requires WellFormed(maze) && SearchOk(maze, start, heap, visited, dist, done, {current}, cost)
    requires LeastTree(maze, start, visited, dist) && BusyLeast(visited, dist, done, {current})
    requires current in visited && dist[current] == cost && current !in done
    requires heap' == heap + Pushed(Added(maze, current, visited), cost + 1)
    requires visited' == Assign(visited, Added(maze, current, visited), Some(current))
    requires dist' == Assign<nat>(dist, Added(maze, current, visited), cost + 1)
    ensures SearchOk(maze, start, heap', visited', dist', done + {current}, {}, cost)
    ensures LeastTree(maze, start, visited', dist') && BusyLeast(visited', dist', done + {current}, {})
  {
    var added := Undiscovered(Neighbors(maze, current), visited);
    AddedFacts(maze, current, visited);
    DiscoverAll(maze, start, heap, visited, dist, done, current, cost, added);
    Finish(maze, start, heap', visited', dist', done, current, cost);
  }

  /** Every discovered cell other than `start` is open, so it lies on the board. */
  lemma OnBoard(maze: Maze, start: Cell, visited: map<Cell, Option<Cell>>, dist: map<Cell, nat>, v: Cell)
    requires WellFormed(maze) && TreeOk(maze, start, visited, dist) && v in visited
    ensures v in Board() + {start}
  {
    if v != start {
      assert IsOpen(maze, v);
      assert Cell(v.row, v.col) in Board();
    }
  }

  /** The search starts with `start` discovered at cost 0 and on the heap. */
  lemma Started(maze: Maze, start: Cell)
    requires WellFormed(maze)
    ensures SearchOk(maze, start, [(0, start)], map[start := None], map[start := 0], {}, {}, 0)
    ensures LeastTree(maze, start, map[start := None], map[start := 0]) && BusyLeast(map[start := None], map[start := 0], {}, {})
  {
    forall q | IsWalk(maze, start, q) && |q| <= 0 ensures Last(start, q) == start {
      assert q == [];
    }
  }

  /** A walk rebuilt from a predecessor map whose every entry is the least closer neighbour
      breaks ties by `(row, col)`. */
  lemma RebuiltLeast(maze: Maze, start: Cell, visited: map<Cell, Option<Cell>>, dist: map<Cell, nat>, p: seq<Cell>)
    requires WellFormed(maze) && LeastTree(maze, start, visited, dist)
    requires Recorded(visited, dist, start, p) && dist[start] == 0
    ensures TieBroken(maze, start, p)
  {
    forall i | 0 <= i < |p| ensures LeastEntry(maze, start, p[i], From(start, p, i), i) {
      assert visited[p[i]] == Some(From(start, p, i)) && dist[p[i]] == i + 1;
    }
  }

  /** Pops the least entry of the heap. Its cell is a discovered cell of the current level or
      the next, not yet expanded, and it becomes the cell being expanded. */
  method PopLeast(maze: Maze, start: Cell, heap: seq<Entry>, ghost visited: map<Cell, Option<Cell>>,
                  ghost dist: map<Cell, nat>, ghost done: set<Cell>, ghost level: nat)
    returns (top: Entry, rest: seq<Entry>)
    requires WellFormed(maze) && heap != [] && SearchOk(maze, start, heap, visited, dist, done, {}, level)
    ensures level <= top.0 <= level + 1
    ensures top.1 in visited && dist[top.1] == top.0 && top.1 !in done && top.1 in Board() + {start}
    ensures SearchOk(maze, start, rest, visited, dist, done, {top.1}, top.0)
    ensures BusyLeast(visited, dist, done, {top.1})
  {
    top, rest := HeapPop(heap);
    Popped(maze, start, heap, visited, dist, done, level, top, rest);
  }

  /** A walk read back from a finished search is a shortest walk to `goal` that keeps the
      tie-break, and it is empty exactly when `goal` is `start`. */
  lemma Concluded(maze: Maze, start: Cell, goal: Cell, visited: map<Cell, Option<Cell>>, dist: map<Cell, nat>, p: seq<Cell>)
    requires WellFormed(maze) && TreeOk(maze, start, visited, dist) && Optimal(maze, start, dist)
    requires LeastTree(maze, start, visited, dist)
    requires WalkTo(maze, start, p, goal) && goal in dist && |p| == dist[goal] && Recorded(visited, dist, start, p)
    ensures Reachable(maze, start, goal) && LeastWalk(maze, start, p, goal) && (p == [] <==> start == goal)
  {
    assert Reachable(maze, start, goal);
    RebuiltLeast(maze, start, visited, dist, p);
    ShortestEmpty(maze, start, p, goal);
  }

  /** One pass of the search loop: pop the least entry; if it is `goal`, report it found;
      otherwise discover the neighbours of the popped cell. The search invariant and the
      tie-break hold again afterwards, with one more cell of the board expanded. */
  method Round(maze: Maze, start: Cell, goal: Cell, heap: seq<Entry>, visited: map<Cell, Option<Cell>>,
               ghost dist: map<Cell, nat>, ghost done: set<Cell>, ghost level: nat)
    returns (found: bool, heap': seq<Entry>, visited': map<Cell, Option<Cell>>, ghost dist': map<Cell, nat>,
             ghost done': set<Cell>, ghost level': nat)
    requires WellFormed(maze) && heap != [] && SearchOk(maze, start, heap, visited, dist, done, {}, level)
    requires LeastTree(maze, start, visited, dist) && BusyLeast(visited, dist, done, {})
    ensures found ==> goal in visited
    ensures !found ==> SearchOk(maze, start, heap', visited', dist', done', {}, level')
    ensures !found ==> LeastTree(maze, start, visited', dist') && BusyLeast(visited', dist', done', {})
    ensures !found ==> |(Board() + {start}) - done'| < |(Board() + {start}) - done|
  {
    var top, rest := PopLeast(maze, start, heap, visited, dist, done, level);
    var cost, current := top.0, top.1;
    if current == goal {
      return true, rest, visited, dist, done, level;
    }
    found := false;
    heap', visited', dist' := Expand(maze, current, cost, rest, visited, dist);
    Expanded(maze, start, rest, visited, dist, done, current, cost, heap', visited', dist');
    done', level' := done + {current}, cost;
    assert current in (Board() + {start}) - done;
    assert (Board() + {start}) - done' == ((Board() + {start}) - done) - {current};
  }

  /** The search loop of the pathfinder, run until the heap is empty or `goal` is popped. On
      exit the predecessor map is a tree of shortest walks from `start` that keeps the
      tie-break, and `goal` is missing from it only when it cannot be reached. */
  method Search(maze: Maze, start: Cell, goal: Cell)
    returns (visited: map<Cell, Option<Cell>>, ghost dist: map<Cell, nat>)
    requires WellFormed(maze)
    ensures TreeOk(maze, start, visited, dist) && Optimal(maze, start, dist) && LeastTree(maze, start, visited, dist)
    ensures goal !in visited ==> !Reachable(maze, start, goal)
  {
    var heap: seq<Entry> := [(0, start)];
    visited, dist := map[start := None], map[start := 0];
    ghost var done: set<Cell> := {};
    ghost var level: nat := 0;
    Started(maze, start);
    while heap != []
      invariant SearchOk(maze, start, heap, visited, dist, done, {}, level)
      invariant LeastTree(maze, start, visited, dist) && BusyLeast(visited, dist, done, {})
      decreases |(Board() + {start}) - done|
    {
      var found, heap', visited';
      ghost var dist', done', level';
      found, heap', visited', dist', done', level' := Round(maze, start, goal, heap, visited, dist, done, level);
      if found {
        break;
      }
      heap, visited, dist, done, level := heap', visited', dist', done', level';
    }
    if goal !in visited {
      Exhausted(maze, start, visited, dist, done, level, goal);
    }
  }

  /** The pathfinder: a shortest walk from `start` to `goal`, excluding `start`, that enters
      each cell from its least `(row, col)` neighbour one move closer to `start`; `None` when
      `goal` cannot be reached (the source then fails on the missing predecessor of `goal`). */
  method Dijkstra(maze: Maze, start: Cell, goal: Cell) returns (result: Option<seq<Cell>>)
    requires WellFormed(maze)
    ensures result.None? <==> !Reachable(maze, start, goal)
    ensures result.Some? ==> LeastWalk(maze, start, result.value, goal)
    ensures result.Some? ==> (result.value == [] <==> start == goal)
  {
    var visited, dist := Search(maze, start, goal);
    result := RebuildPath(maze, start, goal, visited, dist);
    if result.Some? {
      Concluded(maze, start, goal, visited, dist, result.value);
    }
  }
}
