/**
 The perfect-maze validator. A grid is a perfect maze when its path cells,
 under 4-connectivity, form a spanning tree: at least one path cell, every
 path cell reachable from every other, and no cycle. The validator decides
 this by listing the path cells, running a breadth-first search from the
 first one while counting each adjacency edge from its lexicographically
 smaller end, and accepting when the search reached every path cell and
 found exactly one edge fewer than there are path cells.
 */
module MazeValidator {
  import opened Grids
  import opened Graphs

  /** The path cells form a spanning tree: non-empty, connected, without a cycle. */
  ghost predicate IsPerfect(g: seq<seq<int>>)
  {
    PathCells(g) != {} && Connected(PathCells(g), Edges(g)) && !HasCycle(PathCells(g), Edges(g))
  }

  /** Each adjacency between path cells is one edge: never a loop, never in both orientations. */
  lemma EdgesSimple(g: seq<seq<int>>)
    ensures Simple(Edges(g))
    ensures forall e :: e in Edges(g) ==> (e.1, e.0) !in Edges(g)
  {
  }

  /** Two cells are joined by a maze edge exactly when both are path cells and adjacent. */
  lemma LinkedIffAdjacentPaths(g: seq<seq<int>>, a: Cell, b: Cell)
    ensures Linked(Edges(g), a, b) <==> IsPath(g, a) && IsPath(g, b) && Adjacent(a, b)
  {
    if IsPath(g, a) && IsPath(g, b) && Adjacent(a, b) {
      if Less(a, b) {
        assert (a, b) in Edges(g);
      } else {
        assert (b, a) in Edges(g);
      }
    }
  }

  /** The maze is perfect exactly when its path cells are connected by |path cells| - 1 edges. */
  lemma PerfectIffTreeEdgeCount(g: seq<seq<int>>)
    ensures IsPerfect(g) <==>
      PathCells(g) != {} && Connected(PathCells(g), Edges(g)) && |Edges(g)| == |PathCells(g)| - 1
  {
    EdgesSimple(g);
    AcyclicIffNoCycle(PathCells(g), Edges(g));
    if PathCells(g) != {} && Connected(PathCells(g), Edges(g)) {
      assert EdgesWithin(PathCells(g), Edges(g));
      TreeIffEdgeCount(PathCells(g), Edges(g));
    }
  }

  /** A single path cell is a (one-node) spanning tree. */
  lemma SinglePathCell(g: seq<seq<int>>)
    requires |PathCells(g)| == 1
    ensures IsPerfect(g)
  {
    var P, E := PathCells(g), Edges(g);
    var c :| c in P;
    assert P == {c} by {
      SubsetCard({c}, P);
    }
    assert forall e :: e in E ==> e.0 == c && e.1 == c && e.0 != e.1;
    assert E == {};
    AcyclicIffNoCycle(P, E);
    ReachableRefl(P, E, c);
    ConnectedFromRoot(P, E, c);
  }

  // ---------------------------------------------------------------------
  // Listing the path cells (a row-major scan, as numpy's argwhere does)

  /** The cells of a sequence, as a set. */
  ghost function Elems(s: seq<Cell>): set<Cell>
  {
    set c | c in s
  }

  /** A sequence without repetitions has as many distinct cells as positions. */
  lemma {:induction false} DistinctCard(s: seq<Cell>)
    requires Distinct(s)
    ensures |Elems(s)| == |s|
  {
    if s != [] {
      var n := |s|;
      var prefix := s[..n - 1];
      DistinctCard(prefix);
      assert s[n - 1] !in prefix by {
        forall i | 0 <= i < n - 1 ensures prefix[i] != s[n - 1] {
          assert s[i] != s[n - 1];
        }
      }
      assert s == prefix + [s[n - 1]];
      assert Elems(s) == Elems(prefix) + {s[n - 1]};
    }
  }

  /** Joining two duplicate-free lists with no cell in common gives a duplicate-free list. */
  lemma DistinctConcat(a: seq<Cell>, b: seq<Cell>)
    requires Distinct(a) && Distinct(b) && Elems(a) * Elems(b) == {}
    ensures Distinct(a + b)
    ensures Elems(a + b) == Elems(a) + Elems(b)
  {
    var s := a + b;
    forall i, j | 0 <= i < j < |s| ensures s[i] != s[j] {
      if j < |a| {
        assert s[i] == a[i] && s[j] == a[j];
      } else if i < |a| {
        assert a[i] in Elems(a) && a[i] !in Elems(a) * Elems(b);
        assert s[i] == a[i] && s[j] == b[j - |a|] && b[j - |a|] in Elems(b);
      } else {
        assert s[i] == b[i - |a|] && s[j] == b[j - |a|];
      }
    }
  }

  /** Strictly increasing in tuple order. */
  predicate StrictlySorted(cells: seq<Cell>)
  {
    forall i, j :: 0 <= i < j < |cells| ==> Less(cells[i], cells[j])
  }

  /** The path cells of the grid in row-major order. */
  method ScanPathCells(g: seq<seq<int>>) returns (cells: seq<Cell>)
    ensures forall c :: c in cells <==> IsPath(g, c)
    ensures StrictlySorted(cells)
    ensures |cells| == |PathCells(g)|
  {
    cells := [];
    for r := 0 to |g|
      invariant forall c :: c in cells <==> IsPath(g, c) && c.0 < r
      invariant StrictlySorted(cells)
      invariant forall i :: 0 <= i < |cells| ==> cells[i].0 < r
    {
      for k := 0 to |g[r]|
        invariant forall c :: c in cells <==> IsPath(g, c) && (c.0 < r || (c.0 == r && c.1 < k))
        invariant StrictlySorted(cells)
        invariant forall i :: 0 <= i < |cells| ==> Less(cells[i], (r, k))
      {
        if g[r][k] == 0 {
          cells := cells + [(r, k)];
        }
      }
    }
    assert Distinct(cells) by {
      forall i, j | 0 <= i < j < |cells| ensures cells[i] != cells[j] {
        assert Less(cells[i], cells[j]);
      }
    }
    DistinctCard(cells);
    assert Elems(cells) == PathCells(g);
  }

  // ---------------------------------------------------------------------
  // What one round of the search does

  /** The path cells one direction step from `c`, over the first `k` directions. */
  ghost function StepTargets(g: seq<seq<int>>, c: Cell, k: nat): set<Cell>
    requires k <= |Directions|
  {
    if k == 0 then {}
    else
      var b := Neighbour(c, k - 1);
      StepTargets(g, c, k - 1) + if IsPath(g, b) then {b} else {}
  }

  /** Those of them not in `visited`, in direction order: the cells the round enqueues. */
  ghost function NewTargets(g: seq<seq<int>>, c: Cell, k: nat, visited: set<Cell>): seq<Cell>
    requires k <= |Directions|
  {
    if k == 0 then []
    else
      var b := Neighbour(c, k - 1);
      NewTargets(g, c, k - 1, visited) + if IsPath(g, b) && b !in visited then [b] else []
  }

  /** The edges counted from `c` by the first `k` direction steps. */
  ghost function StepEdges(g: seq<seq<int>>, c: Cell, k: nat): set<Edge>
    requires k <= |Directions|
  {
    if k == 0 then {}
    else
      var b := Neighbour(c, k - 1);
      StepEdges(g, c, k - 1) + if IsPath(g, b) && Less(c, b) then {(c, b)} else {}
  }

  /** The path cells adjacent to some cell of `s`. */
  ghost function PathNeighbours(g: seq<seq<int>>, s: set<Cell>): set<Cell>
  {
    set c, b | c in s && b in PathCells(g) && Adjacent(c, b) :: b
  }

  lemma {:induction false} StepTargetsMembers(g: seq<seq<int>>, c: Cell, k: nat, b: Cell)
    requires k <= |Directions|
    ensures b in StepTargets(g, c, k) <==>
      IsPath(g, b) && exists j :: 0 <= j < k && b == Neighbour(c, j)
  {
    if k > 0 {
      StepTargetsMembers(g, c, k - 1, b);
    }
  }

  lemma {:induction false} StepEdgesMembers(g: seq<seq<int>>, c: Cell, k: nat, e: Edge)
    requires k <= |Directions|
    ensures e in StepEdges(g, c, k) <==>
      e.0 == c && IsPath(g, e.1) && Less(c, e.1) &&
      exists j :: 0 <= j < k && e.1 == Neighbour(c, j)
  {
    if k > 0 {
      StepEdgesMembers(g, c, k - 1, e);
    }
  }

  /** The next direction leads to a cell the earlier directions did not reach. */
  lemma StepTargetFresh(g: seq<seq<int>>, c: Cell, k: nat)
    requires k < |Directions|
    ensures Neighbour(c, k) !in StepTargets(g, c, k)
    ensures (c, Neighbour(c, k)) !in StepEdges(g, c, k)
  {
    StepTargetsMembers(g, c, k, Neighbour(c, k));
    StepEdgesMembers(g, c, k, (c, Neighbour(c, k)));
    forall j | 0 <= j < k ensures Neighbour(c, j) != Neighbour(c, k) {
      NeighboursDistinct(c, j, k);
    }
  }

  /** Trying direction `k` visits the path cell it leads to. */
  lemma VisitStep(g: seq<seq<int>>, c: Cell, k: nat, visited: set<Cell>)
    requires k < |Directions|
    ensures visited + StepTargets(g, c, k + 1) ==
      (visited + StepTargets(g, c, k)) + if IsPath(g, Neighbour(c, k)) then {Neighbour(c, k)} else {}
  {
  }

  /** Trying direction `k` enqueues the path cell it leads to when no earlier step visited it. */
  lemma EnqueueStep(g: seq<seq<int>>, c: Cell, k: nat, visited: set<Cell>, queue: seq<Cell>)
    requires k < |Directions|
    ensures queue + NewTargets(g, c, k + 1, visited) ==
      (queue + NewTargets(g, c, k, visited)) +
      if IsPath(g, Neighbour(c, k)) && Neighbour(c, k) !in visited + StepTargets(g, c, k) then [Neighbour(c, k)] else []
  {
    StepTargetFresh(g, c, k);
    var b := Neighbour(c, k);
    var tail := if IsPath(g, b) && b !in visited then [b] else [];
    assert NewTargets(g, c, k + 1, visited) == NewTargets(g, c, k, visited) + tail;
    assert queue + (NewTargets(g, c, k, visited) + tail) == (queue + NewTargets(g, c, k, visited)) + tail;
  }

  /** Trying direction `k` counts the edge it finds exactly when `c` is its smaller end, and never twice. */
  lemma CountStep(g: seq<seq<int>>, c: Cell, k: nat)
    requires k < |Directions|
    ensures |StepEdges(g, c, k + 1)| ==
      |StepEdges(g, c, k)| + if IsPath(g, Neighbour(c, k)) && Less(c, Neighbour(c, k)) then 1 else 0
  {
    StepTargetFresh(g, c, k);
  }

  /** The cells a round enqueues are new, distinct, and are exactly its unvisited targets. */
  lemma {:induction false} NewTargetsFacts(g: seq<seq<int>>, c: Cell, k: nat, visited: set<Cell>)
    requires k <= |Directions|
    ensures Distinct(NewTargets(g, c, k, visited))
    ensures Elems(NewTargets(g, c, k, visited)) == StepTargets(g, c, k) - visited
  {
    if k > 0 {
      var b := Neighbour(c, k - 1);
      var prev, T := NewTargets(g, c, k - 1, visited), StepTargets(g, c, k - 1);
      NewTargetsFacts(g, c, k - 1, visited);
      StepTargetFresh(g, c, k - 1);
      assert StepTargets(g, c, k) == T + if IsPath(g, b) then {b} else {};
      if IsPath(g, b) && b !in visited {
        assert NewTargets(g, c, k, visited) == prev + [b];
        assert Elems([b]) == {b};
        DistinctConcat(prev, [b]);
        assert StepTargets(g, c, k) - visited == (T - visited) + {b};
      } else {
        assert NewTargets(g, c, k, visited) == prev;
        assert StepTargets(g, c, k) - visited == T - visited;
      }
    }
  }

  /** Scanning all four directions from `c` finds exactly its path neighbours. */
  lemma PathNeighboursStep(g: seq<seq<int>>, s: set<Cell>, c: Cell)
    ensures PathNeighbours(g, s + {c}) == PathNeighbours(g, s) + StepTargets(g, c, |Directions|)
  {
    forall b | b in PathNeighbours(g, s + {c})
      ensures b in PathNeighbours(g, s) + StepTargets(g, c, |Directions|)
    {
      var a :| a in s + {c} && b in PathCells(g) && Adjacent(a, b);
      if a != c {
        assert b in PathNeighbours(g, s);
      } else {
        AdjacentIffNeighbour(c, b);
        StepTargetsMembers(g, c, |Directions|, b);
      }
    }
    forall b | b in StepTargets(g, c, |Directions|)
      ensures b in PathNeighbours(g, s + {c})
    {
      StepTargetsMembers(g, c, |Directions|, b);
      var j :| 0 <= j < |Directions| && b == Neighbour(c, j);
      NeighboursDistinct(c, j, j);
    }
  }

  /** Scanning all four directions from `c` counts exactly the edges whose smaller end is `c`. */
  lemma StepEdgesComplete(g: seq<seq<int>>, c: Cell, done: set<Cell>)
    requires IsPath(g, c) && c !in done
    ensures EdgesFrom(g, done + {c}) == EdgesFrom(g, done) + StepEdges(g, c, |Directions|)
    ensures |EdgesFrom(g, done + {c})| == |EdgesFrom(g, done)| + |StepEdges(g, c, |Directions|)|
  {
    forall e | e in EdgesFrom(g, done + {c}) && e.0 !in done
      ensures e in StepEdges(g, c, |Directions|)
    {
      AdjacentIffNeighbour(c, e.1);
      StepEdgesMembers(g, c, |Directions|, e);
    }
    forall e | e in StepEdges(g, c, |Directions|)
      ensures e in EdgesFrom(g, done + {c}) && e !in EdgesFrom(g, done)
    {
      StepEdgesMembers(g, c, |Directions|, e);
      var j :| 0 <= j < |Directions| && e.1 == Neighbour(c, j);
      NeighboursDistinct(c, j, j);
    }
    assert EdgesFrom(g, done) * StepEdges(g, c, |Directions|) == {};
  }

  lemma DiffCard<T>(A: set<T>, B: set<T>)
    requires B <= A
    ensures |A - B| == |A| - |B|
  {
    assert A == (A - B) + B;
    assert (A - B) * B == {};
  }

  // ---------------------------------------------------------------------
  // The search invariant

  /** The queue holds, once each, the visited cells that are not done yet. */
  ghost predicate QueueState(queue: seq<Cell>, visited: set<Cell>, done: set<Cell>)
  {
    Distinct(queue) && Elems(queue) == visited - done && done <= visited
  }

  /**
   The visited cells are reachable from `start` (hence path cells), and every
   path cell adjacent to a done cell has been visited.
   */
  ghost predicate Explored(g: seq<seq<int>>, start: Cell, visited: set<Cell>, done: set<Cell>)
  {
    && start in visited
    && visited <= ReachableFrom(PathCells(g), Edges(g), start)
    && PathNeighbours(g, done) <= visited
  }

  /**
   What holds between two rounds of the search: the `done` cells have had
   all their neighbours examined, the other visited cells are queued, and
   `edgeCount` is the number of edges whose smaller end is done.
   */
  ghost predicate SearchInv(g: seq<seq<int>>, start: Cell, visited: set<Cell>, queue: seq<Cell>,
                            edgeCount: int, done: set<Cell>)
  {
    && QueueState(queue, visited, done)
    && Explored(g, start, visited, done)
    && edgeCount == |EdgesFrom(g, done)|
  }

  lemma SearchInit(g: seq<seq<int>>, start: Cell)
    requires IsPath(g, start)
    ensures SearchInv(g, start, {start}, [start], 0, {})
  {
    ReachableRefl(PathCells(g), Edges(g), start);
    assert Elems([start]) == {start};
    assert EdgesFrom(g, {}) == {};
    assert PathNeighbours(g, {}) == {};
  }

  /** The head of the queue is a visited path cell that is not done yet. */
  lemma QueueHead(g: seq<seq<int>>, start: Cell, visited: set<Cell>, queue: seq<Cell>, done: set<Cell>)
    requires QueueState(queue, visited, done)
    requires Explored(g, start, visited, done) && queue != []
    ensures queue[0] in visited && queue[0] !in done
    ensures IsPath(g, queue[0]) && visited <= PathCells(g)
  {
    assert queue[0] in Elems(queue);
  }

  /** Removing the first element of a duplicate-free list removes exactly that cell. */
  lemma DistinctTail(s: seq<Cell>)
    requires Distinct(s) && s != []
    ensures Distinct(s[1..])
    ensures Elems(s[1..]) == Elems(s) - {s[0]}
  {
    assert s == [s[0]] + s[1..];
    forall i | 0 <= i < |s| - 1 ensures s[1..][i] != s[0] {
      assert s[1..][i] == s[i + 1];
    }
  }

  /**
   Dequeuing the head and appending the new cells `added` keeps the queue
   the list of visited cells not yet done, with the head now done.
   */
  lemma QueueAfterRound(queue: seq<Cell>, visited: set<Cell>, done: set<Cell>,
                        targets: set<Cell>, added: seq<Cell>)
    requires QueueState(queue, visited, done) && queue != []
    requires Distinct(added) && Elems(added) == targets - visited
    ensures QueueState(queue[1..] + added, visited + targets, done + {queue[0]})
  {
    assert queue[0] in Elems(queue);
    DistinctTail(queue);
    DistinctConcat(queue[1..], added);
  }

  /** Visiting all path neighbours of a visited cell keeps them reachable and closes the cell. */
  lemma ExploredAfterRound(g: seq<seq<int>>, start: Cell, c: Cell, visited: set<Cell>, done: set<Cell>)
    requires Explored(g, start, visited, done) && c in visited && visited <= PathCells(g)
    ensures Explored(g, start, visited + StepTargets(g, c, |Directions|), done + {c})
  {
    var P, E := PathCells(g), Edges(g);
    forall b | b in StepTargets(g, c, |Directions|) ensures b in P && Reachable(P, E, start, b) {
      StepTargetsMembers(g, c, |Directions|, b);
      var j :| 0 <= j < |Directions| && b == Neighbour(c, j);
      NeighboursDistinct(c, j, j);
      LinkedIffAdjacentPaths(g, c, b);
      ReachableExtend(P, E, start, c, b);
    }
    PathNeighboursStep(g, done, c);
  }

  /**
   One round of the search from the head `c` of the queue: `c` becomes
   done, its path neighbours become visited, the new ones are enqueued in
   direction order, and the edges from `c` to larger cells are counted.
   */
  lemma RoundEffect(g: seq<seq<int>>, start: Cell, visited: set<Cell>, queue: seq<Cell>,
                    edgeCount: int, done: set<Cell>)
    requires SearchInv(g, start, visited, queue, edgeCount, done) && queue != []
    ensures IsPath(g, queue[0]) && visited <= PathCells(g)
    ensures SearchInv(g, start, visited + StepTargets(g, queue[0], |Directions|),
                      queue[1..] + NewTargets(g, queue[0], |Directions|, visited),
                      edgeCount + |StepEdges(g, queue[0], |Directions|)|, done + {queue[0]})
  {
    var c := queue[0];
    var T, N := StepTargets(g, c, |Directions|), NewTargets(g, c, |Directions|, visited);
    QueueHead(g, start, visited, queue, done);
    NewTargetsFacts(g, c, |Directions|, visited);
    QueueAfterRound(queue, visited, done, T, N);
    ExploredAfterRound(g, start, c, visited, done);
    StepEdgesComplete(g, c, done);
  }

  /** A round removes from the unvisited path cells exactly the cells it enqueues. */
  lemma RoundProgress(g: seq<seq<int>>, c: Cell, visited: set<Cell>)
    requires visited <= PathCells(g)
    ensures PathCells(g) - (visited + StepTargets(g, c, |Directions|)) ==
      (PathCells(g) - visited) - Elems(NewTargets(g, c, |Directions|, visited))
    ensures |PathCells(g) - (visited + StepTargets(g, c, |Directions|))| ==
      |PathCells(g) - visited| - |NewTargets(g, c, |Directions|, visited)|
  {
    var P, T, N := PathCells(g), StepTargets(g, c, |Directions|), NewTargets(g, c, |Directions|, visited);
    NewTargetsFacts(g, c, |Directions|, visited);
    DistinctCard(N);
    forall b | b in T ensures b in P {
      StepTargetsMembers(g, c, |Directions|, b);
    }
    assert P - (visited + T) == (P - visited) - (T - visited);
    DiffCard(P - visited, T - visited);
  }

  /** When the queue is empty the visited cells are closed under adjacency: a whole component. */
  lemma SearchEnd(g: seq<seq<int>>, start: Cell, visited: set<Cell>, edgeCount: int, done: set<Cell>)
    requires SearchInv(g, start, visited, [], edgeCount, done)
    ensures visited <= PathCells(g)
    ensures forall c :: c in visited <==> Reachable(PathCells(g), Edges(g), start, c)
    ensures edgeCount == |EdgesFrom(g, visited)|
  {
    var P, E := PathCells(g), Edges(g);
    assert done == visited by {
      assert Elems([]) == {};
      forall c | c in visited ensures c in done {
        assert c !in visited - done;
      }
    }
    assert Closed(E, visited) by {
      forall a, b | a in visited && Linked(E, a, b) ensures b in visited {
        LinkedIffAdjacentPaths(g, a, b);
        assert b in PathNeighbours(g, done);
      }
    }
    forall c | Reachable(P, E, start, c) ensures c in visited {
      ClosedContainsReachable(P, E, visited, start, c);
    }
  }

  // ---------------------------------------------------------------------
  // The breadth-first search

  /**
   One step of the scan of `current`'s neighbours, in direction `k`: when it
   leads to a cell inside the grid holding 0, count the edge if `current` is
   its smaller end, and visit and enqueue the cell if it is new.
   */
  method TryDirection(g: seq<seq<int>>, current: Cell, k: nat,
                      visited: set<Cell>, queue: seq<Cell>, edgeCount: nat)
    returns (visited': set<Cell>, queue': seq<Cell>, edgeCount': nat)
    requires Rectangular(g) && IsPath(g, current) && k < |Directions|
    ensures visited' == visited + if IsPath(g, Neighbour(current, k)) then {Neighbour(current, k)} else {}
    ensures queue' == queue +
      if IsPath(g, Neighbour(current, k)) && Neighbour(current, k) !in visited then [Neighbour(current, k)] else []
    ensures edgeCount' == edgeCount +
      if IsPath(g, Neighbour(current, k)) && Less(current, Neighbour(current, k)) then 1 else 0
  {
    visited', queue', edgeCount' := visited, queue, edgeCount;
    var rows, cols := |g|, |g[0]|;
    var neighbour := Neighbour(current, k);
    var row, col := neighbour.0, neighbour.1;
    IsPathInShape(g, neighbour);
    if 0 <= row < rows && 0 <= col < cols {
      if g[row][col] == 0 {
        if Less(current, neighbour) {
          edgeCount' := edgeCount' + 1;
        }
        if neighbour !in visited' {
          visited' := visited' + {neighbour};
          queue' := queue' + [neighbour];
        }
      }
    }
  }

  /**
   The scan of `current`'s neighbours, trying the four directions in the
   order up, right, down, left: its path neighbours become visited, the new
   ones are enqueued in that order, and the edges to larger cells are counted.
   */
  method ScanNeighbours(g: seq<seq<int>>, current: Cell, visited: set<Cell>, queue: seq<Cell>, edgeCount: nat)
    returns (visited': set<Cell>, queue': seq<Cell>, edgeCount': nat)
    requires Rectangular(g) && IsPath(g, current)
    ensures visited' == visited + StepTargets(g, current, |Directions|)
    ensures queue' == queue + NewTargets(g, current, |Directions|, visited)
    ensures edgeCount' == edgeCount + |StepEdges(g, current, |Directions|)|
  {
    visited', queue', edgeCount' := visited, queue, edgeCount;
    for k := 0 to |Directions|
      invariant visited' == visited + StepTargets(g, current, k)
      invariant queue' == queue + NewTargets(g, current, k, visited)
      invariant edgeCount' == edgeCount + |StepEdges(g, current, k)|
    {
      VisitStep(g, current, k, visited);
      EnqueueStep(g, current, k, visited, queue);
      CountStep(g, current, k);
      visited', queue', edgeCount' := TryDirection(g, current, k, visited', queue', edgeCount');
    }
  }

  /** One round of the search: dequeue the cell at the head of the queue and scan its neighbours. */
  method VisitNext(g: seq<seq<int>>, start: Cell, visited: set<Cell>, queue: seq<Cell>, edgeCount: nat,
                   ghost done: set<Cell>)
    returns (visited': set<Cell>, queue': seq<Cell>, edgeCount': nat)
    requires Rectangular(g) && queue != []
    requires SearchInv(g, start, visited, queue, edgeCount, done)
    ensures SearchInv(g, start, visited', queue', edgeCount', done + {queue[0]})
    ensures 2 * |PathCells(g) - visited'| + |queue'| < 2 * |PathCells(g) - visited| + |queue|
  {
    RoundEffect(g, start, visited, queue, edgeCount, done);
    RoundProgress(g, queue[0], visited);
    var current := queue[0];
    visited', queue', edgeCount' := ScanNeighbours(g, current, visited, queue[1..], edgeCount);
  }

  /**
   Breadth-first search from the path cell `start`. It returns the cells it
   visited, which are exactly the path cells reachable from `start`, and the
   number of edges it counted, which is the number of edges between them.
   */
  method Traverse(g: seq<seq<int>>, start: Cell) returns (visited: set<Cell>, edgeCount: nat)
    requires Rectangular(g) && IsPath(g, start)
    ensures visited <= PathCells(g) && |visited| <= |PathCells(g)|
    ensures forall c :: c in visited <==> Reachable(PathCells(g), Edges(g), start, c)
    ensures edgeCount == |EdgesFrom(g, visited)|
  {
    visited := {start};
    edgeCount := 0;
    var queue := [start];
    // the cells already dequeued, whose neighbours have been examined
    ghost var done := {};
    SearchInit(g, start);

    while queue != []
      invariant SearchInv(g, start, visited, queue, edgeCount, done)
      decreases 2 * |PathCells(g) - visited| + |queue|
    {
      ghost var current := queue[0];
      visited, queue, edgeCount := VisitNext(g, start, visited, queue, edgeCount, done);
      done := done + {current};
    }
    SearchEnd(g, start, visited, edgeCount, done);
    SubsetCard(visited, PathCells(g));
  }

  /**
   Decides whether the grid is a perfect maze: false without path cells,
   true for a single one, and otherwise true exactly when a breadth-first
   search from the first path cell reaches them all and counts one edge
   fewer than there are path cells.
   */
  method IsPerfectMaze(g: seq<seq<int>>) returns (r: bool)
    requires Rectangular(g)
    ensures r <==> IsPerfect(g)
    ensures r <==>
      PathCells(g) != {} && Connected(PathCells(g), Edges(g)) && |Edges(g)| == |PathCells(g)| - 1
    ensures PathCells(g) == {} ==> !r
    ensures |PathCells(g)| == 1 ==> r
  {
    PerfectIffTreeEdgeCount(g);
    var pathCells := ScanPathCells(g);
    if |pathCells| == 0 {
      return false;
    }
    var numPaths := |pathCells|;
    if numPaths == 1 {
      SinglePathCell(g);
      return true;
    }

    var start := pathCells[0];
    var visited, edgeCount := Traverse(g, start);
    r := |visited| == numPaths && edgeCount == numPaths - 1;

    ghost var P, E := PathCells(g), Edges(g);
    if |visited| == numPaths {
      SubsetCard(visited, P);
      ConnectedFromRoot(P, E, start);
      assert EdgesFrom(g, visited) == E;
    } else {
      assert visited != P;
      ghost var c :| c in P && c !in visited;
      assert !Reachable(P, E, start, c);
    }
  }

  /** The validator is a pure query: two calls on the same grid agree. */
  method RepeatedCallsAgree(g: seq<seq<int>>) returns (first: bool, second: bool)
    requires Rectangular(g)
    ensures first == second
  {
    first := IsPerfectMaze(g);
    second := IsPerfectMaze(g);
  }

  // ---------------------------------------------------------------------
  // The docstring examples, and a grid of walls

  lemma DoctestTreeCells()
    ensures PathCells([[0, 1], [0, 0]]) == {(0, 0), (1, 0), (1, 1)}
  {
    var g := [[0, 1], [0, 0]];
    forall c | c in PathCells(g) ensures c in {(0, 0), (1, 0), (1, 1)} {
      assert c.0 == 0 || c.0 == 1;
    }
    assert IsPath(g, (0, 0)) && IsPath(g, (1, 0)) && IsPath(g, (1, 1));
  }

  lemma DoctestTreeEdges()
    ensures Edges([[0, 1], [0, 0]]) == {((0, 0), (1, 0)), ((1, 0), (1, 1))}
  {
    var g := [[0, 1], [0, 0]];
    DoctestTreeCells();
    forall e | e in Edges(g) ensures e in {((0, 0), (1, 0)), ((1, 0), (1, 1))} {
      assert e.0 in PathCells(g) && e.1 in PathCells(g);
    }
    assert IsPath(g, (0, 0)) && IsPath(g, (1, 0)) && IsPath(g, (1, 1));
  }

  /** [[0, 1], [0, 0]]: three path cells joined by two edges, a tree. */
  lemma DoctestTree()
    ensures IsPerfect([[0, 1], [0, 0]])
  {
    var g := [[0, 1], [0, 0]];
    var P, E := PathCells(g), Edges(g);
    DoctestTreeCells();
    DoctestTreeEdges();
    assert |P| == 3 && |E| == 2;
    ReachableRefl(P, E, (0, 0));
    ReachableExtend(P, E, (0, 0), (0, 0), (1, 0));
    ReachableExtend(P, E, (0, 0), (1, 0), (1, 1));
    ConnectedFromRoot(P, E, (0, 0));
    PerfectIffTreeEdgeCount(g);
  }

  /** [[0, 0], [0, 0]]: the four edges of the 2x2 block close a cycle. */
  lemma DoctestCycle()
    ensures !IsPerfect([[0, 0], [0, 0]])
  {
    var g := [[0, 0], [0, 0]];
    var P, E := PathCells(g), Edges(g);
    assert IsPath(g, (0, 0)) && IsPath(g, (0, 1)) && IsPath(g, (1, 0)) && IsPath(g, (1, 1));
    assert ((0, 0), (1, 0)) in E && ((1, 0), (1, 1)) in E && ((0, 1), (1, 1)) in E && ((0, 0), (0, 1)) in E;
    var p := [(0, 0), (1, 0), (1, 1), (0, 1), (0, 0)];
    assert IsCycle(P, E, p);
  }

  /** [[1, 1], [1, 1]]: all walls, no path cell at all, so the empty-listing branch applies. */
  lemma AllWallsGrid()
    ensures PathCells([[1, 1], [1, 1]]) == {}
  {
    var g := [[1, 1], [1, 1]];
    forall c | c in PathCells(g) ensures false {
      assert false;
    }
  }

  /**
   The two docstring calls and an all-wall grid: the tree is accepted, the
   block with a cycle is not, and neither is the grid of walls.
   */
  method Doctests() returns (tree: bool, block: bool, walls: bool)
    ensures tree && !block && !walls
  {
    DoctestTree();
    DoctestCycle();
    AllWallsGrid();
    tree := IsPerfectMaze([[0, 1], [0, 0]]);
    block := IsPerfectMaze([[0, 0], [0, 0]]);
    walls := IsPerfectMaze([[1, 1], [1, 1]]);
  }
}
