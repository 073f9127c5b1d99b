/**
 The maze grid and the graph it induces: a rectangular grid of integers in
 which 0 marks a path cell and any other value a wall, cells addressed by
 (row, column), 4-connectivity between cells, and the set of undirected
 adjacency edges between path cells, each stored once with its
 lexicographically smaller end first.
 */
module Grids {

  /** A cell coordinate (row, column). */
  type Cell = (int, int)

  /** An undirected edge, stored as an ordered pair of cells. */
  type Edge = (Cell, Cell)

  /** Every row has as many columns as the first one (a 2D array). */
  predicate Rectangular(g: seq<seq<int>>)
  {
    forall i :: 0 <= i < |g| ==> |g[i]| == |g[0]|
  }

  predicate InBounds(g: seq<seq<int>>, c: Cell)
  {
    0 <= c.0 < |g| && 0 <= c.1 < |g[c.0]|
  }

  /** A path cell: inside the grid and holding the value 0. */
  predicate IsPath(g: seq<seq<int>>, c: Cell)
  {
    InBounds(g, c) && g[c.0][c.1] == 0
  }

  /** Tuple comparison: row first, then column. */
  predicate Less(a: Cell, b: Cell)
  {
    a.0 < b.0 || (a.0 == b.0 && a.1 < b.1)
  }

  /** 4-connectivity: the cells differ by one unit in exactly one coordinate. */
  predicate Adjacent(a: Cell, b: Cell)
  {
    (a.0 == b.0 && (a.1 - b.1 == 1 || b.1 - a.1 == 1)) ||
    (a.1 == b.1 && (a.0 - b.0 == 1 || b.0 - a.0 == 1))
  }

  /** The four unit steps the traversal tries, in its order: up, right, down, left. */
  const Directions: seq<(int, int)> := [(-1, 0), (0, 1), (1, 0), (0, -1)]

  /** The cell one step from `c` in direction `k`. */
  function Neighbour(c: Cell, k: nat): Cell
    requires k < |Directions|
  {
    (c.0 + Directions[k].0, c.1 + Directions[k].1)
  }

  /** The path cells of the grid. */
  ghost function PathCells(g: seq<seq<int>>): (s: set<Cell>)
    ensures forall c :: c in s <==> IsPath(g, c)
  {
    set r, k | 0 <= r < |g| && 0 <= k < |g[r]| && g[r][k] == 0 :: (r, k)
  }

  /** The undirected adjacency edges between path cells, smaller end first. */
  ghost function Edges(g: seq<seq<int>>): (es: set<Edge>)
    ensures forall e :: e in es <==>
      IsPath(g, e.0) && IsPath(g, e.1) && Adjacent(e.0, e.1) && Less(e.0, e.1)
  {
    set a, b | a in PathCells(g) && b in PathCells(g) && Adjacent(a, b) && Less(a, b) :: (a, b)
  }

  /** The edges whose smaller end lies in `s`. */
  ghost function EdgesFrom(g: seq<seq<int>>, s: set<Cell>): (es: set<Edge>)
    ensures es <= Edges(g)
    ensures forall e :: e in es <==> e in Edges(g) && e.0 in s
  {
    set e | e in Edges(g) && e.0 in s
  }

  /** Adjacency is exactly "one of the four direction steps away". */
  lemma AdjacentIffNeighbour(a: Cell, b: Cell)
    ensures Adjacent(a, b) <==> exists k :: 0 <= k < |Directions| && b == Neighbour(a, k)
  {
    if Adjacent(a, b) {
      if b.0 == a.0 - 1 {
        assert b == Neighbour(a, 0);
      } else if b.1 == a.1 + 1 {
        assert b == Neighbour(a, 1);
      } else if b.0 == a.0 + 1 {
        assert b == Neighbour(a, 2);
      } else {
        assert b == Neighbour(a, 3);
      }
    }
  }

  /** The four direction steps lead to four different cells. */
  lemma NeighboursDistinct(c: Cell, j: nat, k: nat)
    requires j < |Directions| && k < |Directions|
    ensures Adjacent(c, Neighbour(c, k))
    ensures Neighbour(c, j) == Neighbour(c, k) <==> j == k
  {
    assert j == 0 || j == 1 || j == 2 || j == 3;
    assert k == 0 || k == 1 || k == 2 || k == 3;
  }

  /** In a rectangular grid the bounds check against the shape is the bounds check against the row. */
  lemma IsPathInShape(g: seq<seq<int>>, c: Cell)
    requires Rectangular(g) && |g| > 0
    ensures 0 <= c.0 < |g| ==> |g[c.0]| == |g[0]|
    ensures IsPath(g, c) <==> 0 <= c.0 < |g| && 0 <= c.1 < |g[0]| && g[c.0][c.1] == 0
  {
  }
}
