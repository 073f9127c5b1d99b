/**
 Undirected graphs given by a vertex set `V` and an edge set `F` of cell
 pairs (an edge may be stored in either orientation): walks, reachability,
 connectivity, bridges, and the edge count of a tree. A graph is acyclic
 when every edge is a bridge, that is, when no edge lies on a cycle.
 */
module Graphs {
  import opened Grids

  /** `a` and `b` are joined by an edge of `F`, in either orientation. */
  predicate Linked(F: set<Edge>, a: Cell, b: Cell)
  {
    (a, b) in F || (b, a) in F
  }

  /** Every edge of `F` has both ends in `V`. */
  ghost predicate EdgesWithin(V: set<Cell>, F: set<Edge>)
  {
    forall e :: e in F ==> e.0 in V && e.1 in V
  }

  /** A non-empty sequence of vertices of `V`, each linked to the next by an edge of `F`. */
  ghost predicate IsWalk(V: set<Cell>, F: set<Edge>, p: seq<Cell>)
  {
    |p| > 0 &&
    (forall i :: 0 <= i < |p| ==> p[i] in V) &&
    (forall i :: 0 < i < |p| ==> Linked(F, p[i - 1], p[i]))
  }

  ghost predicate Reachable(V: set<Cell>, F: set<Edge>, a: Cell, b: Cell)
  {
    exists p :: IsWalk(V, F, p) && p[0] == a && p[|p| - 1] == b
  }

  /** The vertices reachable from `a`. */
  ghost function ReachableFrom(V: set<Cell>, F: set<Edge>, a: Cell): (r: set<Cell>)
    ensures forall c :: c in r <==> c in V && Reachable(V, F, a, c)
  {
    set c | c in V && Reachable(V, F, a, c)
  }

  /** Every vertex can reach every other. */
  ghost predicate Connected(V: set<Cell>, F: set<Edge>)
  {
    forall a, b :: a in V && b in V ==> Reachable(V, F, a, b)
  }

  /** No edge of `F` leads out of `S`. */
  ghost predicate Closed(F: set<Edge>, S: set<Cell>)
  {
    forall a, b :: a in S && Linked(F, a, b) ==> b in S
  }

  /** No two positions of `s` hold the same cell. */
  ghost predicate Distinct(s: seq<Cell>)
  {
    forall i, j :: 0 <= i < j < |s| ==> s[i] != s[j]
  }

  /** Each edge joins two different vertices and is stored in one orientation only. */
  ghost predicate Simple(F: set<Edge>)
  {
    forall e :: e in F ==> e.0 != e.1 && (e.1, e.0) !in F
  }

  /**
   A cycle: a closed walk through at least three vertices that repeats no
   vertex except that it ends where it starts.
   */
  ghost predicate IsCycle(V: set<Cell>, F: set<Edge>, p: seq<Cell>)
  {
    IsWalk(V, F, p) && |p| >= 4 && p[0] == p[|p| - 1] &&
    forall i, j :: 0 <= i < j < |p| - 1 ==> p[i] != p[j]
  }

  ghost predicate HasCycle(V: set<Cell>, F: set<Edge>)
  {
    exists p :: IsCycle(V, F, p)
  }

  /** Removing `e` leaves its two ends unreachable from each other. */
  ghost predicate IsBridge(V: set<Cell>, F: set<Edge>, e: Edge)
  {
    e in F && !Reachable(V, F - {e}, e.0, e.1)
  }

  /** Every edge is a bridge (equivalently, for a simple graph, there is no cycle: AcyclicIffNoCycle). */
  ghost predicate Acyclic(V: set<Cell>, F: set<Edge>)
  {
    forall e {:trigger IsBridge(V, F, e)} :: e in F ==> IsBridge(V, F, e)
  }

  // ---------------------------------------------------------------------
  // Reachability is an equivalence on V

  lemma ReachableRefl(V: set<Cell>, F: set<Edge>, a: Cell)
    requires a in V
    ensures Reachable(V, F, a, a)
  {
    assert IsWalk(V, F, [a]);
  }

  lemma ReachableExtend(V: set<Cell>, F: set<Edge>, a: Cell, b: Cell, c: Cell)
    requires Reachable(V, F, a, b) && Linked(F, b, c) && c in V
    ensures Reachable(V, F, a, c)
  {
    var p :| IsWalk(V, F, p) && p[0] == a && p[|p| - 1] == b;
    var q := p + [c];
    assert forall i :: 0 < i < |q| ==> Linked(F, q[i - 1], q[i]) by {
      forall i | 0 < i < |q| ensures Linked(F, q[i - 1], q[i]) {
        if i < |p| {
          assert q[i - 1] == p[i - 1] && q[i] == p[i];
        }
      }
    }
    assert IsWalk(V, F, q);
  }

  lemma ReachableSymmetric(V: set<Cell>, F: set<Edge>, a: Cell, b: Cell)
    requires Reachable(V, F, a, b)
    ensures Reachable(V, F, b, a)
  {
    var p :| IsWalk(V, F, p) && p[0] == a && p[|p| - 1] == b;
    var n := |p|;
    var q := seq(n, i requires 0 <= i < n => p[n - 1 - i]);
    forall i | 0 < i < n ensures Linked(F, q[i - 1], q[i]) {
      var j := n - i;
      assert 0 < j < n && Linked(F, p[j - 1], p[j]);
    }
    assert IsWalk(V, F, q);
  }

  lemma ReachableTrans(V: set<Cell>, F: set<Edge>, a: Cell, b: Cell, c: Cell)
    requires Reachable(V, F, a, b) && Reachable(V, F, b, c)
    ensures Reachable(V, F, a, c)
  {
    var p :| IsWalk(V, F, p) && p[0] == a && p[|p| - 1] == b;
    var q :| IsWalk(V, F, q) && q[0] == b && q[|q| - 1] == c;
    var w := p + q[1..];
    forall i | 0 < i < |w| ensures Linked(F, w[i - 1], w[i]) {
      if i < |p| {
        assert w[i - 1] == p[i - 1] && w[i] == p[i];
      } else {
        var j := i - |p| + 1;
        assert w[i - 1] == q[j - 1] && w[i] == q[j];
      }
    }
    assert IsWalk(V, F, w);
  }

  /** A walk stays a walk in a larger graph. */
  lemma ReachableMono(V: set<Cell>, F: set<Edge>, V': set<Cell>, F': set<Edge>, a: Cell, b: Cell)
    requires V <= V' && F <= F'
    requires Reachable(V, F, a, b)
    ensures Reachable(V', F', a, b)
  {
    var p :| IsWalk(V, F, p) && p[0] == a && p[|p| - 1] == b;
    forall i | 0 < i < |p| ensures Linked(F', p[i - 1], p[i]) {
      assert Linked(F, p[i - 1], p[i]);
    }
    assert IsWalk(V', F', p);
  }

  /** If every vertex is reachable from one vertex `s`, the graph is connected. */
  lemma ConnectedFromRoot(V: set<Cell>, F: set<Edge>, s: Cell)
    requires forall x :: x in V ==> Reachable(V, F, s, x)
    ensures Connected(V, F)
  {
    forall a, b | a in V && b in V ensures Reachable(V, F, a, b) {
      ReachableSymmetric(V, F, s, a);
      ReachableTrans(V, F, a, s, b);
    }
  }

  /** Whatever is reachable from inside a closed set lies in it. */
  lemma {:induction false} ClosedContainsReachable(V: set<Cell>, F: set<Edge>, S: set<Cell>, a: Cell, b: Cell)
    requires Closed(F, S) && a in S
    requires Reachable(V, F, a, b)
    ensures b in S
  {
    var p :| IsWalk(V, F, p) && p[0] == a && p[|p| - 1] == b;
    var i := 0;
    while i < |p| - 1
      invariant 0 <= i < |p| && p[i] in S
    {
      assert Linked(F, p[i], p[i + 1]);
      i := i + 1;
    }
  }

  // ---------------------------------------------------------------------
  // Spanning trees and edge counts

  /** A walk from inside `S` to outside `S` crosses an edge that leaves `S`. */
  lemma CrossingEdge(V: set<Cell>, F: set<Edge>, S: set<Cell>, p: seq<Cell>) returns (u: Cell, w: Cell)
    requires IsWalk(V, F, p) && p[0] in S && p[|p| - 1] !in S
    ensures u in S && w !in S && w in V && Linked(F, u, w)
  {
    var i := 0;
    while p[i + 1] in S
      invariant 0 <= i < |p| - 1 && p[i] in S
      decreases |p| - i
    {
      i := i + 1;
    }
    u, w := p[i], p[i + 1];
    assert Linked(F, p[i + 1 - 1], p[i + 1]);
  }

  lemma SubsetCard<T>(A: set<T>, B: set<T>)
    requires A <= B
    ensures |A| <= |B|
    ensures |A| == |B| ==> A == B
  {
    assert B == A + (B - A);
    assert A * (B - A) == {};
  }

  /**
   A tree (S, T) grown inside V from `s`: T has one edge fewer than S has
   vertices, its edges stay inside S, and they connect `s` to all of S.
   */
  ghost predicate IsGrowingTree(V: set<Cell>, F: set<Edge>, s: Cell, S: set<Cell>, T: set<Edge>)
  {
    s in S && S <= V && T <= F && |T| == |S| - 1 && EdgesWithin(S, T) &&
    forall x :: x in S ==> Reachable(S, T, s, x)
  }

  /** Joining `w` to S by an edge at `u` keeps every vertex reachable from `s`. */
  lemma GrowReach(S: set<Cell>, T: set<Edge>, s: Cell, u: Cell, w: Cell, e: Edge)
    requires forall x :: x in S ==> Reachable(S, T, s, x)
    requires u in S && Linked({e}, u, w)
    ensures forall y :: y in S + {w} ==> Reachable(S + {w}, T + {e}, s, y)
  {
    var S', T' := S + {w}, T + {e};
    assert Linked(T', u, w);
    ReachableMono(S, T, S', T', s, u);
    forall y | y in S' ensures Reachable(S', T', s, y) {
      if y == w {
        ReachableExtend(S', T', s, u, w);
      } else {
        ReachableMono(S, T, S', T', s, y);
      }
    }
  }

  /** Joining a new vertex `w` to S by a new edge keeps one edge fewer than vertices. */
  lemma GrowEdges(S: set<Cell>, T: set<Edge>, u: Cell, w: Cell, e: Edge)
    requires EdgesWithin(S, T) && u in S && w !in S && Linked({e}, u, w)
    ensures |T + {e}| == |T| + 1 && |S + {w}| == |S| + 1
    ensures EdgesWithin(S + {w}, T + {e})
  {
    assert e !in T;
  }

  /** One growth step: add a vertex outside S through an edge that crosses out of S. */
  lemma GrowStep(V: set<Cell>, F: set<Edge>, s: Cell, S: set<Cell>, T: set<Edge>, u: Cell, w: Cell, e: Edge)
    requires IsGrowingTree(V, F, s, S, T)
    requires u in S && w !in S && w in V && e in F && Linked({e}, u, w)
    ensures IsGrowingTree(V, F, s, S + {w}, T + {e})
  {
    GrowEdges(S, T, u, w, e);
    GrowReach(S, T, s, u, w, e);
  }

  /** Growing a tree one crossing edge at a time until it spans V. */
  lemma {:induction false} GrowTree(V: set<Cell>, F: set<Edge>, s: Cell, S: set<Cell>, T: set<Edge>)
    returns (tree: set<Edge>)
    requires Connected(V, F)
    requires IsGrowingTree(V, F, s, S, T)
    ensures tree <= F && |tree| == |V| - 1
    ensures forall x :: x in V ==> Reachable(V, tree, s, x)
    decreases |V - S|
  {
    if S == V {
      forall x | x in V ensures Reachable(V, T, s, x) {
        assert Reachable(S, T, s, x);
      }
      tree := T;
    } else {
      var x :| x in V && x !in S;
      assert Reachable(V, F, s, x);
      var p :| IsWalk(V, F, p) && p[0] == s && p[|p| - 1] == x;
      var u, w := CrossingEdge(V, F, S, p);
      var e := if (u, w) in F then (u, w) else (w, u);
      GrowStep(V, F, s, S, T, u, w, e);
      assert V - (S + {w}) < V - S;
      SubsetCard(V - (S + {w}), V - S);
      tree := GrowTree(V, F, s, S + {w}, T + {e});
    }
  }

  /** A connected graph has a spanning tree: |V| - 1 of its edges that still connect V. */
  lemma SpanningTree(V: set<Cell>, F: set<Edge>, s: Cell) returns (tree: set<Edge>)
    requires Connected(V, F) && s in V
    ensures tree <= F && |tree| == |V| - 1
    ensures Connected(V, tree)
  {
    ReachableRefl({s}, {}, s);
    assert IsGrowingTree(V, F, s, {s}, {});
    tree := GrowTree(V, F, s, {s}, {});
    ConnectedFromRoot(V, tree, s);
  }

  /** A connected graph on n vertices has at least n - 1 edges. */
  lemma ConnectedEdgeLowerBound(V: set<Cell>, F: set<Edge>)
    requires Connected(V, F) && V != {}
    ensures |F| >= |V| - 1
  {
    var s :| s in V;
    var tree := SpanningTree(V, F, s);
    SubsetCard(tree, F);
  }

  /** A walk in F can be rerouted around an edge whose ends stay connected without it. */
  lemma {:induction false} AvoidEdge(V: set<Cell>, F: set<Edge>, e: Edge, p: seq<Cell>)
    requires Reachable(V, F - {e}, e.0, e.1)
    requires IsWalk(V, F, p)
    ensures Reachable(V, F - {e}, p[0], p[|p| - 1])
    decreases |p|
  {
    if |p| == 1 {
      ReachableRefl(V, F - {e}, p[0]);
    } else {
      var n := |p|;
      var q := p[..n - 1];
      assert IsWalk(V, F, q) by {
        forall i | 0 < i < |q| ensures Linked(F, q[i - 1], q[i]) {
          assert Linked(F, p[i - 1], p[i]);
        }
      }
      AvoidEdge(V, F, e, q);
      var a, b := p[n - 2], p[n - 1];
      assert Linked(F, p[n - 1 - 1], p[n - 1]);
      if Linked(F - {e}, a, b) {
        ReachableExtend(V, F - {e}, p[0], a, b);
      } else if e == (a, b) {
        ReachableTrans(V, F - {e}, p[0], a, b);
      } else {
        assert e == (b, a);
        ReachableSymmetric(V, F - {e}, b, a);
        ReachableTrans(V, F - {e}, p[0], a, b);
      }
    }
  }

  /** Removing an edge that is not a bridge keeps a graph connected. */
  lemma RemoveNonBridge(V: set<Cell>, F: set<Edge>, e: Edge)
    requires Connected(V, F)
    requires Reachable(V, F - {e}, e.0, e.1)
    ensures Connected(V, F - {e})
  {
    forall a, b | a in V && b in V ensures Reachable(V, F - {e}, a, b) {
      var p :| IsWalk(V, F, p) && p[0] == a && p[|p| - 1] == b;
      AvoidEdge(V, F, e, p);
    }
  }

  /** A connected graph with exactly |V| - 1 edges has no cycle. */
  lemma TreeEdgeCountAcyclic(V: set<Cell>, F: set<Edge>)
    requires Connected(V, F) && V != {} && |F| == |V| - 1
    ensures Acyclic(V, F)
  {
    forall e | e in F ensures IsBridge(V, F, e) {
      if Reachable(V, F - {e}, e.0, e.1) {
        RemoveNonBridge(V, F, e);
        ConnectedEdgeLowerBound(V, F - {e});
        assert false;
      }
    }
  }

  /** An edge outside a connected spanning subgraph is not a bridge. */
  lemma OffTreeEdgeNotBridge(V: set<Cell>, F: set<Edge>, tree: set<Edge>, f: Edge)
    requires tree <= F && Connected(V, tree)
    requires f in F && f !in tree && f.0 in V && f.1 in V
    ensures !IsBridge(V, F, f)
  {
    assert Reachable(V, tree, f.0, f.1);
    ReachableMono(V, tree, V, F - {f}, f.0, f.1);
  }

  /** In an acyclic graph a connected spanning subgraph already holds every edge. */
  lemma AcyclicSpanningSubgraph(V: set<Cell>, F: set<Edge>, tree: set<Edge>)
    requires EdgesWithin(V, F) && Acyclic(V, F)
    requires tree <= F && Connected(V, tree)
    ensures tree == F
  {
    forall f | f in F ensures f in tree {
      if f !in tree {
        OffTreeEdgeNotBridge(V, F, tree, f);
        assert false;
      }
    }
  }

  /** A connected graph without cycles has exactly |V| - 1 edges. */
  lemma AcyclicTreeEdgeCount(V: set<Cell>, F: set<Edge>)
    requires Connected(V, F) && V != {} && EdgesWithin(V, F)
    requires Acyclic(V, F)
    ensures |F| == |V| - 1
  {
    var s :| s in V;
    var tree := SpanningTree(V, F, s);
    AcyclicSpanningSubgraph(V, F, tree);
  }

  /**
   The spanning-tree characterisation: a non-empty connected graph is
   acyclic exactly when it has one edge fewer than it has vertices.
   */
  lemma TreeIffEdgeCount(V: set<Cell>, F: set<Edge>)
    requires Connected(V, F) && V != {} && EdgesWithin(V, F)
    ensures |F| == |V| - 1 <==> Acyclic(V, F)
  {
    if |F| == |V| - 1 {
      TreeEdgeCountAcyclic(V, F);
    }
    if Acyclic(V, F) {
      AcyclicTreeEdgeCount(V, F);
    }
  }

  /** Adding one more edge between vertices of a spanning tree leaves some edge that is not a bridge. */
  lemma ExtraEdgeBreaksTree(V: set<Cell>, F: set<Edge>, e: Edge)
    requires Connected(V, F) && V != {} && EdgesWithin(V, F) && Acyclic(V, F)
    requires e !in F && e.0 in V && e.1 in V
    ensures !Acyclic(V, F + {e})
  {
    TreeIffEdgeCount(V, F);
    forall a, b | a in V && b in V ensures Reachable(V, F + {e}, a, b) {
      ReachableMono(V, F, V, F + {e}, a, b);
    }
    TreeIffEdgeCount(V, F + {e});
  }

  /** When the enlarged edge set has no loop and no doubled edge, the extra edge closes a cycle. */
  lemma ExtraEdgeClosesCycle(V: set<Cell>, F: set<Edge>, e: Edge)
    requires Connected(V, F) && V != {} && EdgesWithin(V, F) && Acyclic(V, F)
    requires e !in F && e.0 in V && e.1 in V && Simple(F + {e})
    ensures HasCycle(V, F + {e})
  {
    ExtraEdgeBreaksTree(V, F, e);
    AcyclicIffNoCycle(V, F + {e});
  }

  // ---------------------------------------------------------------------
  // Bridges and cycles

  /** An edge on a cycle is not a bridge: the rest of the cycle still joins its ends. */
  lemma CycleEdgeNotBridge(V: set<Cell>, F: set<Edge>, p: seq<Cell>) returns (e: Edge)
    requires IsCycle(V, F, p)
    ensures e in F && !IsBridge(V, F, e)
  {
    var n := |p|;
    assert Linked(F, p[1 - 1], p[1]);
    e := if (p[0], p[1]) in F then (p[0], p[1]) else (p[1], p[0]);
    var q := p[1..];
    forall i | 0 < i < |q| ensures Linked(F - {e}, q[i - 1], q[i]) {
      assert q[i - 1] == p[i] && q[i] == p[i + 1];
      assert Linked(F, p[i + 1 - 1], p[i + 1]);
      assert p[i] != p[0];
      if i == 1 {
        assert p[2] != p[0] && p[2] != p[1];
      } else {
        assert p[i] != p[1];
      }
    }
    assert IsWalk(V, F - {e}, q);
    if e == (p[0], p[1]) {
      ReachableSymmetric(V, F - {e}, p[1], p[0]);
    }
  }

  /** Cutting the closed stretch between two visits of the same vertex leaves a walk. */
  lemma CutLoop(V: set<Cell>, F: set<Edge>, q: seq<Cell>, i: nat, j: nat)
    requires IsWalk(V, F, q) && i < j < |q| && q[i] == q[j]
    ensures IsWalk(V, F, q[..i] + q[j..])
    ensures (q[..i] + q[j..])[0] == q[0]
    ensures (q[..i] + q[j..])[|q| - (j - i) - 1] == q[|q| - 1]
  {
    var q' := q[..i] + q[j..];
    var d := j - i;
    forall k | 0 <= k < |q'| ensures q'[k] == if k < i then q[k] else q[k + d] {
    }
    forall k | 0 < k < |q'| ensures Linked(F, q'[k - 1], q'[k]) {
      if k < i {
        assert Linked(F, q[k - 1], q[k]);
      } else if k == i {
        assert Linked(F, q[i - 1], q[i]);
      } else {
        assert Linked(F, q[k + d - 1], q[k + d]);
      }
    }
  }

  /** Any walk can be shortened to one with the same ends that repeats no vertex. */
  lemma {:induction false} ShortenWalk(V: set<Cell>, F: set<Edge>, q: seq<Cell>) returns (r: seq<Cell>)
    requires IsWalk(V, F, q)
    ensures IsWalk(V, F, r) && Distinct(r)
    ensures r[0] == q[0] && r[|r| - 1] == q[|q| - 1]
    decreases |q|
  {
    if Distinct(q) {
      r := q;
    } else {
      var i: nat, j: nat :| i < j < |q| && q[i] == q[j];
      CutLoop(V, F, q, i, j);
      r := ShortenWalk(V, F, q[..i] + q[j..]);
    }
  }

  /** An edge that is not a bridge, in a simple graph, lies on a cycle. */
  lemma NonBridgeCycle(V: set<Cell>, F: set<Edge>, e: Edge) returns (p: seq<Cell>)
    requires Simple(F) && e in F
    requires Reachable(V, F - {e}, e.0, e.1)
    ensures IsCycle(V, F, p)
  {
    var q :| IsWalk(V, F - {e}, q) && q[0] == e.0 && q[|q| - 1] == e.1;
    var r := ShortenWalk(V, F - {e}, q);
    var n := |r|;
    assert n >= 2;
    assert Linked(F - {e}, r[1 - 1], r[1]);
    assert n >= 3 by {
      if n == 2 {
        assert false;
      }
    }
    p := r + [e.0];
    forall k | 0 < k < |p| ensures Linked(F, p[k - 1], p[k]) {
      if k < n {
        assert Linked(F - {e}, r[k - 1], r[k]);
      }
    }
    assert IsWalk(V, F, p);
  }

  /** For a simple graph, every edge is a bridge exactly when there is no cycle. */
  lemma AcyclicIffNoCycle(V: set<Cell>, F: set<Edge>)
    requires Simple(F)
    ensures Acyclic(V, F) <==> !HasCycle(V, F)
  {
    if HasCycle(V, F) {
      var p :| IsCycle(V, F, p);
      var e := CycleEdgeNotBridge(V, F, p);
    }
    if !Acyclic(V, F) {
      var e :| e in F && !IsBridge(V, F, e);
      var p := NonBridgeCycle(V, F, e);
    }
  }
}
