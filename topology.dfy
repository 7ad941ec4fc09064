/** The topological order and cycle check: the 0/1 dependency matrix is
    turned into a directed graph edge by edge, and then either a cycle is
    reported, with a message of the form `A1 -> A2 -> A1`, or an order of the graph's
    nodes is returned in which every dependency comes before its dependent.
    The graph's nodes are only the endpoints of its edges. */
module Topology {
  import opened Text

  /** A directed graph over activity indices, grown edge by edge. */
  datatype Graph = Graph(nodes: set<nat>, edges: set<(nat, nat)>)

  /** Adding an edge also adds both its endpoints as nodes. */
  function AddEdge(g: Graph, u: nat, v: nat): Graph
  {
    Graph(g.nodes + {u, v}, g.edges + {(u, v)})
  }

  /** `g` has an edge `(i, j)` exactly when entry `[i, j]` of the first
      `n` rows and columns is 1, and its nodes are the edges' endpoints. */
  ghost predicate IsDependencyGraph(g: Graph, m: array2<int>, n: nat)
    reads m
    requires n <= m.Length0 && n <= m.Length1
  {
    (forall i: nat, j: nat :: (i, j) in g.edges <==> i < n && j < n && m[i, j] == 1) &&
    (forall v :: v in g.nodes <==> IsEndpoint(g, v))
  }

  ghost predicate IsEndpoint(g: Graph, v: nat)
  {
    exists w :: (v, w) in g.edges || (w, v) in g.edges
  }

  /** All nodes and edge endpoints are below `n`, and each edge endpoint
      is a node. */
  ghost predicate Bounded(g: Graph, n: nat)
  {
    (forall v :: v in g.nodes ==> v < n) &&
    (forall u, v :: (u, v) in g.edges ==> u < n && v < n && u in g.nodes && v in g.nodes)
  }

  lemma DependencyGraphBounded(g: Graph, m: array2<int>, n: nat)
    requires n <= m.Length0 && n <= m.Length1
    requires IsDependencyGraph(g, m, n)
    ensures Bounded(g, n)
  {
    forall v | v in g.nodes ensures v < n {
      assert IsEndpoint(g, v);
    }
    forall u, v | (u, v) in g.edges ensures u in g.nodes && v in g.nodes {
      assert IsEndpoint(g, u) && IsEndpoint(g, v);
    }
  }

  predicate Distinct(s: seq<nat>)
  {
    forall i, j :: 0 <= i < j < |s| ==> s[i] != s[j]
  }

  /** `order` lists every node of `g` exactly once, and for every edge
      `(u, v)` it lists `u` before `v`. */
  ghost predicate IsTopologicalOrder(g: Graph, order: seq<nat>)
  {
    Distinct(order) &&
    (forall v :: v in order <==> v in g.nodes) &&
    (forall i, j :: 0 <= i < |order| && 0 <= j < |order| && (order[i], order[j]) in g.edges ==> i < j)
  }

  /** `c` = u1, ..., uk is a cycle of the matrix: distinct activities, each
      (u_i, u_i+1) a dependency and (uk, u1) closing it. */
  ghost predicate IsCycle(m: array2<int>, n: nat, c: seq<nat>)
    reads m
    requires n <= m.Length0 && n <= m.Length1
  {
    |c| > 0 && Distinct(c) &&
    (forall i :: 0 <= i < |c| ==> c[i] < n) &&
    (forall i :: 0 <= i < |c| - 1 ==> m[c[i], c[i + 1]] == 1) &&
    m[c[|c| - 1], c[0]] == 1
  }

  /** Every edge into `v` comes from a node already in `placed`. */
  ghost predicate Ready(g: Graph, placed: seq<nat>, v: nat)
  {
    forall u :: (u, v) in g.edges ==> u in placed
  }

  /** Every listed node comes after all the nodes it depends on. */
  ghost predicate PredecessorsFirst(g: Graph, order: seq<nat>)
  {
    forall k, u :: 0 <= k < |order| && (u, order[k]) in g.edges ==> u in order[..k]
  }

  /** The position of `x` in `s`, or `|s|` when `x` is absent. */
  function IndexOf(s: seq<nat>, x: nat): (j: nat)
    ensures j <= |s|
    ensures j < |s| ==> s[j] == x && x !in s[..j]
    ensures j == |s| <==> x !in s
  {
    if |s| == 0 then 0
    else if s[0] == x then 0
    else
      assert s[1..][..IndexOf(s[1..], x)] == s[1..IndexOf(s[1..], x) + 1];
      1 + IndexOf(s[1..], x)
  }

  /** The first part of calcular_orden_topologico: one `add_edge(i, j)` for
      every entry `[i, j]` equal to 1, row by row. */
  method BuildGraph(m: array2<int>, n: nat) returns (g: Graph)
    requires n <= m.Length0 && n <= m.Length1
    ensures IsDependencyGraph(g, m, n)
  {
    g := Graph({}, {});
    for i := 0 to n
      invariant forall a: nat, b: nat :: (a, b) in g.edges <==> a < i && b < n && m[a, b] == 1
      invariant forall v :: v in g.nodes <==> IsEndpoint(g, v)
    {
      for j := 0 to n
        invariant forall a: nat, b: nat :: (a, b) in g.edges <==>
          (a < i && b < n && m[a, b] == 1) || (a == i && b < j && m[a, b] == 1)
        invariant forall v :: v in g.nodes <==> IsEndpoint(g, v)
      {
        if m[i, j] == 1 {
          var g' := AddEdge(g, i, j);
          forall v | v in g'.nodes ensures IsEndpoint(g', v) {
            if v in g.nodes {
              var w :| (v, w) in g.edges || (w, v) in g.edges;
              assert (v, w) in g'.edges || (w, v) in g'.edges;
            } else if v == i {
              assert (i, j) in g'.edges;
            } else {
              assert (i, j) in g'.edges;
            }
          }
          forall v | IsEndpoint(g', v) ensures v in g'.nodes {
            var w :| (v, w) in g'.edges || (w, v) in g'.edges;
            if (v, w) !in g.edges && (w, v) !in g.edges {
              assert v == i || v == j;
            }
          }
          g := g';
        }
      }
    }
  }

  /** Whether every edge into `v` comes from a node of `placed`. */
  method IsReady(g: Graph, n: nat, placed: seq<nat>, v: nat) returns (b: bool)
    requires Bounded(g, n)
    ensures b == Ready(g, placed, v)
  {
    for u := 0 to n
      invariant forall x :: x < u && (x, v) in g.edges ==> x in placed
    {
      if (u, v) in g.edges && u !in placed {
        return false;
      }
    }
    return true;
  }

  /** The least node that is not yet placed and has all its predecessors
      placed, or `n` when there is none. */
  method FindReady(g: Graph, n: nat, placed: seq<nat>) returns (v: nat)
    requires Bounded(g, n)
    ensures v <= n
    ensures v < n ==> v in g.nodes && v !in placed && Ready(g, placed, v)
    ensures v == n ==> forall w :: w in g.nodes && w !in placed ==> !Ready(g, placed, w)
  {
    for w := 0 to n
      invariant forall x :: x < w && x in g.nodes && x !in placed ==> !Ready(g, placed, x)
    {
      if w in g.nodes && w !in placed {
        var ready := IsReady(g, n, placed, w);
        if ready {
          return w;
        }
      }
    }
    return n;
  }

  /** The least node that is not yet placed, or `n` when all are. */
  method FindUnplaced(g: Graph, n: nat, placed: seq<nat>) returns (v: nat)
    requires Bounded(g, n)
    ensures v <= n
    ensures v < n ==> v in g.nodes && v !in placed
    ensures v == n ==> forall w :: w in g.nodes ==> w in placed
  {
    for w := 0 to n
      invariant forall x :: x < w && x in g.nodes ==> x in placed
    {
      if w in g.nodes && w !in placed {
        return w;
      }
    }
    return n;
  }

  /** The least unplaced predecessor of a node that is not ready. */
  method FindUnplacedPredecessor(g: Graph, n: nat, placed: seq<nat>, v: nat) returns (u: nat)
    requires Bounded(g, n)
    requires !Ready(g, placed, v)
    ensures (u, v) in g.edges && u !in placed
  {
    u := 0;
    while u < n
      invariant u <= n
      invariant forall x :: x < u ==> !((x, v) in g.edges && x !in placed)
    {
      if (u, v) in g.edges && u !in placed {
        return;
      }
      u := u + 1;
    }
    assert false;
  }

  /** `c` = u1, ..., uk is a cycle of `g`: distinct nodes, each
      (u_i, u_i+1) an edge and (uk, u1) closing it. */
  ghost predicate IsGraphCycle(g: Graph, c: seq<nat>)
  {
    |c| > 0 && Distinct(c) &&
    (forall i :: 0 <= i < |c| - 1 ==> (c[i], c[i + 1]) in g.edges) &&
    (c[|c| - 1], c[0]) in g.edges
  }

  /** A cycle of the dependency graph is a cycle of its matrix. */
  lemma GraphCycleIsMatrixCycle(g: Graph, m: array2<int>, n: nat, c: seq<nat>)
    requires n <= m.Length0 && n <= m.Length1
    requires IsDependencyGraph(g, m, n) && IsGraphCycle(g, c)
    ensures IsCycle(m, n, c)
  {
    forall i | 0 <= i < |c| ensures c[i] < n {
      if i < |c| - 1 {
        assert (c[i], c[i + 1]) in g.edges;
      } else {
        assert (c[i], c[0]) in g.edges;
      }
    }
    forall i | 0 <= i < |c| - 1 ensures m[c[i], c[i + 1]] == 1 {
      assert (c[i], c[i + 1]) in g.edges;
    }
  }

  /** The naturals below `n`. */
  function Below(n: nat): (r: set<nat>)
    ensures forall x: nat :: x in r <==> x < n
  {
    if n == 0 then {} else Below(n - 1) + {n - 1}
  }

  /** Consecutive entries of `walk` are edges of `g`. */
  ghost predicate IsWalk(g: Graph, walk: seq<nat>)
  {
    forall i :: 0 <= i < |walk| - 1 ==> (walk[i], walk[i + 1]) in g.edges
  }

  /** A walk preceded by a predecessor of its first node is a walk, and
      stays without repetition when that predecessor is new. */
  lemma WalkPrepend(g: Graph, walk: seq<nat>, u: nat)
    requires |walk| > 0 && IsWalk(g, walk) && Distinct(walk)
    requires (u, walk[0]) in g.edges && u !in walk
    ensures IsWalk(g, [u] + walk) && Distinct([u] + walk)
  {
    var w' := [u] + walk;
    assert forall i :: 1 <= i < |w'| ==> w'[i] == walk[i - 1];
  }

  /** A walk that leads back from its `j`-th node to its first closes a
      cycle over its first `j + 1` nodes. */
  lemma WalkCloses(g: Graph, walk: seq<nat>, j: nat)
    requires j < |walk| && IsWalk(g, walk) && Distinct(walk)
    requires (walk[j], walk[0]) in g.edges
    ensures IsGraphCycle(g, walk[..j + 1])
  {
    var c := walk[..j + 1];
    forall i | 0 <= i < |c| - 1 ensures (c[i], c[i + 1]) in g.edges {
      assert c[i] == walk[i] && c[i + 1] == walk[i + 1];
    }
  }

  /** When no unplaced node is ready, walks back from `w` along unplaced
      predecessors until a node repeats; the part of the walk between the
      two visits is a cycle. */
  method ExtractCycle(g: Graph, n: nat, placed: seq<nat>, w: nat) returns (c: seq<nat>)
    requires Bounded(g, n)
    requires w in g.nodes && w !in placed
    requires forall x :: x in g.nodes && x !in placed ==> !Ready(g, placed, x)
    ensures IsGraphCycle(g, c)
    ensures forall x :: x in c ==> x in g.nodes && x !in placed
  {
    // Each new node is an unplaced predecessor of the previous first one.
    var walk := [w];
    ghost var unseen := Below(n) - {w};
    while true
      invariant |walk| > 0 && Distinct(walk) && IsWalk(g, walk)
      invariant forall x :: x in walk ==> x in g.nodes && x !in placed
      invariant forall x: nat :: x in unseen <==> x < n && x !in walk
      decreases unseen
    {
      var u := FindUnplacedPredecessor(g, n, placed, walk[0]);
      var j := IndexOf(walk, u);
      if j < |walk| {
        WalkCloses(g, walk, j);
        c := walk[..j + 1];
        return;
      }
      WalkPrepend(g, walk, u);
      walk := [u] + walk;
      unseen := unseen - {u};
    }
  }

  /** The text after "Se detectó un ciclo: ": the cycle's labels joined by
      " -> ", closed by the first label again. */
  function CycleText(c: seq<nat>): (r: string)
    requires |c| > 0
  {
    Arrows(c) + " -> " + Label(c[0])
  }

  /** `" -> ".join(f"A{u + 1}" for u in c)`. */
  function Arrows(c: seq<nat>): string
  {
    if |c| == 0 then ""
    else if |c| == 1 then Label(c[0])
    else Label(c[0]) + " -> " + Arrows(c[1..])
  }

  function CycleMessage(c: seq<nat>): string
    requires |c| > 0
  {
    "Se detect\U{00F3} un ciclo: " + CycleText(c)
  }

  /** The cycle text starts and ends with the label of the cycle's first
      activity: it reads as a closed walk. */
  lemma {:induction false} CycleTextClosed(c: seq<nat>)
    requires |c| > 0
    ensures var t := CycleText(c); var l := Label(c[0]);
      |t| > |l| && t[..|l|] == l && t[|t| - |l|..] == l
  {
    var t := CycleText(c);
    var l := Label(c[0]);
    var a := Arrows(c);
    assert a[..|l|] == l;
    assert t == a + " -> " + l;
    assert t[..|l|] == a[..|l|];
  }

  /** The result of calcular_orden_topologico. */
  datatype Outcome =
    | Sorted(order: seq<nat>, graph: Graph)
    | CycleDetected(cycle: seq<nat>, message: string)

  /** The indices of `order` below `n`, in order (the final comprehension
      of calcular_orden_topologico). */
  function KeepBelow(order: seq<nat>, n: nat): (r: seq<nat>)
    ensures forall x :: x in r <==> x in order && x < n
  {
    if order == [] then []
    else
      assert forall x :: x in order[1..] ==> x in order;
      assert order == [order[0]] + order[1..];
      (if order[0] < n then [order[0]] else []) + KeepBelow(order[1..], n)
  }

  /** The filter keeps an order whose entries are all below `n` as it is. */
  lemma {:induction false} KeepBelowAll(order: seq<nat>, n: nat)
    requires forall x :: x in order ==> x < n
    ensures KeepBelow(order, n) == order
  {
    if order != [] {
      assert order[0] in order && forall x :: x in order[1..] ==> x in order;
      KeepBelowAll(order[1..], n);
      assert order == [order[0]] + order[1..];
    }
  }

  /** Placing a ready node after `order` keeps every node after its
      predecessors. */
  lemma PlaceReady(g: Graph, order: seq<nat>, v: nat)
    requires PredecessorsFirst(g, order) && Ready(g, order, v)
    ensures PredecessorsFirst(g, order + [v])
  {
    var o := order + [v];
    forall k, u | 0 <= k < |o| && (u, o[k]) in g.edges ensures u in o[..k] {
      if k < |order| {
        assert o[k] == order[k] && o[..k] == order[..k];
      } else {
        assert o[..k] == order;
      }
    }
  }

  /** With predecessors first and no repetition, every edge goes forward. */
  lemma PredecessorsFirstForward(g: Graph, order: seq<nat>)
    requires Distinct(order) && PredecessorsFirst(g, order)
    ensures forall i, j :: 0 <= i < |order| && 0 <= j < |order| && (order[i], order[j]) in g.edges ==> i < j
  {
    forall i, j | 0 <= i < |order| && 0 <= j < |order| && (order[i], order[j]) in g.edges
      ensures i < j
    {
      assert order[i] in order[..j];
      var i' := IndexOf(order[..j], order[i]);
      assert order[i'] == order[i];
    }
  }

  /** calcular_orden_topologico: builds the graph, then either reports a
      cycle of the matrix, with its message, or returns the graph and a
      topological order of its nodes, all below `n`. */
  method TopologicalOrder(m: array2<int>, n: nat) returns (res: Outcome)
    requires n <= m.Length0 && n <= m.Length1
    ensures res.Sorted? ==> IsDependencyGraph(res.graph, m, n) && IsTopologicalOrder(res.graph, res.order)
    ensures res.Sorted? ==> forall k :: 0 <= k < |res.order| ==> res.order[k] < n
    ensures res.CycleDetected? ==> IsCycle(m, n, res.cycle) && res.message == CycleMessage(res.cycle)
  {
    var g := BuildGraph(m, n);
    DependencyGraphBounded(g, m, n);
    var order := Linearize(g, n);
    var w := FindUnplaced(g, n, order);
    if w < n {
      var c := ExtractCycle(g, n, order, w);
      GraphCycleIsMatrixCycle(g, m, n, c);
      return CycleDetected(c, CycleMessage(c));
    }
    LinearizationIsTopological(g, n, order);
    KeepBelowAll(order, n);
    var sorted := KeepBelow(order, n);
    assert forall k :: 0 <= k < |sorted| ==> sorted[k] in order;
    return Sorted(sorted, g);
  }

  /** A linearization that placed every node is a topological order. */
  lemma LinearizationIsTopological(g: Graph, n: nat, order: seq<nat>)
    requires Bounded(g, n)
    requires Distinct(order) && forall x :: x in order ==> x in g.nodes
    requires PredecessorsFirst(g, order)
    requires forall w :: w in g.nodes ==> w in order
    ensures IsTopologicalOrder(g, order)
    ensures forall x :: x in order ==> x < n
  {
    PredecessorsFirstForward(g, order);
  }

  /** Keeps placing the least ready node until none is left: the nodes
      placed come after their predecessors, and every node not placed
      waits for one that is not placed either. */
  method Linearize(g: Graph, n: nat) returns (order: seq<nat>)
    requires Bounded(g, n)
    ensures Distinct(order) && forall x :: x in order ==> x in g.nodes
    ensures PredecessorsFirst(g, order)
    ensures forall w :: w in g.nodes && w !in order ==> !Ready(g, order, w)
  {
    order := [];
    ghost var left := g.nodes;
    while true
      invariant Distinct(order) && forall x :: x in order ==> x in g.nodes
      invariant PredecessorsFirst(g, order)
      invariant forall x :: x in left <==> x in g.nodes && x !in order
      decreases left
    {
      var v := FindReady(g, n, order);
      if v == n {
        return;
      }
      PlaceReady(g, order, v);
      order := order + [v];
      left := left - {v};
    }
  }

  /** A topological order rules out every cycle: along a cycle the
      positions would have to increase all the way round. */
  lemma {:induction false} OrderExcludesCycle(g: Graph, m: array2<int>, n: nat, order: seq<nat>, c: seq<nat>)
    requires n <= m.Length0 && n <= m.Length1
    requires IsDependencyGraph(g, m, n) && IsTopologicalOrder(g, order)
    ensures !IsCycle(m, n, c)
  {
    if IsCycle(m, n, c) {
      DependencyGraphBounded(g, m, n);
      assert (c[|c| - 1], c[0]) in g.edges;
      var k := 0;
      while k < |c| - 1
        invariant 0 <= k < |c|
        invariant c[k] in order
        invariant IndexOf(order, c[k]) >= IndexOf(order, c[0]) + k
      {
        assert (c[k], c[k + 1]) in g.edges;
        k := k + 1;
      }
      assert false;
    }
  }

  /** Activities A1 and A2 depending on each other form a cycle, which no
      order can respect; the message of the cycle [0, 1] (the one NetworkX
      finds here) is "A1 -> A2 -> A1". The walk of ExtractCycle may return
      the same cycle started at A2, whose message is "A2 -> A1 -> A2". */
  lemma TwoActivityCycle(g: Graph, m: array2<int>)
    requires m.Length0 == 2 && m.Length1 == 2
    requires m[0, 0] == 0 && m[0, 1] == 1 && m[1, 0] == 1 && m[1, 1] == 0
    requires IsDependencyGraph(g, m, 2)
    ensures IsCycle(m, 2, [0, 1])
    ensures forall order :: !IsTopologicalOrder(g, order)
    ensures CycleMessage([0, 1]) == "Se detect\U{00F3} un ciclo: A1 -> A2 -> A1"
  {
    forall order | IsTopologicalOrder(g, order) ensures false {
      OrderExcludesCycle(g, m, 2, order, [0, 1]);
    }
    assert NatToString(1) == "1" && NatToString(2) == "2";
  }
}
