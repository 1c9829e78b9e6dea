/** The graph object built from the lines: an adjacency list per node key,
    plus the order in which the keys were first inserted (the order in which
    `for (key in graph)` and `Object.keys(graph)` enumerate them).

    Also the path vocabulary the search is specified with: walks, their
    weights, and reachability. */
module Graphs {
  import opened Options
  import opened Geometry

  /** One adjacency entry `{ node, coord, weight }`. */
  datatype Edge = Edge(node: Key, coord: Coord, weight: real)

  datatype Graph = Graph(adj: map<Key, seq<Edge>>, keys: seq<Key>)

  const EmptyGraph := Graph(map[], [])

  /** `edges.find(edge => edge.node === k)`: the first entry naming `k`. */
  function FindEdge(es: seq<Edge>, k: Key): (r: Option<Edge>)
    ensures r.None? <==> forall i :: 0 <= i < |es| ==> es[i].node != k
    ensures r.Some? ==> r.value.node == k
    ensures r.Some? ==>
      exists i :: 0 <= i < |es| && es[i] == r.value && forall j :: 0 <= j < i ==> es[j].node != k
  {
    if |es| == 0 then None
    else if es[0].node == k then Some(es[0])
    else
      var r := FindEdge(es[1..], k);
      assert forall i :: 1 <= i < |es| ==> es[i] == es[1..][i - 1];
      r
  }

  /** Pushing an entry only changes what `find` returns for a key no entry
      named before. */
  lemma {:induction false} FindEdgeAppend(es: seq<Edge>, e: Edge, k: Key)
    ensures FindEdge(es + [e], k) ==
      if FindEdge(es, k).Some? then FindEdge(es, k)
      else if e.node == k then Some(e) else None
  {
    if |es| > 0 {
      assert (es + [e])[1..] == es[1..] + [e];
      FindEdgeAppend(es[1..], e, k);
    }
  }

  /** At most one entry per neighbour key. */
  predicate NoDupNodes(es: seq<Edge>)
  {
    forall i, j :: 0 <= i < j < |es| ==> es[i].node != es[j].node
  }

  /** In a list without duplicate neighbours, `find` returns the one entry
      naming a neighbour. */
  lemma FindEdgeUnique(es: seq<Edge>, j: int)
    requires NoDupNodes(es) && 0 <= j < |es|
    ensures FindEdge(es, es[j].node) == Some(es[j])
  {
  }

  /** `a` has an adjacency entry for `b`. */
  predicate Adjacent(g: Graph, a: Key, b: Key)
  {
    a in g.adj && FindEdge(g.adj[a], b).Some?
  }

  /** The weight of the entry `a` holds for `b`. */
  function EdgeW(g: Graph, a: Key, b: Key): real
    requires Adjacent(g, a, b)
  {
    FindEdge(g.adj[a], b).value.weight
  }

  /** The keys are listed once each, and they are exactly the nodes. */
  ghost predicate KeysMatch(g: Graph)
  {
    && (forall i, j :: 0 <= i < j < |g.keys| ==> g.keys[i] != g.keys[j])
    && (forall k :: k in g.keys <==> k in g.adj)
  }

  /** Every neighbour key is itself a node. */
  ghost predicate Closed(g: Graph)
  {
    forall k, i :: k in g.adj && 0 <= i < |g.adj[k]| ==> g.adj[k][i].node in g.adj
  }

  ghost predicate NonNegative(g: Graph)
  {
    forall k, i :: k in g.adj && 0 <= i < |g.adj[k]| ==> g.adj[k][i].weight >= 0.0
  }

  ghost predicate NoDupLists(g: Graph)
  {
    forall k :: k in g.adj ==> NoDupNodes(g.adj[k])
  }

  ghost predicate NoSelfLoops(g: Graph)
  {
    forall k, i :: k in g.adj && 0 <= i < |g.adj[k]| ==> g.adj[k][i].node != k
  }

  /** A node is only created together with an edge. */
  ghost predicate OnlyEdgeNodes(g: Graph)
  {
    forall k :: k in g.adj ==> |g.adj[k]| > 0
  }

  /** Each entry carries its neighbour's representative coordinate. */
  ghost predicate CoordsMatch(g: Graph)
  {
    forall k, i :: k in g.adj && 0 <= i < |g.adj[k]| ==>
      g.adj[k][i].coord == CoordOf(g.adj[k][i].node)
  }

  /** `a` lists `b` with weight `w` exactly when `b` lists `a` with `w`. */
  ghost predicate Symmetric(g: Graph)
  {
    forall a, b :: Adjacent(g, a, b) ==> Adjacent(g, b, a) && EdgeW(g, b, a) == EdgeW(g, a, b)
  }

  /** What the shortest-path search relies on. */
  ghost predicate SearchReady(g: Graph)
  {
    KeysMatch(g) && Closed(g) && NonNegative(g) && NoDupLists(g)
  }

  /** Everything the graph builder guarantees. */
  ghost predicate WellFormed(g: Graph)
  {
    && SearchReady(g)
    && NoSelfLoops(g)
    && OnlyEdgeNodes(g)
    && CoordsMatch(g)
    && Symmetric(g)
  }

  /** The weight of an adjacency is the weight of one of the entries of its
      list, so it lies in every bound the entries satisfy. */
  lemma AdjacentEntry(g: Graph, a: Key, b: Key) returns (j: nat)
    requires Adjacent(g, a, b)
    ensures j < |g.adj[a]| && g.adj[a][j].node == b && g.adj[a][j].weight == EdgeW(g, a, b)
  {
    var r := FindEdge(g.adj[a], b);
    j :| 0 <= j < |g.adj[a]| && g.adj[a][j] == r.value;
  }

  // ---------------------------------------------------------------------------
  // Walks

  /** Consecutive keys are adjacent. */
  ghost predicate IsWalk(g: Graph, p: seq<Key>)
  {
    forall i :: 0 <= i < |p| - 1 ==> Adjacent(g, p[i], p[i + 1])
  }

  /** A walk from `s` to `t`. */
  ghost predicate IsPath(g: Graph, p: seq<Key>, s: Key, t: Key)
  {
    |p| > 0 && p[0] == s && p[|p| - 1] == t && IsWalk(g, p)
  }

  ghost predicate Reachable(g: Graph, s: Key, t: Key)
  {
    exists p :: IsPath(g, p, s, t)
  }

  /** Sum of the edge weights along a walk. */
  ghost function Weight(g: Graph, p: seq<Key>): real
    requires IsWalk(g, p)
    decreases |p|
  {
    if |p| <= 1 then 0.0
    else
      assert IsWalk(g, p[..|p| - 1]) by {
        assert forall i :: 0 <= i < |p| - 1 ==> p[..|p| - 1][i] == p[i];
      }
      Weight(g, p[..|p| - 1]) + EdgeW(g, p[|p| - 2], p[|p| - 1])
  }

  lemma PrefixIsWalk(g: Graph, p: seq<Key>, k: nat)
    requires IsWalk(g, p) && k <= |p|
    ensures IsWalk(g, p[..k])
  {
    assert forall i :: 0 <= i < k ==> p[..k][i] == p[i];
  }

  lemma {:induction false} WeightNonNegative(g: Graph, p: seq<Key>)
    requires NonNegative(g) && IsWalk(g, p)
    ensures Weight(g, p) >= 0.0
    decreases |p|
  {
    if |p| > 1 {
      PrefixIsWalk(g, p, |p| - 1);
      WeightNonNegative(g, p[..|p| - 1]);
      var j := AdjacentEntry(g, p[|p| - 2], p[|p| - 1]);
    }
  }

  /** With nonnegative weights a prefix weighs no more than the walk. */
  lemma {:induction false} WeightPrefix(g: Graph, p: seq<Key>, k: nat)
    requires NonNegative(g) && IsWalk(g, p) && 1 <= k <= |p|
    ensures IsWalk(g, p[..k]) && Weight(g, p[..k]) <= Weight(g, p)
    decreases |p|
  {
    PrefixIsWalk(g, p, k);
    if k < |p| {
      var q := p[..|p| - 1];
      PrefixIsWalk(g, p, |p| - 1);
      WeightPrefix(g, q, k);
      assert q[..k] == p[..k];
      var j := AdjacentEntry(g, p[|p| - 2], p[|p| - 1]);
      assert g.adj[p[|p| - 2]][j].weight >= 0.0;
      assert Weight(g, p) == Weight(g, q) + EdgeW(g, p[|p| - 2], p[|p| - 1]);
    } else {
      assert p[..k] == p;
    }
  }

  /** Extending a walk by one step at its end adds that step's weight. */
  lemma WeightAppend(g: Graph, p: seq<Key>, v: Key)
    requires IsWalk(g, p) && |p| > 0 && Adjacent(g, p[|p| - 1], v)
    ensures IsWalk(g, p + [v]) && Weight(g, p + [v]) == Weight(g, p) + EdgeW(g, p[|p| - 1], v)
  {
    var q := p + [v];
    assert forall i :: 0 <= i < |p| ==> q[i] == p[i];
    assert q[..|q| - 1] == p;
  }

  /** Extending a walk by one step at its start adds that step's weight. */
  lemma {:induction false} WeightPrepend(g: Graph, x: Key, p: seq<Key>)
    requires IsWalk(g, p) && |p| > 0 && Adjacent(g, x, p[0])
    ensures IsWalk(g, [x] + p) && Weight(g, [x] + p) == EdgeW(g, x, p[0]) + Weight(g, p)
    decreases |p|
  {
    var q := [x] + p;
    assert forall i :: 1 <= i < |q| ==> q[i] == p[i - 1];
    assert IsWalk(g, q);
    if |p| > 1 {
      var p' := p[..|p| - 1];
      PrefixIsWalk(g, p, |p| - 1);
      WeightPrepend(g, x, p');
      assert q[..|q| - 1] == [x] + p';
    }
  }

  /** A walk that starts in a set no edge leaves ends in that set. */
  lemma {:induction false} WalkStaysIn(g: Graph, p: seq<Key>, s: set<Key>)
    requires IsWalk(g, p) && |p| > 0 && p[0] in s
    requires forall x, y :: x in s && Adjacent(g, x, y) ==> y in s
    ensures p[|p| - 1] in s
    decreases |p|
  {
    if |p| > 1 {
      PrefixIsWalk(g, p, |p| - 1);
      WalkStaysIn(g, p[..|p| - 1], s);
    }
  }
}
