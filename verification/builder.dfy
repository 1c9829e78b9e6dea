/** The graph builder (`buildGraphFromLines`).

    Every consecutive coordinate pair of every line is a segment. Both ends
    are resolved through the node merger; a segment whose ends resolve to one
    node is skipped; otherwise each end gets an entry for the other, unless
    it already has one, weighted by the distance between the two nodes'
    representative coordinates. */
module Builder {
  import opened Options
  import opened Geometry
  import opened Merger
  import opened Graphs

  /** The graph under construction together with the merge tables. */
  datatype BuildState = BuildState(graph: Graph, merge: MergeState)

  /** Each edge weighs the distance between its ends' representatives,
      measured from whichever end the segment that created it started at. */
  ghost predicate WeightsFrom(g: Graph, dist: Metric)
  {
    forall a, b :: Adjacent(g, a, b) ==>
      EdgeW(g, a, b) == dist(CoordOf(a), CoordOf(b)) || EdgeW(g, a, b) == dist(CoordOf(b), CoordOf(a))
  }

  ghost predicate Inv(s: BuildState, tol: real, dist: Metric)
  {
    && Valid(s.merge, tol, dist)
    && WellFormed(s.graph)
    && WeightsFrom(s.graph, dist)
    && (forall k :: k in s.graph.adj ==> k in s.merge.reps)
  }

  // ---------------------------------------------------------------------------
  // Graph updates

  /** `if (!graph[k]) graph[k] = []` */
  function EnsureNode(g: Graph, k: Key): (g': Graph)
    ensures k in g'.adj && g'.adj.Keys == g.adj.Keys + {k}
    ensures forall x :: x in g.adj ==> g'.adj[x] == g.adj[x]
    ensures k !in g.adj ==> g'.adj[k] == [] && g'.keys == g.keys + [k]
    ensures k in g.adj ==> g' == g
  {
    if k in g.adj then g else Graph(g.adj[k := []], g.keys + [k])
  }

  /** `if (!graph[k].find(edge => edge.node === e.node)) graph[k].push(e)` */
  function Link(g: Graph, k: Key, e: Edge): (g': Graph)
    requires k in g.adj
    ensures g'.adj.Keys == g.adj.Keys && g'.keys == g.keys
    ensures forall x :: x in g.adj && x != k ==> g'.adj[x] == g.adj[x]
    ensures g'.adj[k] == if FindEdge(g.adj[k], e.node).Some? then g.adj[k] else g.adj[k] + [e]
  {
    if FindEdge(g.adj[k], e.node).Some? then g else g.(adj := g.adj[k := g.adj[k] + [e]])
  }

  lemma EnsureNodeKeys(g: Graph, k: Key)
    requires KeysMatch(g)
    ensures KeysMatch(EnsureNode(g, k))
  {
    var g' := EnsureNode(g, k);
    if k !in g.adj {
      assert forall i :: 0 <= i < |g.keys| ==> g'.keys[i] == g.keys[i];
    }
  }

  /** An empty list adds no adjacency. */
  lemma EnsureNodeAdjacency(g: Graph, k: Key)
    ensures forall x, y :: Adjacent(EnsureNode(g, k), x, y) <==> Adjacent(g, x, y)
    ensures forall x, y :: Adjacent(g, x, y) ==> EdgeW(EnsureNode(g, k), x, y) == EdgeW(g, x, y)
  {
  }

  /** Linking adds exactly the adjacency from `k` to `e.node`, with the
      weight of `e` when it is new. */
  lemma LinkAdjacency(g: Graph, k: Key, e: Edge)
    requires k in g.adj
    ensures forall x, y :: Adjacent(Link(g, k, e), x, y) <==> Adjacent(g, x, y) || (x == k && y == e.node)
    ensures forall x, y :: Adjacent(g, x, y) ==> EdgeW(Link(g, k, e), x, y) == EdgeW(g, x, y)
    ensures !Adjacent(g, k, e.node) ==> EdgeW(Link(g, k, e), k, e.node) == e.weight
  {
    forall y {
      FindEdgeAppend(g.adj[k], e, y);
    }
  }

  /** Insert the pair of entries `ka -> kb` and `kb -> ka` of one segment,
      each carrying the other end's representative coordinate. The two
      ends become nodes, appended to the key order when new, and no other
      node is added. */
  function Connect(g: Graph, ka: Key, ca: Coord, kb: Key, cb: Coord, w: real): (g': Graph)
    ensures g'.adj.Keys == g.adj.Keys + {ka, kb}
    ensures g.keys <= g'.keys
  {
    var g1 := EnsureNode(EnsureNode(g, ka), kb);
    var g2 := Link(g1, ka, Edge(kb, cb, w));
    Link(g2, kb, Edge(ka, ca, w))
  }

  /** The adjacency after `Connect` is the old one plus the pair. */
  lemma ConnectAdjacency(g: Graph, ka: Key, ca: Coord, kb: Key, cb: Coord, w: real)
    ensures var g' := Connect(g, ka, ca, kb, cb, w);
      && g'.adj.Keys == g.adj.Keys + {ka, kb}
      && (forall x, y :: Adjacent(g', x, y) <==>
            Adjacent(g, x, y) || (x == ka && y == kb) || (x == kb && y == ka))
      && (forall x, y :: Adjacent(g, x, y) ==> EdgeW(g', x, y) == EdgeW(g, x, y))
  {
    var g0 := EnsureNode(g, ka);
    var g1 := EnsureNode(g0, kb);
    var g2 := Link(g1, ka, Edge(kb, cb, w));
    EnsureNodeAdjacency(g, ka);
    EnsureNodeAdjacency(g0, kb);
    LinkAdjacency(g1, ka, Edge(kb, cb, w));
    LinkAdjacency(g2, kb, Edge(ka, ca, w));
  }

  /** A new pair of entries gets the common weight `w` on both sides. */
  lemma ConnectNewWeight(g: Graph, ka: Key, ca: Coord, kb: Key, cb: Coord, w: real)
    requires ka != kb && !Adjacent(g, ka, kb) && !Adjacent(g, kb, ka)
    ensures var g' := Connect(g, ka, ca, kb, cb, w);
      Adjacent(g', ka, kb) && Adjacent(g', kb, ka) && EdgeW(g', ka, kb) == w && EdgeW(g', kb, ka) == w
  {
    var g0 := EnsureNode(g, ka);
    var g1 := EnsureNode(g0, kb);
    var g2 := Link(g1, ka, Edge(kb, cb, w));
    EnsureNodeAdjacency(g, ka);
    EnsureNodeAdjacency(g0, kb);
    LinkAdjacency(g1, ka, Edge(kb, cb, w));
    LinkAdjacency(g2, kb, Edge(ka, ca, w));
  }

  /** Every entry after `Connect` is an old entry or one of the two new ones. */
  lemma ConnectEntries(g: Graph, ka: Key, ca: Coord, kb: Key, cb: Coord, w: real)
    ensures var g' := Connect(g, ka, ca, kb, cb, w);
      forall x, i :: x in g'.adj && 0 <= i < |g'.adj[x]| ==>
        || (x in g.adj && i < |g.adj[x]| && g'.adj[x][i] == g.adj[x][i])
        || (x == ka && g'.adj[x][i] == Edge(kb, cb, w))
        || (x == kb && g'.adj[x][i] == Edge(ka, ca, w))
  {
    var g0 := EnsureNode(g, ka);
    var g1 := EnsureNode(g0, kb);
    var g2 := Link(g1, ka, Edge(kb, cb, w));
    EnsureNodeEntries(g, ka);
    EnsureNodeEntries(g0, kb);
    LinkEntries(g1, ka, Edge(kb, cb, w));
    LinkEntries(g2, kb, Edge(ka, ca, w));
  }

  /** A new node starts with no entries. */
  lemma EnsureNodeEntries(g: Graph, k: Key)
    ensures var g' := EnsureNode(g, k);
      forall x, i :: x in g'.adj && 0 <= i < |g'.adj[x]| ==>
        x in g.adj && i < |g.adj[x]| && g'.adj[x][i] == g.adj[x][i]
  {
  }

  /** Linking appends at most the one entry. */
  lemma LinkEntries(g: Graph, k: Key, e: Edge)
    requires k in g.adj
    ensures var g' := Link(g, k, e);
      forall x, i :: x in g'.adj && 0 <= i < |g'.adj[x]| ==>
        || (i < |g.adj[x]| && g'.adj[x][i] == g.adj[x][i])
        || (x == k && g'.adj[x][i] == e)
  {
  }

  /** No list gets a second entry for the same neighbour. */
  lemma ConnectNoDup(g: Graph, ka: Key, ca: Coord, kb: Key, cb: Coord, w: real)
    requires NoDupLists(g)
    ensures NoDupLists(Connect(g, ka, ca, kb, cb, w))
  {
    var g0 := EnsureNode(g, ka);
    assert NoDupLists(g0);
    var g1 := EnsureNode(g0, kb);
    assert NoDupLists(g1);
    var g2 := Link(g1, ka, Edge(kb, cb, w));
    LinkNoDup(g1, ka, Edge(kb, cb, w));
    LinkNoDup(g2, kb, Edge(ka, ca, w));
  }

  /** The guarded push keeps every list free of repeated neighbours. */
  lemma LinkNoDup(g: Graph, k: Key, e: Edge)
    requires NoDupLists(g) && k in g.adj
    ensures NoDupLists(Link(g, k, e))
  {
    var g' := Link(g, k, e);
    forall x | x in g'.adj
      ensures NoDupNodes(g'.adj[x])
    {
      if x == k {
        PushKeepsNoDup(g.adj[k], e);
      } else {
        assert g'.adj[x] == g.adj[x];
      }
    }
  }

  lemma PushKeepsNoDup(es: seq<Edge>, e: Edge)
    requires NoDupNodes(es)
    ensures NoDupNodes(if FindEdge(es, e.node).Some? then es else es + [e])
  {
  }

  /** `Connect` with the ends' own coordinates keeps every property the
      builder guarantees. */
  lemma ConnectWellFormed(g: Graph, ka: Key, ca: Coord, kb: Key, cb: Coord, w: real)
    requires WellFormed(g) && ka != kb && w >= 0.0 && ca == CoordOf(ka) && cb == CoordOf(kb)
    ensures WellFormed(Connect(g, ka, ca, kb, cb, w))
  {
    ConnectKeys(g, ka, ca, kb, cb, w);
    ConnectEntryFacts(g, ka, ca, kb, cb, w);
    ConnectNoDup(g, ka, ca, kb, cb, w);
    ConnectNonEmpty(g, ka, ca, kb, cb, w);
    ConnectSymmetric(g, ka, ca, kb, cb, w);
  }

  lemma ConnectKeys(g: Graph, ka: Key, ca: Coord, kb: Key, cb: Coord, w: real)
    requires KeysMatch(g)
    ensures KeysMatch(Connect(g, ka, ca, kb, cb, w))
  {
    EnsureNodeKeys(g, ka);
    EnsureNodeKeys(EnsureNode(g, ka), kb);
  }

  lemma ConnectEntryFacts(g: Graph, ka: Key, ca: Coord, kb: Key, cb: Coord, w: real)
    requires Closed(g) && NonNegative(g) && NoSelfLoops(g) && CoordsMatch(g)
    requires ka != kb && w >= 0.0 && ca == CoordOf(ka) && cb == CoordOf(kb)
    ensures var g' := Connect(g, ka, ca, kb, cb, w);
      Closed(g') && NonNegative(g') && NoSelfLoops(g') && CoordsMatch(g')
  {
    ConnectClosed(g, ka, ca, kb, cb, w);
    ConnectEntryValues(g, ka, ca, kb, cb, w);
  }

  lemma ConnectClosed(g: Graph, ka: Key, ca: Coord, kb: Key, cb: Coord, w: real)
    requires Closed(g) && NoSelfLoops(g) && ka != kb
    ensures var g' := Connect(g, ka, ca, kb, cb, w); Closed(g') && NoSelfLoops(g')
  {
    ConnectAdjacency(g, ka, ca, kb, cb, w);
    ConnectEntries(g, ka, ca, kb, cb, w);
  }

  lemma ConnectEntryValues(g: Graph, ka: Key, ca: Coord, kb: Key, cb: Coord, w: real)
    requires NonNegative(g) && CoordsMatch(g) && w >= 0.0 && ca == CoordOf(ka) && cb == CoordOf(kb)
    ensures var g' := Connect(g, ka, ca, kb, cb, w); NonNegative(g') && CoordsMatch(g')
  {
    ConnectEntries(g, ka, ca, kb, cb, w);
  }

  lemma ConnectNonEmpty(g: Graph, ka: Key, ca: Coord, kb: Key, cb: Coord, w: real)
    requires OnlyEdgeNodes(g)
    ensures OnlyEdgeNodes(Connect(g, ka, ca, kb, cb, w))
  {
    var g' := Connect(g, ka, ca, kb, cb, w);
    ConnectAdjacency(g, ka, ca, kb, cb, w);
    forall x | x in g'.adj
      ensures |g'.adj[x]| > 0
    {
      if x == ka {
        assert Adjacent(g', ka, kb);
      } else if x == kb {
        assert Adjacent(g', kb, ka);
      } else {
        assert g'.adj[x] == g.adj[x];
      }
    }
  }

  lemma ConnectSymmetric(g: Graph, ka: Key, ca: Coord, kb: Key, cb: Coord, w: real)
    requires Symmetric(g) && ka != kb
    ensures Symmetric(Connect(g, ka, ca, kb, cb, w))
  {
    var g' := Connect(g, ka, ca, kb, cb, w);
    ConnectAdjacency(g, ka, ca, kb, cb, w);
    var isNew := !Adjacent(g, ka, kb);
    if isNew {
      assert !Adjacent(g, kb, ka);
      ConnectNewWeight(g, ka, ca, kb, cb, w);
    }
    forall a, b | Adjacent(g', a, b)
      ensures Adjacent(g', b, a) && EdgeW(g', b, a) == EdgeW(g', a, b)
    {
      if Adjacent(g, a, b) {
        assert Adjacent(g, b, a) && EdgeW(g, b, a) == EdgeW(g, a, b);
      } else {
        assert (a == ka && b == kb) || (a == kb && b == ka);
        assert isNew;
      }
    }
  }

  lemma ConnectWeights(g: Graph, ka: Key, ca: Coord, kb: Key, cb: Coord, w: real, dist: Metric)
    requires Symmetric(g) && WeightsFrom(g, dist) && ka != kb
    requires w == dist(CoordOf(ka), CoordOf(kb))
    ensures WeightsFrom(Connect(g, ka, ca, kb, cb, w), dist)
  {
    ConnectAdjacency(g, ka, ca, kb, cb, w);
    if !Adjacent(g, ka, kb) {
      assert !Adjacent(g, kb, ka);
      ConnectNewWeight(g, ka, ca, kb, cb, w);
    }
  }

  // ---------------------------------------------------------------------------
  // Segments

  /** The graph part of one iteration of the inner loop, once both ends are
      resolved: `if (keyA === keyB) continue;`, otherwise connect them with
      the distance between their representatives `ca` and `cb`. */
  function Place(g: Graph, ka: Key, ca: Coord, kb: Key, cb: Coord, dist: Metric): Graph
  {
    if ka == kb then g else Connect(g, ka, ca, kb, cb, dist(ca, cb))
  }

  /** Placing a segment adds the adjacency between its ends, if they differ,
      and no other; existing weights stay. */
  lemma PlaceAdjacency(g: Graph, ka: Key, ca: Coord, kb: Key, cb: Coord, dist: Metric)
    ensures var g' := Place(g, ka, ca, kb, cb, dist);
      && (forall x, y :: Adjacent(g', x, y) <==> Adjacent(g, x, y) || SegmentJoins((ka, kb), x, y))
      && (forall x, y :: Adjacent(g, x, y) ==> EdgeW(g', x, y) == EdgeW(g, x, y))
  {
    if ka != kb {
      ConnectAdjacency(g, ka, ca, kb, cb, dist(ca, cb));
    }
  }

  /** One iteration of the inner loop: the segment from `a` to `b`. */
  function AddSegment(s: BuildState, a: Coord, b: Coord, tol: real, dist: Metric): (s': BuildState)
    requires Valid(s.merge, tol, dist)
    ensures Valid(s'.merge, tol, dist)
  {
    var (ka, m1) := Resolve(s.merge, a, tol, dist);
    var (kb, m2) := Resolve(m1, b, tol, dist);
    BuildState(Place(s.graph, ka, m2.reps[ka], kb, m2.reps[kb], dist), m2)
  }

  /** Each segment keeps the builder's invariant. */
  lemma AddSegmentInv(s: BuildState, a: Coord, b: Coord, tol: real, dist: Metric)
    requires Inv(s, tol, dist)
    ensures Inv(AddSegment(s, a, b, tol, dist), tol, dist)
  {
    var (ka, m1) := Resolve(s.merge, a, tol, dist);
    var (kb, m2) := Resolve(m1, b, tol, dist);
    PlaceStep(s, m1, m2, ka, kb, tol, dist);
  }

  /** The segment adds the adjacency between its resolved ends, if they
      differ, and no other; existing weights stay. */
  lemma AddSegmentAdjacency(s: BuildState, a: Coord, b: Coord, tol: real, dist: Metric)
    requires Valid(s.merge, tol, dist)
    ensures
      var s' := AddSegment(s, a, b, tol, dist);
      var (ka, m1) := Resolve(s.merge, a, tol, dist);
      var (kb, m2) := Resolve(m1, b, tol, dist);
      && s'.merge == m2
      && (forall x, y :: Adjacent(s'.graph, x, y) <==> Adjacent(s.graph, x, y) || SegmentJoins((ka, kb), x, y))
      && (forall x, y :: Adjacent(s.graph, x, y) ==> EdgeW(s'.graph, x, y) == EdgeW(s.graph, x, y))
  {
    var (ka, m1) := Resolve(s.merge, a, tol, dist);
    var (kb, m2) := Resolve(m1, b, tol, dist);
    PlaceAdjacency(s.graph, ka, m2.reps[ka], kb, m2.reps[kb], dist);
  }

  /** Placing a segment between two nodes of the new tables keeps the
      builder's invariant. */
  lemma PlaceStep(s: BuildState, m1: MergeState, m: MergeState, ka: Key, kb: Key, tol: real, dist: Metric)
    requires Inv(s, tol, dist) && Valid(m, tol, dist) && Extends(s.merge, m1) && Extends(m1, m)
    requires ka in m.reps && kb in m.reps
    ensures Inv(BuildState(Place(s.graph, ka, m.reps[ka], kb, m.reps[kb], dist), m), tol, dist)
  {
    if ka != kb {
      ConnectStep(s, m1, m, ka, kb, tol, dist);
    }
  }

  /** Inserting the pair of entries for two distinct merged nodes keeps the
      builder's invariant. */
  lemma ConnectStep(s: BuildState, m1: MergeState, m: MergeState, ka: Key, kb: Key, tol: real, dist: Metric)
    requires Inv(s, tol, dist) && Valid(m, tol, dist) && Extends(s.merge, m1) && Extends(m1, m)
    requires ka in m.reps && kb in m.reps && ka != kb
    ensures var ca, cb := m.reps[ka], m.reps[kb];
      Inv(BuildState(Connect(s.graph, ka, ca, kb, cb, dist(ca, cb)), m), tol, dist)
  {
    var g := s.graph;
    var ca, cb := m.reps[ka], m.reps[kb];
    assert ca == CoordOf(ka) && cb == CoordOf(kb);
    ConnectWellFormed(g, ka, ca, kb, cb, dist(ca, cb));
    ConnectAdjacency(g, ka, ca, kb, cb, dist(ca, cb));
    ConnectWeights(g, ka, ca, kb, cb, dist(ca, cb), dist);
  }

  /** The consecutive coordinate pairs of one line:
      `for (i = 0; i < coords.length - 1; i++)`. */
  function LinePairs(coords: seq<Coord>): (ps: seq<(Coord, Coord)>)
    ensures |ps| == if |coords| < 2 then 0 else |coords| - 1
    ensures forall i :: 0 <= i < |ps| ==> ps[i] == (coords[i], coords[i + 1])
  {
    if |coords| < 2 then []
    else [(coords[0], coords[1])] + LinePairs(coords[1..])
  }

  /** All segments, line by line, in the order the builder visits them. */
  function Segments(lines: seq<seq<Coord>>): seq<(Coord, Coord)>
  {
    if |lines| == 0 then [] else LinePairs(lines[0]) + Segments(lines[1..])
  }

  /** The keys both ends of each segment resolve to, with the merge tables
      threaded through in visiting order. */
  function ResolvedSegments(m: MergeState, ps: seq<(Coord, Coord)>, tol: real, dist: Metric): (rs: seq<(Key, Key)>)
    requires Valid(m, tol, dist)
    ensures |rs| == |ps|
    decreases |ps|
  {
    if |ps| == 0 then []
    else
      var (ka, m1) := Resolve(m, ps[0].0, tol, dist);
      var (kb, m2) := Resolve(m1, ps[0].1, tol, dist);
      [(ka, kb)] + ResolvedSegments(m2, ps[1..], tol, dist)
  }

  /** A resolved segment with distinct ends joins `x` and `y`, in either
      direction. */
  ghost predicate SegmentJoins(r: (Key, Key), x: Key, y: Key)
  {
    r.0 != r.1 && (r == (x, y) || r == (y, x))
  }

  /** Some resolved segment joins `x` and `y`. */
  ghost predicate Joins(rs: seq<(Key, Key)>, x: Key, y: Key)
  {
    exists i :: 0 <= i < |rs| && SegmentJoins(rs[i], x, y)
  }

  lemma JoinsCons(r: (Key, Key), rs: seq<(Key, Key)>, x: Key, y: Key)
    ensures Joins([r] + rs, x, y) <==> SegmentJoins(r, x, y) || Joins(rs, x, y)
  {
    var rs' := [r] + rs;
    if SegmentJoins(r, x, y) {
      assert rs'[0] == r;
    }
    if Joins(rs, x, y) {
      var i :| 0 <= i < |rs| && SegmentJoins(rs[i], x, y);
      assert rs'[i + 1] == rs[i];
    }
    if Joins(rs', x, y) {
      var i :| 0 <= i < |rs'| && SegmentJoins(rs'[i], x, y);
      if i > 0 {
        assert rs[i - 1] == rs'[i];
      }
    }
  }

  function AddSegments(s: BuildState, ps: seq<(Coord, Coord)>, tol: real, dist: Metric): (s': BuildState)
    requires Valid(s.merge, tol, dist)
    ensures Valid(s'.merge, tol, dist)
    decreases |ps|
  {
    if |ps| == 0 then s
    else AddSegments(AddSegment(s, ps[0].0, ps[0].1, tol, dist), ps[1..], tol, dist)
  }

  lemma {:induction false} AddSegmentsInv(s: BuildState, ps: seq<(Coord, Coord)>, tol: real, dist: Metric)
    requires Inv(s, tol, dist)
    ensures Inv(AddSegments(s, ps, tol, dist), tol, dist)
    decreases |ps|
  {
    if |ps| > 0 {
      AddSegmentInv(s, ps[0].0, ps[0].1, tol, dist);
      AddSegmentsInv(AddSegment(s, ps[0].0, ps[0].1, tol, dist), ps[1..], tol, dist);
    }
  }

  /** The adjacency after a run of segments is the adjacency before plus one
      pair per non-degenerate resolved segment. */
  lemma {:induction false} AddSegmentsAdjacency(s: BuildState, ps: seq<(Coord, Coord)>, tol: real, dist: Metric)
    requires Valid(s.merge, tol, dist)
    ensures var rs := ResolvedSegments(s.merge, ps, tol, dist);
      forall x, y :: Adjacent(AddSegments(s, ps, tol, dist).graph, x, y) <==>
        Adjacent(s.graph, x, y) || Joins(rs, x, y)
    decreases |ps|
  {
    if |ps| > 0 {
      var (ka, m1) := Resolve(s.merge, ps[0].0, tol, dist);
      var (kb, m2) := Resolve(m1, ps[0].1, tol, dist);
      var s1 := AddSegment(s, ps[0].0, ps[0].1, tol, dist);
      AddSegmentAdjacency(s, ps[0].0, ps[0].1, tol, dist);
      AddSegmentsAdjacency(s1, ps[1..], tol, dist);
      var rs1 := ResolvedSegments(m2, ps[1..], tol, dist);
      assert ResolvedSegments(s.merge, ps, tol, dist) == [(ka, kb)] + rs1;
      forall x, y {
        JoinsCons((ka, kb), rs1, x, y);
      }
    }
  }

  const EmptyBuild := BuildState(EmptyGraph, EmptyMerge)

  lemma EmptyBuildInv(tol: real, dist: Metric)
    ensures Inv(EmptyBuild, tol, dist)
  {
  }

  /** `buildGraphFromLines(lineFeatures, toleranceMeters)`. The graph it
      returns is one `dijkstra` can search: its key list names its nodes
      once each, neighbours are nodes, weights are nonnegative and no list
      names a neighbour twice. */
  function BuildGraph(lines: seq<seq<Coord>>, tol: real, dist: Metric): (g: Graph)
    ensures SearchReady(g)
  {
    EmptyBuildInv(tol, dist);
    AddSegmentsInv(EmptyBuild, Segments(lines), tol, dist);
    AddSegments(EmptyBuild, Segments(lines), tol, dist).graph
  }

  /** The built graph has no self-loops, no duplicate neighbours, symmetric
      equal-weight entries, neighbours that are nodes, no isolated nodes,
      nonnegative weights measured between representatives, and its key list
      enumerates its nodes once each. */
  lemma BuildGraphWellFormed(lines: seq<seq<Coord>>, tol: real, dist: Metric)
    ensures var g := BuildGraph(lines, tol, dist); WellFormed(g) && WeightsFrom(g, dist)
  {
    EmptyBuildInv(tol, dist);
    AddSegmentsInv(EmptyBuild, Segments(lines), tol, dist);
  }

  /** The edges of the built graph are exactly the non-degenerate segments
      after merging, and its nodes exactly the nodes such a segment touches. */
  lemma BuildGraphEdges(lines: seq<seq<Coord>>, tol: real, dist: Metric)
    ensures
      var g := BuildGraph(lines, tol, dist);
      var rs := ResolvedSegments(EmptyMerge, Segments(lines), tol, dist);
      && (forall x, y :: Adjacent(g, x, y) <==> Joins(rs, x, y))
      && (forall x :: x in g.adj <==> exists y :: Joins(rs, x, y))
  {
    var g := BuildGraph(lines, tol, dist);
    var rs := ResolvedSegments(EmptyMerge, Segments(lines), tol, dist);
    AddSegmentsAdjacency(EmptyBuild, Segments(lines), tol, dist);
    assert forall x, y :: Adjacent(g, x, y) <==> Joins(rs, x, y);
    forall x
      ensures x in g.adj <==> exists y :: Joins(rs, x, y)
    {
      if x in g.adj {
        assert |g.adj[x]| > 0 by {
          BuildGraphWellFormed(lines, tol, dist);
        }
        var y := g.adj[x][0].node;
        assert Adjacent(g, x, y);
      }
      if exists y :: Joins(rs, x, y) {
        var y :| Joins(rs, x, y);
        assert Adjacent(g, x, y);
      }
    }
  }
}
