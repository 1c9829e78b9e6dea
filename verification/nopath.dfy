/** A query between two lines that share no node, on which
    `findShortestPath` returns a one-node route although no path exists.

    The distance is the longitude difference and the tolerance zero, so
    every coordinate is its own node and the graph is computed exactly. */
module NoPath {
  import opened Options
  import opened Geometry
  import opened Graphs
  import opened Merger
  import opened Samples
  import opened Builder
  import opened Routes

  const PointA := Coord(0.0, 0.0)
  const PointB := Coord(1.0, 0.0)
  const PointC := Coord(10.0, 0.0)
  const PointD := Coord(11.0, 0.0)
  const Disconnected := [[PointA, PointB], [PointC, PointD]]

  /** A query from `PointA` to `PointD`, which lie on two lines that share no
      node: `findShortestPath` as written returns the one-node route
      `[endKey]`, which does not start at `startKey`; with the intended check
      there is no route. */
  method DisconnectedQuery() returns (asWritten: Option<Route>, corrected: Option<Route>)
    ensures asWritten.Some?
    ensures asWritten.value.pathKeys == [KeyOf(PointD)] && asWritten.value.startKey == KeyOf(PointA)
    ensures corrected.None?
  {
    DisconnectedSegments();
    TwoComponents(Disconnected, PointA, PointB, PointC, PointD, 0.0, LonDist);
    asWritten, corrected := QueryAcross(Disconnected);
  }

  /** The same query on any lines whose graph at tolerance zero has the four
      points as nodes and no walk from `PointA` to `PointD`. */
  method QueryAcross(lines: seq<seq<Coord>>) returns (asWritten: Option<Route>, corrected: Option<Route>)
    requires var g := BuildGraph(lines, 0.0, LonDist);
      && g.adj.Keys == {KeyOf(PointA), KeyOf(PointB), KeyOf(PointC), KeyOf(PointD)}
      && !Reachable(g, KeyOf(PointA), KeyOf(PointD))
    ensures asWritten.Some?
    ensures asWritten.value.pathKeys == [KeyOf(PointD)] && asWritten.value.startKey == KeyOf(PointA)
    ensures corrected.None?
  {
    var g := BuildGraph(lines, 0.0, LonDist);
    BuildGraphWellFormed(lines, 0.0, LonDist);
    assert KeyOf(PointA) in g.keys;
    asWritten := FindShortestPath(lines, PointA, PointD, 0.0, LonDist);
    NearestIn(g, PointA, KeyOf(PointA), asWritten.value.startKey);
    NearestIn(g, PointD, KeyOf(PointD), asWritten.value.endKey);
    corrected := FindRoute(lines, PointA, PointD, 0.0, LonDist);
    if corrected.Some? {
      NearestIn(g, PointA, KeyOf(PointA), corrected.value.startKey);
      NearestIn(g, PointD, KeyOf(PointD), corrected.value.endKey);
      assert false;
    }
  }

  /** At tolerance zero, lines making up two segments between four distinct
      coordinates give a graph with those four nodes in which no walk leads
      from the first segment to the second. */
  lemma TwoComponents(lines: seq<seq<Coord>>, a: Coord, b: Coord, c: Coord, d: Coord, tol: real, dist: Metric)
    requires tol <= 0.0 && a != b && a != c && a != d && b != c && b != d && c != d
    requires var ps := Segments(lines); |ps| == 2 && ps[0] == (a, b) && ps[1] == (c, d)
    ensures var g := BuildGraph(lines, tol, dist);
      && g.adj.Keys == {KeyOf(a), KeyOf(b), KeyOf(c), KeyOf(d)}
      && !Reachable(g, KeyOf(a), KeyOf(d))
  {
    EmptyMergeValid(tol, dist);
    TwoFreshSegments(EmptyMerge, a, b, c, d, tol, dist, Segments(lines));
    BuildGraphEdges(lines, tol, dist);
    SegmentComponents(BuildGraph(lines, tol, dist), ResolvedSegments(EmptyMerge, Segments(lines), tol, dist),
                      KeyOf(a), KeyOf(b), KeyOf(c), KeyOf(d));
  }

  /** A graph whose edges are those of two segments with four distinct ends
      has those ends as nodes, and the second segment cannot be reached from
      the first. */
  lemma SegmentComponents(g: Graph, rs: seq<(Key, Key)>, ka: Key, kb: Key, kc: Key, kd: Key)
    requires |rs| == 2 && rs[0] == (ka, kb) && rs[1] == (kc, kd)
    requires ka != kb && ka != kc && ka != kd && kb != kc && kb != kd && kc != kd
    requires forall x, y :: Adjacent(g, x, y) <==> Joins(rs, x, y)
    requires forall x :: x in g.adj <==> exists y :: Joins(rs, x, y)
    ensures g.adj.Keys == {ka, kb, kc, kd}
    ensures !Reachable(g, ka, kd)
  {
    SegmentNodes(g, rs, ka, kb, kc, kd);
    SegmentApart(g, rs, ka, kb, kc, kd);
  }

  /** The nodes are the ends of the two segments. */
  lemma SegmentNodes(g: Graph, rs: seq<(Key, Key)>, ka: Key, kb: Key, kc: Key, kd: Key)
    requires |rs| == 2 && rs[0] == (ka, kb) && rs[1] == (kc, kd) && ka != kb && kc != kd
    requires forall x :: x in g.adj <==> exists y :: Joins(rs, x, y)
    ensures g.adj.Keys == {ka, kb, kc, kd}
  {
    assert SegmentJoins(rs[0], ka, kb) && SegmentJoins(rs[0], kb, ka);
    assert SegmentJoins(rs[1], kc, kd) && SegmentJoins(rs[1], kd, kc);
    assert Joins(rs, ka, kb) && Joins(rs, kb, ka) && Joins(rs, kc, kd) && Joins(rs, kd, kc);
    forall x | x in g.adj
      ensures x in {ka, kb, kc, kd}
    {
      var y :| Joins(rs, x, y);
      var i :| 0 <= i < |rs| && SegmentJoins(rs[i], x, y);
    }
  }

  /** No edge leaves the first segment's ends. */
  lemma SegmentApart(g: Graph, rs: seq<(Key, Key)>, ka: Key, kb: Key, kc: Key, kd: Key)
    requires |rs| == 2 && rs[0] == (ka, kb) && rs[1] == (kc, kd)
    requires ka != kc && ka != kd && kb != kc && kb != kd
    requires forall x, y :: Adjacent(g, x, y) <==> Joins(rs, x, y)
    ensures !Reachable(g, ka, kd)
  {
    forall x, y | x in {ka, kb} && Adjacent(g, x, y)
      ensures y in {ka, kb}
    {
      var i :| 0 <= i < |rs| && SegmentJoins(rs[i], x, y);
    }
    if Reachable(g, ka, kd) {
      var p :| IsPath(g, p, ka, kd);
      WalkStaysIn(g, p, {ka, kb});
    }
  }

  /** The segments of the two lines, in order. */
  lemma DisconnectedSegments()
    ensures var ps := Segments(Disconnected);
      |ps| == 2 && ps[0] == (PointA, PointB) && ps[1] == (PointC, PointD)
  {
    LinePairsOfTwo(PointA, PointB);
    LinePairsOfTwo(PointC, PointD);
    assert Disconnected[1..][1..] == [];
    assert Segments(Disconnected[1..]) == [(PointC, PointD)] + Segments([]);
  }

  lemma LinePairsOfTwo(a: Coord, b: Coord)
    ensures LinePairs([a, b]) == [(a, b)]
  {
    assert [a, b][1..] == [b];
  }

  /** At tolerance zero two segments between four distinct coordinates not
      seen before resolve to the coordinates' own keys. */
  lemma TwoFreshSegments(m: MergeState, a: Coord, b: Coord, c: Coord, d: Coord, tol: real, dist: Metric,
                         ps: seq<(Coord, Coord)>)
    requires Valid(m, tol, dist) && tol <= 0.0
    requires a !in m.nodeMap && b !in m.nodeMap && c !in m.nodeMap && d !in m.nodeMap
    requires a != b && a != c && a != d && b != c && b != d && c != d
    requires |ps| == 2 && ps[0] == (a, b) && ps[1] == (c, d)
    ensures var rs := ResolvedSegments(m, ps, tol, dist);
      |rs| == 2 && rs[0] == (KeyOf(a), KeyOf(b)) && rs[1] == (KeyOf(c), KeyOf(d))
  {
    var m2 := FreshSegment(m, a, b, ps, tol, dist);
    var m4 := FreshSegment(m2, c, d, ps[1..], tol, dist);
  }

  /** At tolerance zero a segment between two coordinates not seen before
      resolves to their own keys. */
  lemma FreshSegment(m: MergeState, a: Coord, b: Coord, ps: seq<(Coord, Coord)>, tol: real, dist: Metric)
    returns (m': MergeState)
    requires Valid(m, tol, dist) && tol <= 0.0 && a != b && a !in m.nodeMap && b !in m.nodeMap
    requires |ps| > 0 && ps[0] == (a, b)
    ensures Valid(m', tol, dist) && forall c :: c in m'.nodeMap <==> c in m.nodeMap || c == a || c == b
    ensures var rs := ResolvedSegments(m, ps, tol, dist);
      rs[0] == (KeyOf(a), KeyOf(b)) && rs[1..] == ResolvedSegments(m', ps[1..], tol, dist)
  {
    var m1 := FreshNode(m, a, tol, dist);
    m' := FreshNode(m1, b, tol, dist);
  }

  /** At tolerance zero a coordinate not seen before becomes its own node. */
  lemma FreshNode(m: MergeState, c: Coord, tol: real, dist: Metric) returns (m': MergeState)
    requires Valid(m, tol, dist) && tol <= 0.0 && c !in m.nodeMap
    ensures Valid(m', tol, dist) && forall c' :: c' in m'.nodeMap <==> c' in m.nodeMap || c' == c
    ensures Resolve(m, c, tol, dist) == (KeyOf(c), m')
  {
    ResolveZeroTolerance(m, c, tol, dist);
    m' := Resolve(m, c, tol, dist).1;
  }

  /** With the longitude gap as distance, a node nearest to a point that is
      itself a node's coordinate, among nodes of pairwise distinct
      longitudes, is that node. */
  lemma NearestIn(g: Graph, pt: Coord, k: Key, n: Key)
    requires g.adj.Keys == {KeyOf(PointA), KeyOf(PointB), KeyOf(PointC), KeyOf(PointD)}
    requires k in g.adj && CoordOf(k) == pt && Nearest(g, pt, LonDist, n)
    ensures n == k
  {
    assert LonDist(pt, CoordOf(n)) <= LonDist(pt, CoordOf(k));
  }
}
