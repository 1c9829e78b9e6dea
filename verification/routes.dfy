/** The entry point (`findShortestPath`) and its two helpers: snapping a
    query coordinate to the nearest graph node (`findClosestNode`), and
    turning a path of keys back into coordinates (`getCoordsFromPath`). */
module Routes {
  import opened Options
  import opened Geometry
  import opened Graphs
  import opened Builder
  import opened Search

  /** `k` is the key `findClosestNode` picks for `pt`: it sits at some index
      of the key order, no key is nearer, and every earlier key is strictly
      farther. */
  ghost predicate FirstNearest(g: Graph, pt: Coord, dist: Metric, k: Key)
  {
    exists i :: 0 <= i < |g.keys| && g.keys[i] == k &&
      (forall k' :: k' in g.keys ==> dist(pt, CoordOf(k)) <= dist(pt, CoordOf(k'))) &&
      (forall j :: 0 <= j < i ==> dist(pt, CoordOf(g.keys[j])) > dist(pt, CoordOf(k)))
  }

  /** `findClosestNode(graph, point)`: the first key, in the graph's key
      order, whose parsed coordinate is nearest to `pt` (strictly nearer keys
      replace the current one, so ties keep the earlier key); none for an
      empty graph. */
  method FindClosestNode(g: Graph, pt: Coord, dist: Metric) returns (r: Option<Key>)
    ensures r.None? <==> |g.keys| == 0
    ensures r.Some? ==> FirstNearest(g, pt, dist, r.value)
  {
    r := None;
    var minDist := 0.0;
    ghost var best := 0;
    var i := 0;
    while i < |g.keys|
      invariant 0 <= i <= |g.keys|
      invariant r.None? <==> i == 0
      invariant r.Some? ==> 0 <= best < i && g.keys[best] == r.value && minDist == dist(pt, CoordOf(r.value))
      invariant r.Some? ==> forall j :: 0 <= j < i ==> minDist <= dist(pt, CoordOf(g.keys[j]))
      invariant r.Some? ==> forall j :: 0 <= j < best ==> dist(pt, CoordOf(g.keys[j])) > minDist
    {
      var key := g.keys[i];
      var d := dist(pt, CoordOf(key));
      if r.None? || d < minDist {
        minDist := d;
        r := Some(key);
        best := i;
      }
      i := i + 1;
    }
    if r.Some? {
      assert g.keys[best] == r.value;
    }
  }

  /** `getCoordsFromPath(path)`: each key parsed back into its coordinate;
      serialising them again gives the keys. */
  function CoordsFromPath(path: seq<Key>): (cs: seq<Coord>)
    ensures |cs| == |path|
    ensures forall i :: 0 <= i < |path| ==> KeyOf(cs[i]) == path[i]
  {
    if |path| == 0 then []
    else
      KeyRoundTrip(path[0]);
      [CoordOf(path[0])] + CoordsFromPath(path[1..])
  }

  /** `k` is a node of `g` nearest to `pt`. */
  ghost predicate Nearest(g: Graph, pt: Coord, dist: Metric, k: Key)
  {
    k in g.adj && forall k' :: k' in g.adj ==> dist(pt, CoordOf(k)) <= dist(pt, CoordOf(k'))
  }

  /** The tie-break leaves one choice: at most one key is first nearest. */
  lemma FirstNearestUnique(g: Graph, pt: Coord, dist: Metric, k1: Key, k2: Key)
    requires FirstNearest(g, pt, dist, k1) && FirstNearest(g, pt, dist, k2)
    ensures k1 == k2
  {
    var i1 :| 0 <= i1 < |g.keys| && g.keys[i1] == k1 &&
      (forall k' :: k' in g.keys ==> dist(pt, CoordOf(k1)) <= dist(pt, CoordOf(k'))) &&
      (forall j :: 0 <= j < i1 ==> dist(pt, CoordOf(g.keys[j])) > dist(pt, CoordOf(k1)));
    var i2 :| 0 <= i2 < |g.keys| && g.keys[i2] == k2 &&
      (forall k' :: k' in g.keys ==> dist(pt, CoordOf(k2)) <= dist(pt, CoordOf(k'))) &&
      (forall j :: 0 <= j < i2 ==> dist(pt, CoordOf(g.keys[j])) > dist(pt, CoordOf(k2)));
    assert dist(pt, CoordOf(k1)) == dist(pt, CoordOf(k2));
  }

  /** On a graph whose key list names exactly its nodes, the first nearest
      key is a nearest node. */
  lemma FirstNearestIsNearest(g: Graph, pt: Coord, dist: Metric, k: Key)
    requires KeysMatch(g) && FirstNearest(g, pt, dist, k)
    ensures Nearest(g, pt, dist, k)
  {
  }

  /** The object `findShortestPath` returns. */
  datatype Route = Route(path: seq<Coord>, pathKeys: seq<Key>, startKey: Key, endKey: Key, graph: Graph)

  /** `findShortestPath(lineFeatures, startCoord, endCoord, toleranceMeters)`:
      build the graph, snap both coordinates to their nearest nodes, search,
      and return the route; none when the graph has no nodes.

      The guard `path.length === 0 || !path[0]` that is meant to catch the
      no-path case never fires: the reconstructed path always holds at least
      `endKey`, so a query between two disconnected nodes returns the
      one-node route `[endKey]`. The guard is left out, being dead. */
  method FindShortestPath(lines: seq<seq<Coord>>, startCoord: Coord, endCoord: Coord, tol: real, dist: Metric)
    returns (r: Option<Route>)
    ensures r.None? <==> |BuildGraph(lines, tol, dist).keys| == 0
    ensures r.Some? ==>
      var Route(coords, keys, startKey, endKey, g) := r.value;
      && g == BuildGraph(lines, tol, dist)
      && Nearest(g, startCoord, dist, startKey) && Nearest(g, endCoord, dist, endKey)
      && FirstNearest(g, startCoord, dist, startKey) && FirstNearest(g, endCoord, dist, endKey)
      && |keys| > 0 && keys[|keys| - 1] == endKey && IsWalk(g, keys)
      && (keys[0] == startKey <==> Reachable(g, startKey, endKey))
      && (Reachable(g, startKey, endKey) ==>
            forall p :: IsPath(g, p, startKey, endKey) ==> Weight(g, keys) <= Weight(g, p))
      && (!Reachable(g, startKey, endKey) ==> keys == [endKey])
      && (forall i, j :: 0 <= i < j < |keys| ==> keys[i] != keys[j])
      && |coords| == |keys| && (forall i :: 0 <= i < |keys| ==> KeyOf(coords[i]) == keys[i])
  {
    var g := BuildGraph(lines, tol, dist);
    BuildGraphWellFormed(lines, tol, dist);
    var startKey := FindClosestNode(g, startCoord, dist);
    var endKey := FindClosestNode(g, endCoord, dist);
    if startKey.None? || endKey.None? {
      return None;
    }
    FirstNearestIsNearest(g, startCoord, dist, startKey.value);
    FirstNearestIsNearest(g, endCoord, dist, endKey.value);
    var path := Dijkstra(g, startKey.value, endKey.value);
    var coords := CoordsFromPath(path);
    r := Some(Route(coords, path, startKey.value, endKey.value, g));
  }

  /** `findShortestPath` with the no-path check its warning message
      describes: no route when the path found does not start at the start
      node. The route returned is then a shortest path between the two
      nodes `findClosestNode` picks, and there is no route exactly when the
      graph is empty or those two nodes are disconnected. */
  method FindRoute(lines: seq<seq<Coord>>, startCoord: Coord, endCoord: Coord, tol: real, dist: Metric)
    returns (r: Option<Route>)
    ensures r.Some? ==>
      var Route(coords, keys, startKey, endKey, g) := r.value;
      && g == BuildGraph(lines, tol, dist)
      && Nearest(g, startCoord, dist, startKey) && Nearest(g, endCoord, dist, endKey)
      && FirstNearest(g, startCoord, dist, startKey) && FirstNearest(g, endCoord, dist, endKey)
      && IsPath(g, keys, startKey, endKey)
      && (forall p :: IsPath(g, p, startKey, endKey) ==> Weight(g, keys) <= Weight(g, p))
      && (forall i, j :: 0 <= i < j < |keys| ==> keys[i] != keys[j])
      && |coords| == |keys| && (forall i :: 0 <= i < |keys| ==> KeyOf(coords[i]) == keys[i])
    ensures r.None? <==>
      var g := BuildGraph(lines, tol, dist);
      || |g.keys| == 0
      || forall s, e :: FirstNearest(g, startCoord, dist, s) && FirstNearest(g, endCoord, dist, e) ==> !Reachable(g, s, e)
  {
    ghost var g := BuildGraph(lines, tol, dist);
    r := FindShortestPath(lines, startCoord, endCoord, tol, dist);
    if r.Some? {
      ghost var Route(_, _, s0, e0, _) := r.value;
      forall s, e | FirstNearest(g, startCoord, dist, s) && FirstNearest(g, endCoord, dist, e)
        ensures s == s0 && e == e0
      {
        FirstNearestUnique(g, startCoord, dist, s, s0);
        FirstNearestUnique(g, endCoord, dist, e, e0);
      }
      if r.value.pathKeys[0] != r.value.startKey {
        r := None;
      }
    }
  }
}
