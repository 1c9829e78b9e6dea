# geo-tools: shortest paths over merged line networks

This project models the routing core of `geo-tools.js`, and proves properties of that model:

- **`buildGraphFromLines`** turns GeoJSON line strings into an undirected weighted graph.
  - Each pair of consecutive coordinates is a segment.
  - Both ends of a segment are resolved to nodes by `findOrCreateMergedNode`. A coordinate seen before keeps its node. With a positive tolerance, a new coordinate joins the first node, in insertion order, whose representative coordinate is within `toleranceMeters / 1000` kilometres. Otherwise it becomes a node of its own, keyed by `coord.join(",")`.
  - A segment whose ends resolve to one node is skipped. Otherwise each end gets an entry for the other, unless it already has one. Both entries are weighted by the distance between the two representatives.
- **`findClosestNode`** snaps a point to the first nearest node key.
- **`dijkstra`** searches from the start key until the end key is the closest queued node, or until no queued node has a finite distance. It then reads the path backwards along `prev`.
- **`getCoordsFromPath`** parses the keys back into coordinates.
- **`findShortestPath`** chains these four steps.

How the JavaScript maps onto the model:

- **Iteration order.** JavaScript `Map`s, `Set`s and objects with non-integer keys enumerate in insertion order. So the model keeps the merged-node keys (`MergeState.order`), the graph's keys (`Graph.keys`) and the search queue as sequences beside their maps. Every node key contains a comma, so none is an integer-like property name that an object would enumerate first.
- **Keys and coordinates.** A key and the coordinate it was made from are interconvertible (`Geometry.KeyOf`, `Geometry.CoordOf`).
- **Distance.** `turf.distance` is a parameter (`Geometry.Metric`). Only its nonnegativity is assumed.
- **Infinity.** A distance of `Infinity` is a missing entry in the distance map.

Modules, one per file:

| module | file | contents |
|---|---|---|
| `Options` | options.dfy | the option type |
| `Geometry` | geometry.dfy | coordinates, keys, the metric |
| `Graphs` | graphs.dfy | the graph, `find` on entry lists, walks and their weights |
| `Merger` | merger.dfy | `findOrCreateMergedNode` |
| `Builder` | builder.dfy | `buildGraphFromLines` |
| `Search` | search.dfy | `dijkstra` |
| `Routes` | routes.dfy | `findClosestNode`, `getCoordsFromPath`, `findShortestPath` |
| `Samples` | samples.dfy | a distance for small examples, and a chain of points that does not merge |
| `NoPath` | nopath.dfy | a query between disconnected lines, for the finding below |

Two behaviours of the code are worth knowing:

- **Tolerance chaining.** Merging compares a new coordinate only with node representatives, never with the coordinates already merged into a node. So a chain of points, each within tolerance of the previous one, does not collapse into one node (`Samples.ChainDoesNotMerge`).
- **No path.** A query with no path returns the one-node route `[endKey]` (see Findings).

## Model

| member | source | states |
|---|---|---|
| Geometry.KeyOf | geo-tools.js:12 | Parsing a serialised coordinate back, as on line 87, gives the coordinate. |
| Geometry.KeyRoundTrip | geo-tools.js:136 | Serialising a parsed key again gives the key. |
| Merger.FirstWithin | geo-tools.js:27-34 | The scan over the merged nodes returns nothing only when no representative is within tolerance. Otherwise it returns a key whose representative is within tolerance, with no earlier key within tolerance. |
| Merger.Resolve | geo-tools.js:11-40 | The returned key is the node the coordinate is now mapped to, and it has a representative. The tables stay valid and only grow. Valid means: every coordinate maps to a node whose representative is that coordinate, or lies within a positive tolerance of it; every key is its representative serialised; the order lists every node once. Growing means: no coordinate is remapped, no representative changes, and the order only grows at its end. |
| Merger.JoinNode | geo-tools.js:29-32 | Joining an existing node returns that node's key and only adds the coordinate to `nodeMap`. |
| Merger.NewNode | geo-tools.js:36-39 | A new node's key is the coordinate serialised and names no existing node. The coordinate is mapped to it, becomes its representative, and the key is appended to the node order. |
| Merger.ResolveSeen | geo-tools.js:15-17 | A coordinate seen before returns its recorded key, and both tables are unchanged. |
| Merger.ResolveZeroTolerance | geo-tools.js:20-24 | A new coordinate with tolerance at most zero becomes its own node, with no search of the existing nodes. |
| Merger.ResolveFirstFit | geo-tools.js:26-34 | A new coordinate that is within tolerance of some representative joins the first such node in insertion order. That node comes no later than any node within tolerance, and only `nodeMap` changes. |
| Merger.ResolveNoneWithin | geo-tools.js:36-39 | A new coordinate out of tolerance of every representative becomes its own node, appended to the order. |
| Merger.ResolveIdempotent | geo-tools.js:14-17 | Resolving the same coordinate twice returns the same key, and the second call changes nothing. |
| Merger.ZeroToleranceIdentity | geo-tools.js:19-24 | At tolerance zero every coordinate resolves to its own serialisation, and is that node's representative. |
| Merger.ZeroToleranceDistinct | geo-tools.js:19-24 | At tolerance zero two different coordinates never share a node. |
| Samples.ChainDoesNotMerge | geo-tools.js:26-34 | A chain of points 1 km apart, at a tolerance of 1000 m: the second point joins the first point's node, but the third starts a node of its own. |
| Graphs.FindEdge | geo-tools.js:66 | `find` returns nothing exactly when no entry names the key. Otherwise it returns the first entry naming it. |
| Graphs.FindEdgeAppend | geo-tools.js:65-69 | After a guarded push, `find` changes only for a key no earlier entry named. |
| Builder.EnsureNode | geo-tools.js:62-63 | `if (!graph[k]) graph[k] = []` adds the node, with an empty list, exactly when it is absent. It appends the node to the key order, and leaves every other list as it was. |
| Builder.Link | geo-tools.js:65-69 | The entry is pushed exactly when no entry names its node already. The key order and all other lists are unchanged. |
| Builder.LinkAdjacency | geo-tools.js:65-69 | A guarded push adds exactly the adjacency from the list's owner to the entry's node. No existing weight changes, and a new adjacency gets the entry's weight. |
| Builder.ConnectAdjacency | geo-tools.js:61-74 | Inserting a segment adds its two ends as nodes and the two directed adjacencies between them, and nothing else. Existing weights are kept. |
| Builder.Connect | geo-tools.js:61-74 | Inserting a segment makes both ends nodes, appending new ones to the key order, and adds no other node. |
| Builder.ConnectNewWeight | geo-tools.js:65-74 | A pair of nodes not yet adjacent become adjacent both ways, with the segment's weight. |
| Builder.ConnectEntries | geo-tools.js:68-73 | Every entry after the insertion is either an old one, or `{node: keyB, coord: coordB, weight}` in `keyA`'s list, or `{node: keyA, coord: coordA, weight}` in `keyB`'s list. |
| Builder.ConnectNoDup | geo-tools.js:65-74 | The duplicate check keeps each list free of repeated neighbours. |
| Builder.ConnectSymmetric | geo-tools.js:65-74 | Both directions of every adjacency keep equal weights, even when one of the two pushes is skipped. |
| Builder.ConnectWellFormed | geo-tools.js:56-74 | Inserting a segment between distinct nodes, weighted by a nonnegative distance between their representatives, preserves all of the following: no self-loops, no repeated neighbours, symmetric weights, neighbours that are nodes, no node without entries, entry coordinates equal to their nodes' representatives, and a key order that lists each node once. |
| Builder.ConnectWeights | geo-tools.js:57-59 | Every edge weighs the distance between its two ends' representatives. |
| Builder.PlaceAdjacency | geo-tools.js:53-74 | A segment adds the adjacency between its two resolved ends, and no other, exactly when the ends differ. A segment whose ends merged is skipped. |
| Builder.AddSegment | geo-tools.js:46-74 | One iteration resolves `a`, then `b`, against the merge tables, which stay valid. |
| Builder.AddSegmentAdjacency | geo-tools.js:46-74 | One iteration resolves both ends in order, threads the merge tables through, and adds exactly that segment's adjacency. |
| Builder.AddSegmentInv | geo-tools.js:46-74 | One iteration preserves the graph and merge-table invariants. |
| Builder.LinePairs | geo-tools.js:45-47 | A line of n ≥ 2 coordinates has the n−1 consecutive pairs as its segments, in order. A shorter line has none. |
| Builder.AddSegments | geo-tools.js:43-76 | Running every segment of every line in order keeps the merge tables valid. |
| Builder.AddSegmentsAdjacency | geo-tools.js:43-76 | After all segments, two nodes are adjacent exactly when they were adjacent before or some non-degenerate resolved segment joins them. |
| Builder.BuildGraph | geo-tools.js:1-79 | The built graph is one the search accepts: its key order lists each node once, neighbours are nodes, weights are nonnegative, and no list names a neighbour twice. |
| Builder.BuildGraphWellFormed | geo-tools.js:1-79 | The built graph has no self-loops and no repeated neighbours. Its weights are symmetric, nonnegative, and measured between representatives. Neighbours are nodes, every node has an entry, and the key order lists each node once. |
| Builder.BuildGraphEdges | geo-tools.js:43-78 | The built graph's adjacencies are exactly the segments whose ends resolve to different nodes. Its nodes are exactly the ends of such segments. |
| Search.Remove | geo-tools.js:116 | `queue.delete(u)` leaves exactly the other keys, and shrinks the queue when `u` was in it. |
| Search.RemoveAt | geo-tools.js:116 | Deleting from a duplicate-free queue removes exactly that position and keeps the order of the rest. |
| Search.SelectMin | geo-tools.js:107-114 | The scan returns nothing exactly when no queued key has a finite distance. Otherwise it returns a queued key of minimum distance that is first among the minima, because only a strictly smaller distance replaces it. |
| Search.RelaxAll | geo-tools.js:117-123 | After relaxing `u`'s entries: no distance has grown; every neighbour is within one edge weight of `u`'s distance; `u`'s own distance is unchanged; and every changed distance is `u`'s distance plus that edge, with `u` recorded as its predecessor. |
| Search.InitInv | geo-tools.js:99-105 | At initialisation the start key has distance zero, every graph key is queued, and the search invariant holds. |
| Search.StepInv | geo-tools.js:106-124 | One iteration preserves the search invariant. The invariant: distances are nonnegative and bounded by every path to a settled node; settled nodes are no farther than any queued reached node; their neighbours are relaxed; and each predecessor link is an edge, from a node settled earlier, that realises the distance. |
| Search.FoundEnd | geo-tools.js:115 | When the end key is selected, its distance is at most the weight of every path to it. |
| Search.Exhausted | geo-tools.js:115 | When no queued key has a finite distance and the end key was never settled, any distance the end key has is at most every path's weight. Without one, the end key is unreachable. |
| Search.Trace | geo-tools.js:125-132 | The backward walk along `prev` terminates and yields a walk ending at the end key. If the end key was reached, the walk starts at the start key and weighs the end key's distance. Otherwise it is `[endKey]`. No key appears twice, since settling order decreases along `prev` and the end key is never settled. |
| Search.Dijkstra | geo-tools.js:97-133 | The path is a non-empty walk ending at the end key. It starts at the start key exactly when the end key is reachable, and it is then no heavier than any path between them. Otherwise it is `[endKey]`. No key appears twice in the path. |
| Routes.FindClosestNode | geo-tools.js:81-95 | Returns nothing exactly when the graph has no keys. Otherwise it returns a key at minimum distance from the point. Every key before it in enumeration order is strictly farther. |
| Routes.CoordsFromPath | geo-tools.js:135-137 | One coordinate per key, each serialising back to its key. |
| Routes.FirstNearestUnique | geo-tools.js:85-92 | The strict `<` tie-break leaves one choice: at most one key is the first nearest to a point. |
| Routes.FindShortestPath | geo-tools.js:139-174 | Returns nothing exactly when the built graph has no nodes. Otherwise the route holds the built graph, and its start and end keys are the nodes `findClosestNode` picks for the two points: nearest, and first in key order among the nearest. Its keys are the search's walk with all of `Search.Dijkstra`'s guarantees, including that no key appears twice, and its coordinates are those keys parsed. |
| Routes.FindRoute | geo-tools.js:157-162 | With the intended no-path check, a route is a shortest path, with no repeated key, between the nodes `findClosestNode` picks for the two points. There is no route exactly when the graph is empty or those two nodes are disconnected. |
| NoPath.DisconnectedQuery | geo-tools.js:157-162 | For two lines sharing no node, `findShortestPath` as written returns the route `[endKey]`, whose first key is not `startKey`. `Routes.FindRoute` returns no route. |
| NoPath.TwoComponents | geo-tools.js:43-78 | At tolerance zero, two segments between four distinct coordinates give a graph with exactly those four nodes, in which the second segment's end cannot be reached from the first segment's start. |

## Left out

- `upload_railway.py` and every other file outside `geo-tools.js` are not part of this model. They do file I/O and print the shell commands for a database upload.
- Feature objects are not modelled. A line is its `geometry.coordinates`, and the point wrappers built on geo-tools.js:144-145 are dropped.
- Coordinates have a longitude and a latitude only. A third component (altitude) would change the key and is not modelled.
- `turf.distance` is a parameter with nonnegative values; the haversine formula itself is not modelled. `findClosestNode` calls it without a unit, which is turf's default kilometres, so the same parameter serves both calls.
- Arithmetic is on exact reals, not IEEE doubles. Rounding in `alt = distances[u] + weight`, and NaN or infinite coordinates, are not modelled.
- Search.Dijkstra: requires that the graph's key list enumerate its nodes once each, that neighbours be nodes, that weights be nonnegative, and that lists be free of repeated neighbours. The source accepts any object. There, a neighbour that is not a node has no `distances` entry, `alt < undefined` is false, and that neighbour is never reached, whereas the model reads a missing entry as `Infinity`. Its only caller passes a built graph, which satisfies all four (`Builder.BuildGraphWellFormed`).
- Routes.FindShortestPath: omits the `console.warn` calls and the dead guard on geo-tools.js:159-162 (see Findings).
- The default `toleranceMeters = 0` is not modelled; callers pass the tolerance explicitly.

## Findings

| source | as written | input that shows it | evidently intended | confidence | as-written member | corrected member |
|---|---|---|---|---|---|---|
| geo-tools.js:157-162 | `if (path.length === 0 \|\| !path[0])` is meant to report "No path found". It never fires: the backward walk always starts the path with `endKey`, so a disconnected query returns the route `[endKey]`. | Lines `[[0,0],[1,0]]` and `[[10,0],[11,0]]`, tolerance 0, start `[0,0]`, end `[11,0]`. The model's distance is the longitude gap; any distance that is zero only between equal points behaves the same. | Return `null` when the path does not start at `startKey`. | not executed | NoPath.DisconnectedQuery | Routes.FindRoute |
