/** The node merger of one graph build (`findOrCreateMergedNode`).

    Two tables live for the duration of one build: `nodeMap`, from every raw
    coordinate seen so far to the key of its node, and `mergedNodes`, from
    each node key to its representative coordinate. A JavaScript `Map`
    enumerates in insertion order, so the keys of `mergedNodes` are kept in
    `order` as well; first-fit merging scans them in that order. */
module Merger {
  import opened Options
  import opened Geometry

  datatype MergeState = MergeState(nodeMap: map<Coord, Key>, reps: map<Key, Coord>, order: seq<Key>)

  const EmptyMerge := MergeState(map[], map[], [])

  /** `distance <= toleranceKm`, where `toleranceKm = toleranceMeters / 1000`. */
  predicate Within(dist: Metric, c: Coord, rep: Coord, tolMeters: real)
  {
    dist(c, rep) <= tolMeters / 1000.0
  }

  /** `order` enumerates the keys of `mergedNodes`, each once. */
  ghost predicate OrderValid(m: MergeState)
  {
    && (forall i, j :: 0 <= i < j < |m.order| ==> m.order[i] != m.order[j])
    && (forall k :: k in m.reps <==> k in m.order)
  }

  /** A node's key is the serialisation of its representative, and the
      representative is itself mapped to that node. */
  ghost predicate RepsValid(m: MergeState)
  {
    forall k :: k in m.reps ==>
      m.reps[k] == CoordOf(k) && CoordOf(k) in m.nodeMap && m.nodeMap[CoordOf(k)] == k
  }

  /** Every coordinate maps to an existing node, and is either that node's
      representative or, with a positive tolerance, within tolerance of it. */
  ghost predicate NodeMapValid(m: MergeState, tol: real, dist: Metric)
  {
    forall c :: c in m.nodeMap ==>
      && m.nodeMap[c] in m.reps
      && (c == m.reps[m.nodeMap[c]] || (tol > 0.0 && Within(dist, c, m.reps[m.nodeMap[c]], tol)))
  }

  /** What the two tables satisfy between calls. */
  ghost predicate Valid(m: MergeState, tol: real, dist: Metric)
  {
    OrderValid(m) && RepsValid(m) && NodeMapValid(m, tol, dist)
  }

  lemma EmptyMergeValid(tol: real, dist: Metric)
    ensures Valid(EmptyMerge, tol, dist)
  {
  }

  /** `m'` only adds to `m`: no coordinate is remapped, no representative is
      overwritten, and the node order only grows at its end. */
  ghost predicate Extends(m: MergeState, m': MergeState)
  {
    && (forall c :: c in m.nodeMap ==> c in m'.nodeMap && m'.nodeMap[c] == m.nodeMap[c])
    && (forall k :: k in m.reps ==> k in m'.reps && m'.reps[k] == m.reps[k])
    && |m.order| <= |m'.order| && m'.order[..|m.order|] == m.order
  }

  /** The scan `for (const [existingKey, existingCoord] of mergedNodes)`:
      the first key, in order, whose representative is within tolerance. */
  function FirstWithin(keys: seq<Key>, reps: map<Key, Coord>, c: Coord, tol: real, dist: Metric): (r: Option<Key>)
    requires forall i :: 0 <= i < |keys| ==> keys[i] in reps
    ensures r.None? ==> forall i :: 0 <= i < |keys| ==> !Within(dist, c, reps[keys[i]], tol)
    ensures r.Some? ==>
      exists i ::
        && 0 <= i < |keys|
        && keys[i] == r.value
        && Within(dist, c, reps[keys[i]], tol)
        && forall j :: 0 <= j < i ==> !Within(dist, c, reps[keys[j]], tol)
  {
    if |keys| == 0 then None
    else if Within(dist, c, reps[keys[0]], tol) then Some(keys[0])
    else
      var r := FirstWithin(keys[1..], reps, c, tol, dist);
      assert forall i :: 1 <= i < |keys| ==> keys[i] == keys[1..][i - 1];
      r
  }

  /** `findOrCreateMergedNode(coord)`: the key of the node `c` belongs to,
      and the tables after the call. */
  function Resolve(m: MergeState, c: Coord, tol: real, dist: Metric): (r: (Key, MergeState))
    requires Valid(m, tol, dist)
    ensures Valid(r.1, tol, dist) && Extends(m, r.1)
    ensures c in r.1.nodeMap && r.1.nodeMap[c] == r.0 && r.0 in r.1.reps
  {
    if c in m.nodeMap then (m.nodeMap[c], m)
    else if tol <= 0.0 then NewNode(m, c, tol, dist)
    else
      match FirstWithin(m.order, m.reps, c, tol, dist)
      case Some(k) => JoinNode(m, c, k, tol, dist)
      case None => NewNode(m, c, tol, dist)
  }

  /** `c` joins the existing node `k`, whose representative is within
      tolerance. */
  function JoinNode(m: MergeState, c: Coord, k: Key, tol: real, dist: Metric): (r: (Key, MergeState))
    requires Valid(m, tol, dist) && c !in m.nodeMap && k in m.reps
    requires tol > 0.0 && Within(dist, c, m.reps[k], tol)
    ensures Valid(r.1, tol, dist) && Extends(m, r.1)
    ensures r.0 == k && r.1 == m.(nodeMap := m.nodeMap[c := k])
  {
    (k, m.(nodeMap := m.nodeMap[c := k]))
  }

  /** A new node whose key is `c` serialised and whose representative is `c`. */
  function NewNode(m: MergeState, c: Coord, tol: real, dist: Metric): (r: (Key, MergeState))
    requires Valid(m, tol, dist) && c !in m.nodeMap
    ensures Valid(r.1, tol, dist) && Extends(m, r.1)
    ensures r.0 == KeyOf(c) && r.0 !in m.reps
    ensures r.1 == MergeState(m.nodeMap[c := r.0], m.reps[r.0 := c], m.order + [r.0])
  {
    NewNodeValid(m, c, tol, dist);
    (KeyOf(c), AddNode(m, c))
  }

  lemma NewNodeValid(m: MergeState, c: Coord, tol: real, dist: Metric)
    requires Valid(m, tol, dist) && c !in m.nodeMap
    ensures KeyOf(c) !in m.reps
    ensures Valid(AddNode(m, c), tol, dist) && Extends(m, AddNode(m, c))
  {
    var k := KeyOf(c);
    var m' := AddNode(m, c);
    assert m'.order[..|m.order|] == m.order;
    NewNodeOrder(m, c);
    NewNodeReps(m, c);
    NewNodeMap(m, c, tol, dist);
  }

  /** The tables with a new node represented by `c`. */
  function AddNode(m: MergeState, c: Coord): MergeState
  {
    MergeState(m.nodeMap[c := KeyOf(c)], m.reps[KeyOf(c) := c], m.order + [KeyOf(c)])
  }

  lemma NewNodeOrder(m: MergeState, c: Coord)
    requires OrderValid(m) && KeyOf(c) !in m.reps
    ensures OrderValid(AddNode(m, c))
  {
    var m' := AddNode(m, c);
    assert forall i :: 0 <= i < |m.order| ==> m'.order[i] == m.order[i];
  }

  lemma NewNodeReps(m: MergeState, c: Coord)
    requires RepsValid(m) && c !in m.nodeMap
    ensures KeyOf(c) !in m.reps && RepsValid(AddNode(m, c))
  {
  }

  lemma NewNodeMap(m: MergeState, c: Coord, tol: real, dist: Metric)
    requires NodeMapValid(m, tol, dist) && KeyOf(c) !in m.reps
    ensures NodeMapValid(AddNode(m, c), tol, dist)
  {
    var m' := AddNode(m, c);
    forall c' | c' in m'.nodeMap
      ensures m'.nodeMap[c'] in m'.reps
      ensures c' == m'.reps[m'.nodeMap[c']] || (tol > 0.0 && Within(dist, c', m'.reps[m'.nodeMap[c']], tol))
    {
      if c' != c {
        assert m'.nodeMap[c'] == m.nodeMap[c'] && m'.reps[m.nodeMap[c']] == m.reps[m.nodeMap[c']];
      }
    }
  }

  /** A coordinate seen before resolves to its recorded key and leaves both
      tables as they are. */
  lemma ResolveSeen(m: MergeState, c: Coord, tol: real, dist: Metric)
    requires Valid(m, tol, dist) && c in m.nodeMap
    ensures Resolve(m, c, tol, dist) == (m.nodeMap[c], m)
  {
  }

  /** A new coordinate with tolerance at most zero becomes a node of its own,
      keyed by the coordinate itself and appended to the node order. */
  lemma ResolveZeroTolerance(m: MergeState, c: Coord, tol: real, dist: Metric)
    requires Valid(m, tol, dist) && c !in m.nodeMap && tol <= 0.0
    ensures var (k, m') := Resolve(m, c, tol, dist);
      && k == KeyOf(c) && k !in m.reps
      && m' == MergeState(m.nodeMap[c := k], m.reps[k := c], m.order + [k])
  {
  }

  /** A new coordinate within tolerance of some representative joins the
      first such node in insertion order; only `nodeMap` changes. */
  lemma ResolveFirstFit(m: MergeState, c: Coord, tol: real, dist: Metric, i: int)
    requires Valid(m, tol, dist) && c !in m.nodeMap && tol > 0.0
    requires 0 <= i < |m.order| && Within(dist, c, m.reps[m.order[i]], tol)
    ensures var (k, m') := Resolve(m, c, tol, dist);
      && m' == m.(nodeMap := m.nodeMap[c := k])
      && exists j ::
           && 0 <= j <= i
           && m.order[j] == k
           && Within(dist, c, m.reps[m.order[j]], tol)
           && forall l :: 0 <= l < j ==> !Within(dist, c, m.reps[m.order[l]], tol)
  {
    var r := FirstWithin(m.order, m.reps, c, tol, dist);
    assert r.Some?;
  }

  /** A new coordinate out of tolerance of every representative becomes a
      node of its own, appended to the node order. */
  lemma ResolveNoneWithin(m: MergeState, c: Coord, tol: real, dist: Metric)
    requires Valid(m, tol, dist) && c !in m.nodeMap && tol > 0.0
    requires forall i :: 0 <= i < |m.order| ==> !Within(dist, c, m.reps[m.order[i]], tol)
    ensures var (k, m') := Resolve(m, c, tol, dist);
      && k == KeyOf(c) && k !in m.reps
      && m' == MergeState(m.nodeMap[c := k], m.reps[k := c], m.order + [k])
  {
    var r := FirstWithin(m.order, m.reps, c, tol, dist);
    assert r.None?;
  }

  /** Resolving the same coordinate a second time returns the same key and
      leaves both tables as the first call left them. */
  lemma ResolveIdempotent(m: MergeState, c: Coord, tol: real, dist: Metric)
    requires Valid(m, tol, dist)
    ensures var (k, m1) := Resolve(m, c, tol, dist); Resolve(m1, c, tol, dist) == (k, m1)
  {
  }

  /** With tolerance at most zero every coordinate is its own node. */
  lemma ZeroToleranceIdentity(m: MergeState, c: Coord, tol: real, dist: Metric)
    requires Valid(m, tol, dist) && tol <= 0.0
    ensures var (k, m1) := Resolve(m, c, tol, dist); k == KeyOf(c) && m1.reps[k] == c
  {
    if c in m.nodeMap {
      var k := m.nodeMap[c];
      assert c == m.reps[k] == CoordOf(k);
    }
  }

  /** With tolerance at most zero two different coordinates, resolved one
      after the other, get different keys. */
  lemma ZeroToleranceDistinct(m: MergeState, c1: Coord, c2: Coord, tol: real, dist: Metric)
    requires Valid(m, tol, dist) && tol <= 0.0 && c1 != c2
    ensures var (k1, m1) := Resolve(m, c1, tol, dist);
            var (k2, m2) := Resolve(m1, c2, tol, dist);
            k1 != k2
  {
    ZeroToleranceIdentity(m, c1, tol, dist);
    var (k1, m1) := Resolve(m, c1, tol, dist);
    ZeroToleranceIdentity(m1, c2, tol, dist);
  }
}
