/** Small worked examples of merging: the distance they use, and a chain
    of points each within tolerance of the previous one. */
module Samples {
  import opened Options
  import opened Geometry
  import opened Merger

  /** A distance for small examples: the longitude difference. */
  function LonGap(x: Coord, y: Coord): (r: real)
    ensures r >= 0.0
  {
    if x.lon >= y.lon then x.lon - y.lon else y.lon - x.lon
  }

  const LonDist: Metric := (x: Coord, y: Coord) => LonGap(x, y)

  /** Merging compares a new coordinate with representatives only, never with
      the other coordinates already merged into a node, so a chain of points
      each close to the previous does not collapse into one node. Here the
      distance is the longitude difference, the tolerance 1000 m (1 km): `B`
      joins `A`'s node, but `C`, 1 km from `B` and 2 km from `A`, starts a
      node of its own. */
  lemma ChainDoesNotMerge()
    ensures
      var (ka, m1) := Resolve(EmptyMerge, ChainA, 1000.0, LonDist);
      var (kb, m2) := Resolve(m1, ChainB, 1000.0, LonDist);
      var (kc, m3) := Resolve(m2, ChainC, 1000.0, LonDist);
      kb == ka && kc != ka && kc == KeyOf(ChainC)
  {
    ChainFirst();
    ChainSecond();
    ChainThird();
  }

  const ChainA := Coord(0.0, 0.0)
  const ChainB := Coord(1.0, 0.0)
  const ChainC := Coord(2.0, 0.0)

  /** The tables after `ChainA`, and after `ChainB` has joined its node. */
  const ChainM1 := AddNode(EmptyMerge, ChainA)
  const ChainM2 := ChainM1.(nodeMap := ChainM1.nodeMap[ChainB := KeyOf(ChainA)])

  lemma ChainFirst()
    ensures Valid(EmptyMerge, 1000.0, LonDist)
    ensures Resolve(EmptyMerge, ChainA, 1000.0, LonDist) == (KeyOf(ChainA), ChainM1)
  {
  }

  lemma ChainSecond()
    ensures Valid(ChainM1, 1000.0, LonDist)
    ensures Resolve(ChainM1, ChainB, 1000.0, LonDist) == (KeyOf(ChainA), ChainM2)
  {
    ChainFirst();
    assert ChainM1.order == [KeyOf(ChainA)];
    assert Within(LonDist, ChainB, ChainM1.reps[KeyOf(ChainA)], 1000.0);
  }

  lemma ChainThird()
    ensures Valid(ChainM2, 1000.0, LonDist)
    ensures Resolve(ChainM2, ChainC, 1000.0, LonDist).0 == KeyOf(ChainC)
  {
    ChainSecond();
    ChainNoneWithin();
    assert ChainC !in ChainM2.nodeMap;
  }

  /** `ChainC` is out of reach of the one representative there is. */
  lemma ChainNoneWithin()
    ensures forall i :: 0 <= i < |ChainM2.order| ==> ChainM2.order[i] in ChainM2.reps
    ensures FirstWithin(ChainM2.order, ChainM2.reps, ChainC, 1000.0, LonDist) == None
  {
    assert ChainM2.order == [KeyOf(ChainA)];
    assert ChainM2.reps[KeyOf(ChainA)] == ChainA;
    assert !Within(LonDist, ChainC, ChainA, 1000.0);
  }
}
