/** The shortest-path search (`dijkstra(graph, startKey, endKey)`).

    `distances` holds a finite number for every key that has been reached
    and `Infinity` for the rest; here a key with no entry in `d` is at
    `Infinity`. The queue is a `Set` of the graph's keys, which enumerates
    in insertion order, so it is a sequence. The search stops when the
    closest queued node is the end node, or when no queued node has a finite
    distance; the path is then read backwards along `prev` from the end. */
module Search {
  import opened Options
  import opened Geometry
  import opened Graphs

  predicate Distinct(q: seq<Key>)
  {
    forall i, j :: 0 <= i < j < |q| ==> q[i] != q[j]
  }

  // ---------------------------------------------------------------------------
  // The queue

  /** `queue.delete(x)`: the other keys, in their order. */
  function Remove(q: seq<Key>, x: Key): (r: seq<Key>)
    ensures forall k :: k in r <==> k in q && k != x
    ensures x in q ==> |r| < |q|
    ensures |r| <= |q|
  {
    if |q| == 0 then []
    else if q[0] == x then Remove(q[1..], x)
    else [q[0]] + Remove(q[1..], x)
  }

  /** Removing a key the queue does not hold leaves it as it is. */
  lemma {:induction false} RemoveAbsent(q: seq<Key>, x: Key)
    requires x !in q
    ensures Remove(q, x) == q
  {
    if |q| > 0 {
      assert q[1..] + [] == q[1..];
      RemoveAbsent(q[1..], x);
      assert [q[0]] + q[1..] == q;
    }
  }

  /** On a queue without repeats, removing the key at `i` closes the gap and
      keeps the order of the rest, as deleting from a `Set` does. */
  lemma {:induction false} RemoveAt(q: seq<Key>, i: int)
    requires Distinct(q) && 0 <= i < |q|
    ensures Remove(q, q[i]) == q[..i] + q[i + 1..]
  {
    if i == 0 {
      RemoveAbsent(q[1..], q[0]);
    } else {
      var t := q[1..];
      assert Distinct(t);
      assert t[i - 1] == q[i];
      RemoveAt(t, i - 1);
      assert q[..i] + q[i + 1..] == [q[0]] + (t[..i - 1] + t[i..]);
    }
  }

  /** The scan `for (const node of queue) if (distances[node] < minDist)`:
      the first queued key with the least finite distance, or none when no
      queued key has a finite one. */
  method SelectMin(queue: seq<Key>, d: map<Key, real>) returns (u: Option<Key>)
    ensures u.None? <==> forall k :: k in queue ==> k !in d
    ensures u.Some? ==> u.value in queue && u.value in d
    ensures u.Some? ==> forall k :: k in queue && k in d ==> d[u.value] <= d[k]
    ensures u.Some? ==>
      exists i :: 0 <= i < |queue| && queue[i] == u.value &&
        forall j :: 0 <= j < i && queue[j] in d ==> d[queue[j]] > d[u.value]
  {
    u := None;
    ghost var best := 0;
    var i := 0;
    while i < |queue|
      invariant 0 <= i <= |queue|
      invariant u.None? <==> forall j :: 0 <= j < i ==> queue[j] !in d
      invariant u.Some? ==> 0 <= best < i && queue[best] == u.value && u.value in d
      invariant u.Some? ==> forall j :: 0 <= j < i && queue[j] in d ==> d[u.value] <= d[queue[j]]
      invariant u.Some? ==> forall j :: 0 <= j < best && queue[j] in d ==> d[queue[j]] > d[u.value]
    {
      var k := queue[i];
      if k in d && (u.None? || d[k] < d[u.value]) {
        u := Some(k);
        best := i;
      }
      i := i + 1;
    }
  }

  // ---------------------------------------------------------------------------
  // Relaxation

  /** `v` kept its distance and its `prev` entry. */
  ghost predicate Kept(d: map<Key, real>, prev: map<Key, Key>, d': map<Key, real>, prev': map<Key, Key>, v: Key)
  {
    && v in d && v in d' && d'[v] == d[v]
    && (v in prev' <==> v in prev)
    && (v in prev ==> prev'[v] == prev[v])
  }

  /** `v` was reached more cheaply through `u`: its distance is now `u`'s plus
      the weight of `u`'s entry for it, and its `prev` is `u`. */
  ghost predicate Improved(g: Graph, u: Key, d: map<Key, real>, d': map<Key, real>, prev': map<Key, Key>, v: Key)
  {
    && u in d && v in d' && v in prev' && prev'[v] == u
    && Adjacent(g, u, v) && d'[v] == d[u] + EdgeW(g, u, v)
    && (v in d ==> d'[v] < d[v])
  }

  /** The tables after relaxing the first `n` entries of `u`'s list. */
  ghost predicate RelaxedUpTo(g: Graph, u: Key, d: map<Key, real>, prev: map<Key, Key>,
                              d': map<Key, real>, prev': map<Key, Key>, n: int)
    requires u in g.adj && u in d && 0 <= n <= |g.adj[u]|
  {
    && u in d' && d'[u] == d[u]
    && (forall v :: v in d ==> v in d' && d'[v] <= d[v])
    && (forall v :: v in prev' ==> v in d')
    && (forall v :: v in d' ==> Kept(d, prev, d', prev', v) || Improved(g, u, d, d', prev', v))
    && (forall j :: 0 <= j < n ==>
          g.adj[u][j].node in d' && d'[g.adj[u][j].node] <= d[u] + g.adj[u][j].weight)
  }

  /** The tables after relaxing every entry of `u`'s list. */
  ghost predicate Relaxed(g: Graph, u: Key, d: map<Key, real>, prev: map<Key, Key>,
                          d': map<Key, real>, prev': map<Key, Key>)
    requires u in g.adj && u in d
  {
    RelaxedUpTo(g, u, d, prev, d', prev', |g.adj[u]|)
  }

  /** `for (const neighbor of graph[u])`: lower each neighbour's distance to
      `distances[u] + neighbor.weight` when that is smaller, recording `u` as
      its predecessor. Afterwards no distance has grown, every neighbour is
      within one edge of `u`, and every change is an improvement through
      `u`. */
  method RelaxAll(g: Graph, u: Key, d: map<Key, real>, prev: map<Key, Key>)
    returns (d': map<Key, real>, prev': map<Key, Key>)
    requires u in g.adj && u in d && NoDupNodes(g.adj[u])
    requires forall j :: 0 <= j < |g.adj[u]| ==> g.adj[u][j].weight >= 0.0
    requires forall v :: v in prev ==> v in d
    ensures Relaxed(g, u, d, prev, d', prev')
  {
    d', prev' := d, prev;
    var es := g.adj[u];
    var i := 0;
    while i < |es|
      invariant 0 <= i <= |es|
      invariant RelaxedUpTo(g, u, d, prev, d', prev', i)
    {
      var e := es[i];
      var alt := d'[u] + e.weight;
      if e.node !in d' || alt < d'[e.node] {
        RelaxUpdate(g, u, d, prev, d', prev', i, d'[e.node := alt], prev'[e.node := u]);
        d' := d'[e.node := alt];
        prev' := prev'[e.node := u];
      }
      i := i + 1;
    }
  }

  /** Lowering the distance of the `i`-th neighbour extends the relaxed
      prefix by one entry. */
  lemma RelaxUpdate(g: Graph, u: Key, d: map<Key, real>, prev: map<Key, Key>,
                    d': map<Key, real>, prev': map<Key, Key>, i: int,
                    d'': map<Key, real>, prev'': map<Key, Key>)
    requires u in g.adj && u in d && NoDupNodes(g.adj[u]) && 0 <= i < |g.adj[u]|
    requires forall j :: 0 <= j < |g.adj[u]| ==> g.adj[u][j].weight >= 0.0
    requires RelaxedUpTo(g, u, d, prev, d', prev', i)
    requires var e := g.adj[u][i]; e.node !in d' || d'[u] + e.weight < d'[e.node]
    requires var e := g.adj[u][i]; d'' == d'[e.node := d'[u] + e.weight] && prev'' == prev'[e.node := u]
    ensures RelaxedUpTo(g, u, d, prev, d'', prev'', i + 1)
  {
    var es := g.adj[u];
    var v := es[i].node;
    assert v != u;
    RelaxUpdateChanges(g, u, d, prev, d', prev', i, d'', prev'');
    forall j | 0 <= j < i + 1
      ensures es[j].node in d'' && d''[es[j].node] <= d[u] + es[j].weight
    {
      if j < i {
        assert es[j].node != v;
      }
    }
  }

  /** After lowering the `i`-th neighbour, every reached key is still kept
      or improved through `u`. */
  lemma RelaxUpdateChanges(g: Graph, u: Key, d: map<Key, real>, prev: map<Key, Key>,
                           d': map<Key, real>, prev': map<Key, Key>, i: int,
                           d'': map<Key, real>, prev'': map<Key, Key>)
    requires u in g.adj && u in d && NoDupNodes(g.adj[u]) && 0 <= i < |g.adj[u]|
    requires forall v :: v in d ==> v in d' && d'[v] <= d[v]
    requires forall v :: v in d' ==> Kept(d, prev, d', prev', v) || Improved(g, u, d, d', prev', v)
    requires u in d' && d'[u] == d[u] && g.adj[u][i].node != u
    requires var e := g.adj[u][i]; e.node !in d' || d'[u] + e.weight < d'[e.node]
    requires var e := g.adj[u][i]; d'' == d'[e.node := d'[u] + e.weight] && prev'' == prev'[e.node := u]
    ensures forall w :: w in d'' ==> Kept(d, prev, d'', prev'', w) || Improved(g, u, d, d'', prev'', w)
  {
    var es := g.adj[u];
    var v := es[i].node;
    FindEdgeUnique(es, i);
    assert Improved(g, u, d, d'', prev'', v);
    forall w | w in d'' && w != v
      ensures Kept(d, prev, d'', prev'', w) || Improved(g, u, d, d'', prev'', w)
    {
      assert Kept(d, prev, d', prev', w) || Improved(g, u, d, d', prev', w);
    }
  }

  // ---------------------------------------------------------------------------
  // What holds between rounds of the main loop

  /** The start is at 0, distances are nonnegative, and only graph keys and
      the start have one. */
  ghost predicate DistInv(g: Graph, start: Key, d: map<Key, real>)
  {
    && start in d && d[start] == 0.0
    && (forall k :: k in d ==> d[k] >= 0.0)
    && (forall k :: k in d ==> k in g.adj || k == start)
  }

  /** The queue holds the graph keys not yet settled; the end is never
      settled, since the search stops when it is selected. */
  ghost predicate QueueInv(g: Graph, end: Key, d: map<Key, real>, queue: seq<Key>, done: set<Key>)
  {
    && (forall k :: k in queue <==> k in g.adj && k !in done)
    && (forall k :: k in done ==> k in g.adj && k in d)
    && end !in done
  }

  /** `v`'s predecessor is settled and adjacent to it, and `v`'s distance is
      the predecessor's plus that edge; settling order decreases along
      `prev`. */
  ghost predicate PrevLink(g: Graph, start: Key, d: map<Key, real>, prev: map<Key, Key>,
                           done: set<Key>, rank: map<Key, nat>, v: Key)
    requires v in prev
  {
    && v in d && v != start && prev[v] in done && prev[v] in d && prev[v] in rank
    && Adjacent(g, prev[v], v) && d[v] == d[prev[v]] + EdgeW(g, prev[v], v)
    && (v in done ==> v in rank && rank[prev[v]] < rank[v])
  }

  /** `distances[v]` is finite. This and `HasPrev` have names of their own
      so that the quantifiers of `PrevInv`, which lead from a key to its
      predecessor, are instantiated only where a proof asks for them. */
  ghost predicate HasDistance(d: map<Key, real>, v: Key)
  {
    v in d
  }

  /** `prev[v]` is set. */
  ghost predicate HasPrev(prev: map<Key, Key>, v: Key)
  {
    v in prev
  }

  /** `rank` numbers the settled keys in settling order; every reached key but
      the start has a predecessor. */
  ghost predicate PrevInv(g: Graph, start: Key, d: map<Key, real>, prev: map<Key, Key>,
                          done: set<Key>, rank: map<Key, nat>)
  {
    && rank.Keys == done
    && (forall v :: v in rank ==> rank[v] < |done|)
    && (forall v :: HasDistance(d, v) && v != start ==> v in prev)
    && (forall v :: HasPrev(prev, v) ==> PrevLink(g, start, d, prev, done, rank, v))
  }

  /** A settled key's distance is at most the weight of every path to it. */
  ghost predicate Settled(g: Graph, start: Key, d: map<Key, real>, done: set<Key>)
  {
    forall x, p :: x in done && IsPath(g, p, start, x) ==> x in d && d[x] <= Weight(g, p)
  }

  /** Every neighbour of a settled key is within one edge of it. */
  ghost predicate Propagated(g: Graph, d: map<Key, real>, done: set<Key>)
  {
    forall y, j :: y in done && y in g.adj && 0 <= j < |g.adj[y]| ==>
      y in d && g.adj[y][j].node in d && d[g.adj[y][j].node] <= d[y] + g.adj[y][j].weight
  }

  /** Settled keys are no farther than any reached key still queued. */
  ghost predicate Ordered(g: Graph, d: map<Key, real>, done: set<Key>)
  {
    forall y, z :: y in done && z in d && z in g.adj && z !in done ==> y in d && d[y] <= d[z]
  }

  /** `x` is the queued key selected by the scan. */
  ghost predicate Selected(queue: seq<Key>, d: map<Key, real>, x: Key)
  {
    x in queue && x in d && forall k :: k in queue && k in d ==> d[x] <= d[k]
  }

  /** Every path to an unsettled node leaves the settled set at a reached,
      unsettled node no farther than the path's weight. */
  lemma FrontierWitness(g: Graph, start: Key, d: map<Key, real>, done: set<Key>, p: seq<Key>, t: Key)
    returns (y: Key)
    requires NonNegative(g) && Closed(g) && DistInv(g, start, d)
    requires Settled(g, start, d, done) && Propagated(g, d, done)
    requires IsPath(g, p, start, t) && t in g.adj && t !in done
    ensures y in g.adj && y !in done && y in d && d[y] <= Weight(g, p)
  {
    var i := FirstUnsettled(p, done);
    WeightNonNegative(g, p);
    if i == 0 {
      y := start;
      if |p| > 1 {
        assert Adjacent(g, p[0], p[1]);
      }
    } else {
      y := FrontierStep(g, start, d, done, p, i);
    }
  }

  /** The first key of `p` not in `done`, when its last one is not. */
  lemma FirstUnsettled(p: seq<Key>, done: set<Key>) returns (i: int)
    requires |p| > 0 && p[|p| - 1] !in done
    ensures 0 <= i < |p| && p[i] !in done && forall j :: 0 <= j < i ==> p[j] in done
  {
    i := 0;
    while p[i] in done
      invariant 0 <= i < |p|
      invariant forall j :: 0 <= j < i ==> p[j] in done
      decreases |p| - i
    {
      i := i + 1;
    }
  }

  /** Where a path first steps from a settled key to an unsettled one, the
      unsettled key is reached no farther than the path's weight. */
  lemma FrontierStep(g: Graph, start: Key, d: map<Key, real>, done: set<Key>, p: seq<Key>, i: int)
    returns (y: Key)
    requires NonNegative(g) && Closed(g)
    requires Settled(g, start, d, done) && Propagated(g, d, done)
    requires IsWalk(g, p) && |p| > 0 && p[0] == start
    requires 0 < i < |p| && p[i - 1] in done && p[i] !in done
    ensures y == p[i] && y in g.adj && y in d && d[y] <= Weight(g, p)
  {
    var a := p[i - 1];
    y := p[i];
    var q := p[..i];
    PrefixIsWalk(g, p, i);
    assert IsPath(g, q, start, a);
    assert d[a] <= Weight(g, q);
    assert Adjacent(g, p[i - 1], p[i]);
    var j := AdjacentEntry(g, a, y);
    assert d[y] <= d[a] + g.adj[a][j].weight;
    WeightAppend(g, q, y);
    assert q + [y] == p[..i + 1];
    WeightPrefix(g, p, i + 1);
  }

  // ---------------------------------------------------------------------------
  // One round keeps the invariants

  /** Settled keys, and the key being settled, keep their distances and
      predecessors: none of them can be improved. */
  lemma StepKeeps(g: Graph, start: Key, d: map<Key, real>, prev: map<Key, Key>, queue: seq<Key>,
                  done: set<Key>, x: Key, d': map<Key, real>, prev': map<Key, Key>)
    requires NonNegative(g) && x in g.adj && x in d
    requires Ordered(g, d, done) && Selected(queue, d, x) && x !in done
    requires forall k :: k in done ==> k in g.adj && k in d
    requires Relaxed(g, x, d, prev, d', prev')
    ensures forall v :: v in done || v == x ==> Kept(d, prev, d', prev', v)
  {
    forall v | v in done || v == x
      ensures Kept(d, prev, d', prev', v)
    {
      assert v in d && v in d';
      if v != x {
        assert d[v] <= d[x];
        if Adjacent(g, x, v) {
          var j := AdjacentEntry(g, x, v);
        }
      }
    }
  }

  lemma StepDist(g: Graph, start: Key, d: map<Key, real>, prev: map<Key, Key>, x: Key,
                 d': map<Key, real>, prev': map<Key, Key>)
    requires NonNegative(g) && Closed(g) && x in g.adj && x in d && DistInv(g, start, d)
    requires Relaxed(g, x, d, prev, d', prev')
    ensures DistInv(g, start, d')
  {
    forall v | v in d'
      ensures d'[v] >= 0.0 && (v in g.adj || v == start) && (v == start ==> d'[v] == 0.0)
    {
      if Improved(g, x, d, d', prev', v) {
        var j := AdjacentEntry(g, x, v);
      }
    }
  }

  lemma StepPrev(g: Graph, start: Key, d: map<Key, real>, prev: map<Key, Key>,
                 done: set<Key>, rank: map<Key, nat>, x: Key, d': map<Key, real>, prev': map<Key, Key>)
    requires x in g.adj && x in d && x !in done && DistInv(g, start, d) && DistInv(g, start, d')
    requires PrevInv(g, start, d, prev, done, rank)
    requires forall v :: v in prev' ==> v in d'
    requires forall v :: v in d' ==> Kept(d, prev, d', prev', v) || Improved(g, x, d, d', prev', v)
    requires forall v :: v in done || v == x ==> Kept(d, prev, d', prev', v)
    ensures PrevInv(g, start, d', prev', done + {x}, rank[x := |done|])
  {
    StepRank(done, rank, x);
    StepReached(g, start, d, prev, x, d', prev');
    StepLinks(g, start, d, prev, done, rank, x, d', prev', done + {x}, rank[x := |done|]);
  }

  lemma StepRank(done: set<Key>, rank: map<Key, nat>, x: Key)
    requires x !in done && rank.Keys == done && forall v :: v in rank ==> rank[v] < |done|
    ensures var done', rank' := done + {x}, rank[x := |done|];
      rank'.Keys == done' && forall v :: v in rank' ==> rank'[v] < |done'|
  {
    assert |done + {x}| == |done| + 1;
  }

  lemma StepReached(g: Graph, start: Key, d: map<Key, real>, prev: map<Key, Key>, x: Key,
                    d': map<Key, real>, prev': map<Key, Key>)
    requires forall v :: HasDistance(d, v) && v != start ==> v in prev
    requires forall v :: v in d' ==> Kept(d, prev, d', prev', v) || Improved(g, x, d, d', prev', v)
    ensures forall v :: HasDistance(d', v) && v != start ==> v in prev'
  {
    forall v | HasDistance(d', v) && v != start
      ensures v in prev'
    {
      assert Kept(d, prev, d', prev', v) || Improved(g, x, d, d', prev', v);
      if v in d {
        assert HasDistance(d, v);
      }
    }
  }

  lemma StepLinks(g: Graph, start: Key, d: map<Key, real>, prev: map<Key, Key>,
                  done: set<Key>, rank: map<Key, nat>, x: Key, d': map<Key, real>, prev': map<Key, Key>,
                  done': set<Key>, rank': map<Key, nat>)
    requires x in g.adj && x in d && x !in done && DistInv(g, start, d) && DistInv(g, start, d')
    requires forall v :: HasPrev(prev, v) ==> PrevLink(g, start, d, prev, done, rank, v)
    requires rank.Keys == done && forall v :: v in rank ==> rank[v] < |done|
    requires done' == done + {x} && rank' == rank[x := |done|]
    requires forall v :: v in prev' ==> v in d'
    requires forall v :: v in d' ==> Kept(d, prev, d', prev', v) || Improved(g, x, d, d', prev', v)
    requires forall v :: v in done || v == x ==> Kept(d, prev, d', prev', v)
    ensures forall v :: HasPrev(prev', v) ==> PrevLink(g, start, d', prev', done', rank', v)
  {
    forall v | HasPrev(prev', v)
      ensures PrevLink(g, start, d', prev', done', rank', v)
    {
      if Kept(d, prev, d', prev', v) {
        assert HasPrev(prev, v);
        assert Kept(d, prev, d', prev', prev[v]);
      } else {
        assert Improved(g, x, d, d', prev', v);
        assert v !in done && v != x;
      }
    }
  }

  lemma StepSettled(g: Graph, start: Key, d: map<Key, real>, prev: map<Key, Key>, queue: seq<Key>,
                    done: set<Key>, x: Key, d': map<Key, real>, prev': map<Key, Key>)
    requires NonNegative(g) && Closed(g) && DistInv(g, start, d)
    requires Settled(g, start, d, done) && Propagated(g, d, done)
    requires forall k :: k in queue <==> k in g.adj && k !in done
    requires Selected(queue, d, x)
    requires forall v :: v in done || v == x ==> Kept(d, prev, d', prev', v)
    ensures Settled(g, start, d', done + {x})
  {
    forall y, p | y in done + {x} && IsPath(g, p, start, y)
      ensures y in d' && d'[y] <= Weight(g, p)
    {
      assert Kept(d, prev, d', prev', y);
      if y == x && x !in done {
        var z := FrontierWitness(g, start, d, done, p, x);
        assert z in queue;
      }
    }
  }

  lemma StepPropagated(g: Graph, d: map<Key, real>, prev: map<Key, Key>,
                       done: set<Key>, x: Key, d': map<Key, real>, prev': map<Key, Key>)
    requires x in g.adj && x in d && Propagated(g, d, done)
    requires Relaxed(g, x, d, prev, d', prev')
    requires forall v :: v in done || v == x ==> Kept(d, prev, d', prev', v)
    ensures Propagated(g, d', done + {x})
  {
    forall y, j | y in done + {x} && y in g.adj && 0 <= j < |g.adj[y]|
      ensures y in d' && g.adj[y][j].node in d' && d'[g.adj[y][j].node] <= d'[y] + g.adj[y][j].weight
    {
      assert Kept(d, prev, d', prev', y);
    }
  }

  lemma StepOrdered(g: Graph, start: Key, d: map<Key, real>, prev: map<Key, Key>, queue: seq<Key>,
                    done: set<Key>, x: Key, d': map<Key, real>, prev': map<Key, Key>)
    requires NonNegative(g) && Ordered(g, d, done)
    requires forall k :: k in queue <==> k in g.adj && k !in done
    requires Selected(queue, d, x) && x !in done
    requires Relaxed(g, x, d, prev, d', prev')
    requires forall v :: v in done || v == x ==> Kept(d, prev, d', prev', v)
    ensures Ordered(g, d', done + {x})
  {
    forall y, z | y in done + {x} && z in d' && z in g.adj && z !in done + {x}
      ensures y in d' && d'[y] <= d'[z]
    {
      assert Kept(d, prev, d', prev', y);
      if Improved(g, x, d, d', prev', z) {
        var j := AdjacentEntry(g, x, z);
        assert d[y] <= d[x];
      } else {
        assert z in queue;
      }
    }
  }

  /** Everything that holds between rounds of the main loop. */
  ghost predicate SearchInv(g: Graph, start: Key, end: Key, d: map<Key, real>, prev: map<Key, Key>,
                            queue: seq<Key>, done: set<Key>, rank: map<Key, nat>)
  {
    && DistInv(g, start, d)
    && QueueInv(g, end, d, queue, done)
    && PrevInv(g, start, d, prev, done, rank)
    && Settled(g, start, d, done)
    && Propagated(g, d, done)
    && Ordered(g, d, done)
  }

  /** `distances[startKey] = 0`, every graph key queued, nothing settled. */
  lemma InitInv(g: Graph, start: Key, end: Key)
    requires KeysMatch(g)
    ensures SearchInv(g, start, end, map[start := 0.0], map[], g.keys, {}, map[])
  {
  }

  /** The selected key may be relaxed. */
  lemma RelaxReady(g: Graph, start: Key, end: Key, d: map<Key, real>, prev: map<Key, Key>,
                   queue: seq<Key>, done: set<Key>, rank: map<Key, nat>, x: Key)
    requires SearchReady(g) && SearchInv(g, start, end, d, prev, queue, done, rank)
    requires Selected(queue, d, x)
    ensures x in g.adj && x in d && x !in done && NoDupNodes(g.adj[x])
    ensures forall j :: 0 <= j < |g.adj[x]| ==> g.adj[x][j].weight >= 0.0
    ensures forall v :: v in prev ==> v in d
  {
    forall v | v in prev
      ensures v in d
    {
      assert HasPrev(prev, v);
    }
  }

  /** Settling the selected key `x`, which is not the end, and relaxing its
      entries keeps the loop invariant. */
  lemma StepInv(g: Graph, start: Key, end: Key, d: map<Key, real>, prev: map<Key, Key>,
                queue: seq<Key>, done: set<Key>, rank: map<Key, nat>, x: Key,
                d': map<Key, real>, prev': map<Key, Key>)
    requires SearchReady(g) && SearchInv(g, start, end, d, prev, queue, done, rank)
    requires Selected(queue, d, x) && x != end && x in g.adj
    requires Relaxed(g, x, d, prev, d', prev')
    ensures SearchInv(g, start, end, d', prev', Remove(queue, x), done + {x}, rank[x := |done|])
  {
    StepKeeps(g, start, d, prev, queue, done, x, d', prev');
    StepDist(g, start, d, prev, x, d', prev');
    StepPrev(g, start, d, prev, done, rank, x, d', prev');
    StepSettled(g, start, d, prev, queue, done, x, d', prev');
    StepPropagated(g, d, prev, done, x, d', prev');
    StepOrdered(g, start, d, prev, queue, done, x, d', prev');
  }

  // ---------------------------------------------------------------------------
  // When the loop stops

  /** What the tables say about the end node once the loop has stopped: a
      reached end is at its shortest distance, and an unreached end cannot be
      reached at all. */
  ghost predicate Outcome(g: Graph, start: Key, end: Key, d: map<Key, real>)
  {
    && (end in d ==> forall p :: IsPath(g, p, start, end) ==> d[end] <= Weight(g, p))
    && (end !in d ==> !Reachable(g, start, end))
  }

  /** The end node was selected: its distance is final. */
  lemma FoundEnd(g: Graph, start: Key, end: Key, d: map<Key, real>, queue: seq<Key>, done: set<Key>)
    requires NonNegative(g) && Closed(g) && DistInv(g, start, d)
    requires Settled(g, start, d, done) && Propagated(g, d, done)
    requires forall k :: k in queue <==> k in g.adj && k !in done
    requires Selected(queue, d, end)
    ensures Outcome(g, start, end, d)
  {
    forall p | IsPath(g, p, start, end)
      ensures d[end] <= Weight(g, p)
    {
      var z := FrontierWitness(g, start, d, done, p, end);
      assert z in queue;
    }
  }

  /** No queued node has a finite distance: whatever was not reached cannot
      be reached. */
  lemma Exhausted(g: Graph, start: Key, end: Key, d: map<Key, real>, queue: seq<Key>, done: set<Key>)
    requires NonNegative(g) && Closed(g) && DistInv(g, start, d)
    requires Settled(g, start, d, done) && Propagated(g, d, done)
    requires forall k :: k in queue <==> k in g.adj && k !in done
    requires forall k :: k in queue ==> k !in d
    requires end !in done
    ensures Outcome(g, start, end, d)
  {
    if end in d {
      assert end == start;
      forall p | IsPath(g, p, start, end)
        ensures d[end] <= Weight(g, p)
      {
        WeightNonNegative(g, p);
      }
    } else {
      if p :| IsPath(g, p, start, end) {
        if end in g.adj {
          var z := FrontierWitness(g, start, d, done, p, end);
          assert false;
        } else {
          assert |p| > 1;
          assert Adjacent(g, p[|p| - 2], p[|p| - 1]);
          var j := AdjacentEntry(g, p[|p| - 2], end);
        }
      }
    }
  }

  // ---------------------------------------------------------------------------
  // The search

  /** Reconstruct path: `while (u) { path.unshift(u); u = prev[u]; }`, from
      the end node back along `prev`. A reached end yields a path from the
      start whose weight is the end's distance; an unreached end yields the
      end alone. Settling order decreases along `prev` and the end is never
      settled, so no key appears twice. */
  method Trace(g: Graph, start: Key, end: Key, d: map<Key, real>, prev: map<Key, Key>,
               ghost done: set<Key>, ghost rank: map<Key, nat>)
    returns (path: seq<Key>)
    requires DistInv(g, start, d) && PrevInv(g, start, d, prev, done, rank)
    requires end !in done
    ensures |path| > 0 && path[|path| - 1] == end && IsWalk(g, path)
    ensures end in d ==> path[0] == start && d[end] == Weight(g, path)
    ensures end !in d ==> path == [end]
    ensures forall i, j :: 0 <= i < j < |path| ==> path[i] != path[j]
  {
    path := [end];
    var v := end;
    while v in prev
      invariant |path| > 0 && path[0] == v && path[|path| - 1] == end && IsWalk(g, path)
      invariant end in d ==> v in d && d[end] == d[v] + Weight(g, path)
      invariant end !in d ==> path == [end]
      invariant v != end ==> v in done
      invariant forall i :: 0 <= i < |path| - 1 ==> path[i] in done
      invariant forall i, j :: 0 <= i < j < |path| - 1 ==> rank[path[i]] < rank[path[j]]
      decreases if v in done then rank[v] else |done|
    {
      var u := prev[v];
      assert HasPrev(prev, v);
      WeightPrepend(g, u, path);
      v := u;
      path := [v] + path;
    }
  }

  /** `dijkstra(graph, startKey, endKey)` on a graph the builder could have
      produced. The result always ends at the end key and follows edges of
      the graph; it starts at the start key exactly when the end is
      reachable, and then no path from start to end weighs less. Otherwise
      it is the end key alone. Either way no key appears twice. */
  method Dijkstra(g: Graph, start: Key, end: Key) returns (path: seq<Key>)
    requires SearchReady(g)
    ensures |path| > 0 && path[|path| - 1] == end && IsWalk(g, path)
    ensures path[0] == start <==> Reachable(g, start, end)
    ensures Reachable(g, start, end) ==>
      forall p :: IsPath(g, p, start, end) ==> Weight(g, path) <= Weight(g, p)
    ensures !Reachable(g, start, end) ==> path == [end]
    ensures forall i, j :: 0 <= i < j < |path| ==> path[i] != path[j]
  {
    var d: map<Key, real> := map[start := 0.0];
    var prev: map<Key, Key> := map[];
    var queue := g.keys;
    ghost var done: set<Key> := {};
    ghost var rank: map<Key, nat> := map[];
    InitInv(g, start, end);
    while |queue| > 0
      invariant SearchInv(g, start, end, d, prev, queue, done, rank)
      decreases |queue|
    {
      var u := SelectMin(queue, d);
      if u.None? {
        Exhausted(g, start, end, d, queue, done);
        break;
      }
      var x := u.value;
      if x == end {
        FoundEnd(g, start, end, d, queue, done);
        break;
      }
      assert Selected(queue, d, x);
      RelaxReady(g, start, end, d, prev, queue, done, rank, x);
      var d', prev' := RelaxAll(g, x, d, prev);
      StepInv(g, start, end, d, prev, queue, done, rank, x, d', prev');
      queue := Remove(queue, x);
      d, prev := d', prev';
      rank := rank[x := |done|];
      done := done + {x};
    }
    if |queue| == 0 {
      Exhausted(g, start, end, d, queue, done);
    }
    path := Trace(g, start, end, d, prev, done, rank);
    Conclude(g, start, end, d, path);
  }

  /** The traced path, read against what the tables say about the end. */
  lemma Conclude(g: Graph, start: Key, end: Key, d: map<Key, real>, path: seq<Key>)
    requires DistInv(g, start, d) && Outcome(g, start, end, d)
    requires |path| > 0 && path[|path| - 1] == end && IsWalk(g, path)
    requires end in d ==> path[0] == start && d[end] == Weight(g, path)
    requires end !in d ==> path == [end]
    ensures path[0] == start <==> Reachable(g, start, end)
    ensures Reachable(g, start, end) ==>
      forall p :: IsPath(g, p, start, end) ==> Weight(g, path) <= Weight(g, p)
    ensures !Reachable(g, start, end) ==> path == [end]
  {
    if end in d {
      assert IsPath(g, path, start, end);
    }
  }
}
