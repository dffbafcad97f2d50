/** Single-source shortest distances (`src/algo/shortest_path.rs`): Bellman-Ford with its negative
    cycle check, and Dijkstra. */
module ShortestPath {
  import opened Seqs
  import opened Vec
  import opened Graphs
  import opened Heaps

  // ----- weighted walks -----

  /** The edges lead from `u` to `v`. */
  ghost predicate IsWalk(g: Digraph, p: seq<nat>, u: nat, v: nat) {
    if p == [] then u == v
    else var e := p[|p| - 1];
         e < |g.ends| && g.ends[e].1 == v && IsWalk(g, p[..|p| - 1], u, g.ends[e].0)
  }

  ghost function Weight(w: seq<int>, p: seq<nat>): int {
    if p == [] then 0
    else Weight(w, p[..|p| - 1]) + if p[|p| - 1] < |w| then w[p[|p| - 1]] else 0
  }

  ghost function VertexAt(g: Digraph, p: seq<nat>, u: nat, i: nat): nat
    requires i <= |p| && forall k :: 0 <= k < |p| ==> p[k] < |g.ends|
  {
    if i == 0 then u else g.ends[p[i - 1]].1
  }

  lemma {:induction false} WalkEdges(g: Digraph, p: seq<nat>, u: nat, v: nat)
    requires IsWalk(g, p, u, v)
    ensures forall k :: 0 <= k < |p| ==> p[k] < |g.ends|
  {
    if p != [] {
      WalkEdges(g, p[..|p| - 1], u, g.ends[p[|p| - 1]].0);
    }
  }

  lemma {:induction false} WalkJoin(g: Digraph, w: seq<int>, a: seq<nat>, b: seq<nat>, u: nat, v: nat, x: nat)
    requires IsWalk(g, a, u, v) && IsWalk(g, b, v, x)
    ensures IsWalk(g, a + b, u, x) && Weight(w, a + b) == Weight(w, a) + Weight(w, b)
  {
    if b == [] {
      assert a + b == a;
    } else {
      var k := |b| - 1;
      WalkJoin(g, w, a, b[..k], u, v, g.ends[b[k]].0);
      assert (a + b)[..|a + b| - 1] == a + b[..k];
    }
  }

  lemma {:induction false} WalkSplit(g: Digraph, w: seq<int>, p: seq<nat>, u: nat, v: nat, i: nat)
    requires IsWalk(g, p, u, v) && i <= |p| && forall k :: 0 <= k < |p| ==> p[k] < |g.ends|
    ensures IsWalk(g, p[..i], u, VertexAt(g, p, u, i)) && IsWalk(g, p[i..], VertexAt(g, p, u, i), v)
    ensures Weight(w, p) == Weight(w, p[..i]) + Weight(w, p[i..])
  {
    if i == |p| {
      assert p[..i] == p;
    } else {
      var k := |p| - 1;
      WalkSplit(g, w, p[..k], u, g.ends[p[k]].0, i);
      assert p[..k][..i] == p[..i] && p[i..][..k - i] == p[..k][i..];
    }
  }

  lemma {:induction false} WalkReaches(g: Digraph, p: seq<nat>, u: nat, v: nat)
    requires IsWalk(g, p, u, v)
    ensures Reach(g.Arcs(), u, v)
  {
    if p == [] {
      ReachRefl(g.Arcs(), u);
    } else {
      var e := p[|p| - 1];
      WalkReaches(g, p[..|p| - 1], u, g.ends[e].0);
      assert g.ends[e] in g.ends;
      ReachStep(g.Arcs(), u, g.ends[e].0, v);
    }
  }

  lemma {:induction false} PathWalks(g: Digraph, path: seq<nat>) returns (p: seq<nat>)
    requires IsPath(g.Arcs(), path)
    ensures IsWalk(g, p, path[0], path[|path| - 1])
    decreases |path|
  {
    if |path| == 1 {
      p := [];
    } else {
      var k := |path| - 1;
      var q := PathWalks(g, path[..k]);
      assert (path[k - 1], path[k]) in g.Arcs();
      var e :| 0 <= e < |g.ends| && g.ends[e] == (path[k - 1], path[k]);
      p := q + [e];
      assert p[..|p| - 1] == q;
    }
  }

  lemma WalkExists(g: Digraph, u: nat, v: nat) returns (p: seq<nat>)
    requires Reach(g.Arcs(), u, v)
    ensures IsWalk(g, p, u, v)
  {
    var path :| PathFrom(g.Arcs(), path, u, v);
    p := PathWalks(g, path);
  }

  // ----- cycles -----

  ghost predicate NegativeCycle(g: Digraph, w: seq<int>, start: nat, a: seq<nat>, c: seq<nat>, v: nat) {
    IsWalk(g, a, start, v) && IsWalk(g, c, v, v) && Weight(w, c) < 0
  }

  /** A cycle of negative weight can be reached. */
  ghost predicate HasNegativeCycle(g: Digraph, w: seq<int>, start: nat) {
    exists a: seq<nat>, c: seq<nat>, v: nat :: NegativeCycle(g, w, start, a, c, v)
  }

  ghost function Vertices(g: Digraph, p: seq<nat>, u: nat): (r: seq<nat>)
    requires forall k :: 0 <= k < |p| ==> p[k] < |g.ends|
    ensures |r| == |p| + 1 && forall i: nat :: i < |r| ==> r[i] == VertexAt(g, p, u, i)
  {
    seq(|p| + 1, i requires 0 <= i < |p| + 1 => VertexAt(g, p, u, i))
  }

  /** Without reachable negative cycles, fewer than `n` edges do as well as any number. */
  lemma {:induction false} ShortWalk(g: Digraph, w: seq<int>, start: nat, p: seq<nat>, v: nat) returns (q: seq<nat>)
    requires g.Valid() && start < g.n && IsWalk(g, p, start, v) && !HasNegativeCycle(g, w, start)
    ensures IsWalk(g, q, start, v) && Weight(w, q) <= Weight(w, p) && |q| < g.n
    decreases |p|
  {
    WalkEdges(g, p, start, v);
    var vs := Vertices(g, p, start);
    if NoDup(vs) {
      forall x | x in vs ensures x in Below(g.n) {
        var i :| 0 <= i < |vs| && vs[i] == x;
      }
      ElemsCard(vs);
      SubsetCard(Elems(vs), Below(g.n));
      q := p;
    } else {
      var i, j :| 0 <= i < j < |vs| && vs[i] == vs[j];
      var x := vs[i];
      WalkSplit(g, w, p, start, v, j);
      WalkSplit(g, w, p[..j], start, x, i);
      assert p[..j][..i] == p[..i] && VertexAt(g, p[..j], start, i) == x;
      assert !NegativeCycle(g, w, start, p[..i], p[..j][i..], x);
      WalkJoin(g, w, p[..i], p[j..], start, x, v);
      q := ShortWalk(g, w, start, p[..i] + p[j..], v);
    }
  }

  // ----- tables of distances -----

  type Dist = map<nat, (int, Option<nat>)>

  /** Some walk has just the recorded weight. */
  ghost predicate Attained(g: Digraph, w: seq<int>, start: nat, dist: Dist, v: nat) {
    v in dist && exists p :: IsWalk(g, p, start, v) && Weight(w, p) == dist[v].0
  }

  /** The recorded predecessor offers no more than the recorded distance. */
  ghost predicate PredOk(g: Digraph, w: seq<int>, start: nat, dist: Dist, v: nat) {
    && v in dist
    && match dist[v].1
       case None => v == start
       case Some(u) => u in dist && exists e ::
         0 <= e < |g.ends| && e < |w| && g.ends[e] == (u, v) && dist[v].0 >= dist[u].0 + w[e]
  }

  /** The recorded predecessor of the next node of `c` is the one before it. */
  ghost predicate Precedes(dist: Dist, c: seq<nat>, i: nat) {
    i + 1 < |c| && c[i + 1] in dist && dist[c[i + 1]].1 == Some(c[i])
  }

  /** Following predecessors from `v` one passes `c` backwards and comes to the start, which has none. */
  ghost predicate IsChain(dist: Dist, start: nat, c: seq<nat>, v: nat) {
    && c != [] && c[0] == start && c[|c| - 1] == v && start in dist && dist[start].1 == None
    && forall i: nat {:trigger Precedes(dist, c, i)} :: i + 1 < |c| ==> Precedes(dist, c, i)
  }

  ghost predicate HasChain(dist: Dist, start: nat, v: nat) {
    exists c :: IsChain(dist, start, c, v)
  }

  /** Predecessors never run in a circle. */
  ghost predicate Traceable(dist: Dist, start: nat) {
    forall v {:trigger HasChain(dist, start, v)} :: v in dist ==> HasChain(dist, start, v)
  }

  ghost predicate TableOk(g: Digraph, w: seq<int>, start: nat, dist: Dist) {
    && g.Valid() && |w| == |g.ends| && start < g.n
    && start in dist && dist[start].0 <= 0
    && (!HasNegativeCycle(g, w, start) ==> Traceable(dist, start))
    && (forall v {:trigger Attained(g, w, start, dist, v)} :: v in dist ==> Attained(g, w, start, dist, v))
    && forall v {:trigger PredOk(g, w, start, dist, v)} :: v in dist ==> PredOk(g, w, start, dist, v)
  }

  /** The edge offers nothing better. */
  ghost predicate Relaxed(g: Digraph, w: seq<int>, dist: Dist, e: nat) {
    e < |g.ends| && e < |w|
    && (g.ends[e].0 in dist ==> g.ends[e].1 in dist && dist[g.ends[e].1].0 <= dist[g.ends[e].0].0 + w[e])
  }

  ghost predicate AllRelaxed(g: Digraph, w: seq<int>, dist: Dist) {
    forall e: nat {:trigger Relaxed(g, w, dist, e)} :: e < |g.ends| ==> Relaxed(g, w, dist, e)
  }

  /** Recorded as no more than the weight of the walk. */
  ghost predicate Bounds(w: seq<int>, dist: Dist, v: nat, p: seq<nat>) {
    v in dist && dist[v].0 <= Weight(w, p)
  }

  /** Exactly the reachable nodes, each with its least walk weight and a predecessor on such a walk. */
  ghost predicate Shortest(g: Digraph, w: seq<int>, start: nat, dist: Dist) {
    && (forall v: nat {:trigger v in dist} :: v in dist <==> Reach(g.Arcs(), start, v))
    && (forall v {:trigger Attained(g, w, start, dist, v)} :: v in dist ==> Attained(g, w, start, dist, v))
    && (forall v, p {:trigger Bounds(w, dist, v, p)} :: IsWalk(g, p, start, v) ==> Bounds(w, dist, v, p))
    && (forall v {:trigger Traced(g, w, start, dist, v)} :: v in dist ==> Traced(g, w, start, dist, v))
  }

  /** The edges lead from the start, at distance nothing and without predecessor, to `v`, each from
      the recorded predecessor of its head and at just the recorded distances. */
  ghost predicate IsTrace(g: Digraph, w: seq<int>, start: nat, dist: Dist, p: seq<nat>, v: nat) {
    if p == [] then v == start && v in dist && dist[v] == (0, None)
    else
      var e := p[|p| - 1];
      && e < |g.ends| && e < |w| && g.ends[e].1 == v && v in dist && g.ends[e].0 in dist
      && dist[v] == (dist[g.ends[e].0].0 + w[e], Some(g.ends[e].0))
      && IsTrace(g, w, start, dist, p[..|p| - 1], g.ends[e].0)
  }

  ghost predicate Traced(g: Digraph, w: seq<int>, start: nat, dist: Dist, v: nat) {
    exists p :: IsTrace(g, w, start, dist, p, v)
  }

  /** The recorded predecessors lead back along a walk of just the recorded weight. */
  lemma {:induction false} TraceWalks(g: Digraph, w: seq<int>, start: nat, dist: Dist, p: seq<nat>, v: nat)
    requires IsTrace(g, w, start, dist, p, v)
    ensures IsWalk(g, p, start, v) && v in dist && Weight(w, p) == dist[v].0
  {
    if p != [] {
      TraceWalks(g, w, start, dist, p[..|p| - 1], g.ends[p[|p| - 1]].0);
    }
  }

  /** A chain with tight steps is a trace. */
  lemma {:induction false} ChainTraces(g: Digraph, w: seq<int>, start: nat, dist: Dist, c: seq<nat>, v: nat)
    requires IsChain(dist, start, c, v) && dist[start].0 == 0
    requires forall x {:trigger OnShortest(g, w, start, dist, x)} :: x in dist ==> OnShortest(g, w, start, dist, x)
    ensures Traced(g, w, start, dist, v)
    decreases |c|
  {
    if |c| == 1 {
      assert IsTrace(g, w, start, dist, [], v);
    } else {
      var k := |c| - 1;
      var b := c[..k];
      assert Precedes(dist, c, k - 1);
      forall i: nat | i + 1 < |b| ensures Precedes(dist, b, i) {
        assert Precedes(dist, c, i);
      }
      ChainTraces(g, w, start, dist, b, c[k - 1]);
      var p :| IsTrace(g, w, start, dist, p, c[k - 1]);
      assert OnShortest(g, w, start, dist, v);
      TraceWalks(g, w, start, dist, p, c[k - 1]);
      var e: nat :| e < |g.ends| && e < |w| && g.ends[e] == (c[k - 1], v) && dist[v].0 == dist[c[k - 1]].0 + w[e];
      assert (p + [e])[..|p|] == p;
      assert IsTrace(g, w, start, dist, p + [e], v);
    }
  }

  /** A table with tight predecessors traces every node back to the start. */
  lemma AllTraced(g: Digraph, w: seq<int>, start: nat, dist: Dist)
    requires TableOk(g, w, start, dist) && !HasNegativeCycle(g, w, start)
    requires forall v {:trigger OnShortest(g, w, start, dist, v)} :: v in dist ==> OnShortest(g, w, start, dist, v)
    ensures forall v {:trigger Traced(g, w, start, dist, v)} :: v in dist ==> Traced(g, w, start, dist, v)
  {
    assert Attained(g, w, start, dist, start);
    var c :| IsWalk(g, c, start, start) && Weight(w, c) == dist[start].0;
    assert IsWalk(g, [], start, start) && !NegativeCycle(g, w, start, [], c, start);
    forall v | v in dist ensures Traced(g, w, start, dist, v) {
      assert HasChain(dist, start, v);
      var b :| IsChain(dist, start, b, v);
      ChainTraces(g, w, start, dist, b, v);
    }
  }

  ghost predicate OnShortest(g: Digraph, w: seq<int>, start: nat, dist: Dist, v: nat) {
    && v in dist
    && match dist[v].1
       case None => v == start
       case Some(u) => u in dist && exists e ::
         0 <= e < |g.ends| && e < |w| && g.ends[e] == (u, v) && dist[v].0 == dist[u].0 + w[e]
  }

  lemma {:induction false} RelaxedBounds(g: Digraph, w: seq<int>, dist: Dist, u: nat, p: seq<nat>, v: nat)
    requires |w| == |g.ends| && AllRelaxed(g, w, dist) && u in dist && IsWalk(g, p, u, v)
    ensures v in dist && dist[v].0 <= dist[u].0 + Weight(w, p)
  {
    if p != [] {
      var e := p[|p| - 1];
      RelaxedBounds(g, w, dist, u, p[..|p| - 1], g.ends[e].0);
      assert Relaxed(g, w, dist, e);
    }
  }

  /** A table no edge can improve is exact, and no reachable cycle is negative. */
  lemma RelaxedIsShortest(g: Digraph, w: seq<int>, start: nat, dist: Dist)
    requires TableOk(g, w, start, dist) && AllRelaxed(g, w, dist)
    ensures Shortest(g, w, start, dist) && !HasNegativeCycle(g, w, start)
  {
    forall v, p | IsWalk(g, p, start, v) ensures Bounds(w, dist, v, p) {
      RelaxedBounds(g, w, dist, start, p, v);
    }
    forall v: nat ensures v in dist <==> Reach(g.Arcs(), start, v) {
      if v in dist {
        assert Attained(g, w, start, dist, v);
        var p :| IsWalk(g, p, start, v) && Weight(w, p) == dist[v].0;
        WalkReaches(g, p, start, v);
      }
      if Reach(g.Arcs(), start, v) {
        var p := WalkExists(g, start, v);
        RelaxedBounds(g, w, dist, start, p, v);
      }
    }
    forall v | v in dist ensures OnShortest(g, w, start, dist, v) {
      assert PredOk(g, w, start, dist, v);
      if dist[v].1.Some? {
        var u := dist[v].1.value;
        var e: nat :| e < |g.ends| && e < |w| && g.ends[e] == (u, v) && dist[v].0 >= dist[u].0 + w[e];
        assert Relaxed(g, w, dist, e);
      }
    }
    forall a: seq<nat>, c: seq<nat>, v: nat ensures !NegativeCycle(g, w, start, a, c, v) {
      if NegativeCycle(g, w, start, a, c, v) {
        RelaxedBounds(g, w, dist, start, a, v);
        RelaxedBounds(g, w, dist, v, c, v);
      }
    }
    AllTraced(g, w, start, dist);
  }

  /** Any two exact tables agree: on non-negative weights Dijkstra gives the distances Bellman-Ford gives. */
  lemma SameDistances(g: Digraph, w: seq<int>, start: nat, a: Dist, b: Dist)
    requires Shortest(g, w, start, a) && Shortest(g, w, start, b)
    ensures a.Keys == b.Keys && forall v :: v in a ==> a[v].0 == b[v].0
  {
    forall v: nat ensures v in a <==> v in b {
    }
    forall v | v in a ensures a[v].0 == b[v].0 {
      assert Attained(g, w, start, a, v) && Attained(g, w, start, b, v);
      var p :| IsWalk(g, p, start, v) && Weight(w, p) == a[v].0;
      var q :| IsWalk(g, q, start, v) && Weight(w, q) == b[v].0;
      assert Bounds(w, b, v, p) && Bounds(w, a, v, q);
    }
  }

  /** A table that an edge still improves, though it bounds every walk of fewer than `n` edges,
      betrays a negative cycle. */
  lemma BoundedIsRelaxed(g: Digraph, w: seq<int>, start: nat, dist: Dist, e: nat)
    requires TableOk(g, w, start, dist) && e < |g.ends| && !HasNegativeCycle(g, w, start)
    requires forall v, p {:trigger Bounds(w, dist, v, p)} :: IsWalk(g, p, start, v) && |p| < g.n ==>
               Bounds(w, dist, v, p)
    ensures Relaxed(g, w, dist, e)
  {
    var (t, h) := g.ends[e];
    if t in dist {
      assert Attained(g, w, start, dist, t);
      var p :| IsWalk(g, p, start, t) && Weight(w, p) == dist[t].0;
      assert (p + [e])[..|p|] == p;
      var q := ShortWalk(g, w, start, p + [e], h);
      assert Bounds(w, dist, h, q);
    }
  }

  lemma ImprovableMeansCycle(g: Digraph, w: seq<int>, start: nat, dist: Dist, e: nat)
    requires TableOk(g, w, start, dist) && e < |g.ends| && !Relaxed(g, w, dist, e)
    requires forall v, p {:trigger Bounds(w, dist, v, p)} :: IsWalk(g, p, start, v) && |p| < g.n ==>
               Bounds(w, dist, v, p)
    ensures HasNegativeCycle(g, w, start)
  {
    if !HasNegativeCycle(g, w, start) {
      BoundedIsRelaxed(g, w, start, dist, e);
    }
  }

  // ----- relaxing an edge -----

  function Relax(g: Digraph, w: seq<int>, dist: Dist, e: nat): Dist
    requires e < |g.ends| && |w| == |g.ends| && g.ends[e].0 in dist
  {
    var (t, h) := g.ends[e];
    var d := dist[t].0 + w[e];
    if h !in dist || d < dist[h].0 then dist[h := (d, Some(t))] else dist
  }

  ghost predicate Lower(dist: Dist, dist': Dist) {
    forall v {:trigger v in dist} {:trigger v in dist'} :: v in dist ==> v in dist' && dist'[v].0 <= dist[v].0
  }

  /** What a round has reached: walks of at most `r` edges, and of one more with the last below `j`. */
  ghost predicate Round(g: Digraph, w: seq<int>, start: nat, dist: Dist, r: nat, j: nat) {
    forall v, p {:trigger Bounds(w, dist, v, p)} ::
      IsWalk(g, p, start, v) && (|p| <= r || (|p| == r + 1 && p[r] < j)) ==> Bounds(w, dist, v, p)
  }

  /** A chain never comes back to a node: its last return would be to the start. */
  lemma {:induction false} ChainApart(dist: Dist, start: nat, c: seq<nat>, v: nat, i: nat, j: nat)
    requires IsChain(dist, start, c, v) && i < j < |c|
    ensures c[i] != c[j]
    decreases i
  {
    assert Precedes(dist, c, j - 1);
    if i > 0 {
      assert Precedes(dist, c, i - 1);
      ChainApart(dist, start, c, v, i - 1, j - 1);
    }
  }

  /** Along a chain the distances fall by at least the weights of its steps. */
  lemma {:induction false} ChainWalk(g: Digraph, w: seq<int>, start: nat, dist: Dist, c: seq<nat>, v: nat, i: nat)
    returns (q: seq<nat>)
    requires TableOk(g, w, start, dist) && IsChain(dist, start, c, v) && i < |c|
    ensures c[i] in dist && v in dist && IsWalk(g, q, c[i], v) && dist[v].0 >= dist[c[i]].0 + Weight(w, q)
    decreases |c|
  {
    var k := |c| - 1;
    if k > 0 {
      assert Precedes(dist, c, k - 1);
    }
    if i == k {
      q := [];
    } else {
      var b := c[..k];
      forall x: nat | x + 1 < |b| ensures Precedes(dist, b, x) {
        assert Precedes(dist, c, x);
      }
      var p := ChainWalk(g, w, start, dist, b, c[k - 1], i);
      assert PredOk(g, w, start, dist, v);
      var e: nat :| e < |g.ends| && e < |w| && g.ends[e] == (c[k - 1], v) && dist[v].0 >= dist[c[k - 1]].0 + w[e];
      q := p + [e];
      assert q[..|p|] == p;
    }
  }

  /** An edge that still improves a node on the chain of its own tail closes a negative cycle. */
  lemma HeadOffChain(g: Digraph, w: seq<int>, start: nat, dist: Dist, e: nat, c: seq<nat>, i: nat)
    requires TableOk(g, w, start, dist) && !HasNegativeCycle(g, w, start) && e < |g.ends| && g.ends[e].0 in dist
    requires g.ends[e].1 !in dist || dist[g.ends[e].0].0 + w[e] < dist[g.ends[e].1].0
    requires IsChain(dist, start, c, g.ends[e].0) && i < |c|
    ensures c[i] != g.ends[e].1
  {
    var (t, h) := g.ends[e];
    var q := ChainWalk(g, w, start, dist, c, t, i);
    assert (q + [e])[..|q|] == q;
    assert Attained(g, w, start, dist, c[i]);
    var a :| IsWalk(g, a, start, c[i]) && Weight(w, a) == dist[c[i]].0;
    assert !NegativeCycle(g, w, start, a, q + [e], c[i]);
  }

  /** A strict improvement keeps the predecessors free of circles. */
  lemma RelaxTraceable(g: Digraph, w: seq<int>, start: nat, dist: Dist, e: nat)
    requires TableOk(g, w, start, dist) && !HasNegativeCycle(g, w, start) && e < |g.ends| && g.ends[e].0 in dist
    requires g.ends[e].1 !in dist || dist[g.ends[e].0].0 + w[e] < dist[g.ends[e].1].0
    ensures Traceable(Relax(g, w, dist, e), start)
  {
    var (t, h) := g.ends[e];
    var dist' := Relax(g, w, dist, e);
    assert HasChain(dist, start, t);
    var ct :| IsChain(dist, start, ct, t);
    forall i: nat | i < |ct| ensures ct[i] != h {
      HeadOffChain(g, w, start, dist, e, ct, i);
    }
    forall i: nat | i + 1 < |ct| ensures Precedes(dist', ct, i) {
      assert Precedes(dist, ct, i);
    }
    forall v | v in dist' ensures HasChain(dist', start, v) {
      if v == h {
        ChainJoins(dist', start, ct, t, [h], h);
      } else {
        assert HasChain(dist, start, v);
        var c :| IsChain(dist, start, c, v);
        Rechained(dist, start, dist', h, t, ct, c, v);
      }
    }
  }

  /** A chain followed by steps each of which follows on. */
  lemma ChainJoins(dist: Dist, start: nat, a: seq<nat>, t: nat, b: seq<nat>, v: nat)
    requires IsChain(dist, start, a, t) && b != [] && b[|b| - 1] == v
    requires b[0] in dist && dist[b[0]].1 == Some(t)
    requires forall i: nat {:trigger Precedes(dist, b, i)} :: i + 1 < |b| ==> Precedes(dist, b, i)
    ensures HasChain(dist, start, v)
  {
    var c := a + b;
    forall i: nat | i + 1 < |c| ensures Precedes(dist, c, i) {
      if i + 1 < |a| {
        assert Precedes(dist, a, i);
      } else if i >= |a| {
        assert Precedes(dist, b, i - |a|);
      }
    }
    assert IsChain(dist, start, c, v);
  }

  lemma Rechained(dist: Dist, start: nat, dist': Dist, h: nat, t: nat, ct: seq<nat>, c: seq<nat>, v: nat)
    requires IsChain(dist', start, ct, t) && IsChain(dist, start, c, v) && h in dist' && dist'[h].1 == Some(t)
    requires forall x {:trigger x in dist} :: x in dist && x != h ==> x in dist' && dist'[x] == dist[x]
    ensures HasChain(dist', start, v)
  {
    if i: nat :| i < |c| && c[i] == h {
      var b := c[i..];
      forall k: nat | k + 1 < |b| ensures Precedes(dist', b, k) {
        assert Precedes(dist, c, i + k);
        ChainApart(dist, start, c, v, i, i + k + 1);
      }
      ChainJoins(dist', start, ct, t, b, v);
    } else {
      forall k: nat | k + 1 < |c| ensures Precedes(dist', c, k) {
        assert Precedes(dist, c, k);
      }
      assert IsChain(dist', start, c, v);
    }
  }

  lemma RelaxKeeps(g: Digraph, w: seq<int>, start: nat, dist: Dist, e: nat)
    requires TableOk(g, w, start, dist) && e < |g.ends| && g.ends[e].0 in dist
    requires g.ends[e].1 !in dist || dist[g.ends[e].0].0 + w[e] < dist[g.ends[e].1].0
    ensures TableOk(g, w, start, Relax(g, w, dist, e)) && Lower(dist, Relax(g, w, dist, e))
  {
    var (t, h) := g.ends[e];
    var dist' := Relax(g, w, dist, e);
    if !HasNegativeCycle(g, w, start) {
      RelaxTraceable(g, w, start, dist, e);
    }
    forall v | v in dist' ensures Attained(g, w, start, dist', v) {
      if v == h {
        assert Attained(g, w, start, dist, t);
        var p :| IsWalk(g, p, start, t) && Weight(w, p) == dist[t].0;
        assert (p + [e])[..|p|] == p;
        assert IsWalk(g, p + [e], start, h) && Weight(w, p + [e]) == dist'[h].0;
      } else {
        assert Attained(g, w, start, dist, v);
      }
    }
    forall v | v in dist' ensures PredOk(g, w, start, dist', v) {
      if v == h {
        assert g.ends[e] == (t, h) && dist'[h].0 >= dist'[t].0 + w[e];
      } else {
        assert PredOk(g, w, start, dist, v);
        if dist[v].1.Some? {
          var u := dist[v].1.value;
          var f :| 0 <= f < |g.ends| && f < |w| && g.ends[f] == (u, v) && dist[v].0 >= dist[u].0 + w[f];
          assert dist'[v].0 >= dist'[u].0 + w[f];
        }
      }
    }
  }

  lemma LowerRound(g: Digraph, w: seq<int>, start: nat, dist: Dist, dist': Dist, r: nat, j: nat)
    requires Round(g, w, start, dist, r, j) && Lower(dist, dist')
    ensures Round(g, w, start, dist', r, j)
  {
    forall v, p | IsWalk(g, p, start, v) && (|p| <= r || (|p| == r + 1 && p[r] < j)) ensures Bounds(w, dist', v, p) {
      assert Bounds(w, dist, v, p);
    }
  }

  /** Once edge `j` is relaxed, walks ending in it are bounded too. */
  lemma RoundNext(g: Digraph, w: seq<int>, start: nat, dist: Dist, r: nat, j: nat)
    requires |w| == |g.ends| && j < |g.ends| && Round(g, w, start, dist, r, j) && Relaxed(g, w, dist, j)
    ensures Round(g, w, start, dist, r, j + 1)
  {
    forall v, p | IsWalk(g, p, start, v) && (|p| <= r || (|p| == r + 1 && p[r] < j + 1)) ensures Bounds(w, dist, v, p) {
      if |p| == r + 1 && p[r] == j {
        assert p[..|p| - 1] == p[..r];
        assert Bounds(w, dist, g.ends[j].0, p[..r]);
      } else {
        assert Bounds(w, dist, v, p);
      }
    }
  }

  lemma RoundEnd(g: Digraph, w: seq<int>, start: nat, dist: Dist, r: nat)
    requires Round(g, w, start, dist, r, |g.ends|)
    ensures Round(g, w, start, dist, r + 1, 0)
  {
    forall v, p | IsWalk(g, p, start, v) && |p| <= r + 1 ensures Bounds(w, dist, v, p) {
      WalkEdges(g, p, start, v);
      assert Bounds(w, dist, v, p);
    }
  }

  // ----- Bellman-Ford -----

  /** While nothing has changed in this round, the edges passed are relaxed. */
  ghost predicate Steady(g: Digraph, w: seq<int>, dist: Dist, j: nat) {
    forall e: nat {:trigger Relaxed(g, w, dist, e)} :: e < j ==> Relaxed(g, w, dist, e)
  }

  ghost predicate FordInv(g: Digraph, w: seq<int>, start: nat, dist: Dist, r: nat, j: nat, changed: bool, settled: bool)
  {
    && TableOk(g, w, start, dist) && j <= |g.ends| && r < g.n
    && Round(g, w, start, dist, r, j)
    && (if changed then j > 0 else Steady(g, w, dist, j))
    && (settled ==> AllRelaxed(g, w, dist))
  }

  /** The event is what the edge before `j` offers. */
  ghost predicate IsEvent(g: Digraph, w: seq<int>, dist: Dist, j: nat, event: (nat, int, Option<nat>)) {
    && 0 < j <= |g.ends| && j <= |w|
    && var (t, h) := g.ends[j - 1];
       t in dist && event == (h, dist[t].0 + w[j - 1], Some(t))
  }

  /** Between edge `j` in round `r` and the edge before `j'` in round `r'`, which is the same or the
      next, no edge offers anything. */
  ghost predicate Passed(g: Digraph, w: seq<int>, dist: Dist, r: nat, j: nat, r': nat, j': nat) {
    && (r' == r || r' == r + 1)
    && forall e: nat {:trigger Relaxed(g, w, dist, e)} ::
         e < |g.ends| && (if r' == r then j <= e < j' - 1 else j <= e || e < j' - 1) ==> Relaxed(g, w, dist, e)
  }

  lemma FordStart(g: Digraph, w: seq<int>, start: nat)
    requires g.Valid() && |w| == |g.ends| && start < g.n
    ensures FordInv(g, w, start, map[start := (0, None)], 0, 0, false, false)
  {
    var dist: Dist := map[start := (0, None)];
    assert IsWalk(g, [], start, start) && Weight(w, []) == 0;
    assert Attained(g, w, start, dist, start);
    assert IsChain(dist, start, [start], start);
    assert HasChain(dist, start, start);
    forall v, p | IsWalk(g, p, start, v) && |p| <= 0 ensures Bounds(w, dist, v, p) {
    }
  }

  /** The next edge is looked at, and relaxed if it offers less. */
  lemma FordStep(g: Digraph, w: seq<int>, start: nat, dist: Dist, r: nat, j: nat, changed: bool)
    requires FordInv(g, w, start, dist, r, j, changed, false) && j < |g.ends|
    ensures var (t, h) := g.ends[j];
            if t in dist && (h !in dist || dist[t].0 + w[j] < dist[h].0)
            then FordInv(g, w, start, Relax(g, w, dist, j), r, j + 1, true, false)
            else FordInv(g, w, start, dist, r, j + 1, changed, false)
  {
    var (t, h) := g.ends[j];
    if t in dist && (h !in dist || dist[t].0 + w[j] < dist[h].0) {
      var dist' := Relax(g, w, dist, j);
      RelaxKeeps(g, w, start, dist, j);
      LowerRound(g, w, start, dist, dist', r, j);
      RelaxRound(g, w, start, dist, dist', r, j);
    } else {
      assert Relaxed(g, w, dist, j);
      RoundNext(g, w, start, dist, r, j);
    }
  }

  /** Walks that end in the relaxed edge are bounded by the table it was relaxed from; a loop of
      negative weight stays improvable all the same. */
  lemma RelaxRound(g: Digraph, w: seq<int>, start: nat, dist: Dist, dist': Dist, r: nat, j: nat)
    requires |w| == |g.ends| && j < |g.ends| && Round(g, w, start, dist, r, j) && Round(g, w, start, dist', r, j)
    requires g.ends[j].0 in dist && dist' == Relax(g, w, dist, j)
    ensures Round(g, w, start, dist', r, j + 1)
  {
    forall v, p | IsWalk(g, p, start, v) && (|p| <= r || (|p| == r + 1 && p[r] < j + 1))
      ensures Bounds(w, dist', v, p)
    {
      if |p| == r + 1 && p[r] == j {
        assert p[..|p| - 1] == p[..r];
        assert Bounds(w, dist, g.ends[j].0, p[..r]);
      } else {
        assert Bounds(w, dist', v, p);
      }
    }
  }

  datatype Outcome = Distances(dist: Dist) | NegativeCycleError

  class BellmanFord {
    ghost const graph: Digraph
    ghost const weight: seq<int>
    ghost const start: nat
    const edges: seq<(nat, nat, int)>
    const maxRounds: nat
    var dist: Dist
    var round: nat
    var edgeIdx: nat
    var earlyExit: bool
    var roundChanged: bool

    ghost predicate Valid()
      reads this
    {
      && FordInv(graph, weight, start, dist, round, edgeIdx, roundChanged, earlyExit)
      && Edges() && maxRounds == graph.n - 1
    }

    ghost predicate Edges()
      reads this
    {
      && |edges| == |graph.ends| == |weight|
      && forall e :: 0 <= e < |edges| ==> edges[e] == (graph.ends[e].0, graph.ends[e].1, weight[e])
    }

    constructor (g: Digraph, w: seq<int>, s: nat)
      requires g.Valid() && |w| == |g.ends| && s < g.n
      ensures Valid() && graph == g && weight == w && start == s
      ensures dist == map[s := (0, None)] && round == 0 && edgeIdx == 0 && !earlyExit && maxRounds == g.n - 1
    {
      graph, weight, start := g, w, s;
      edges := seq(|g.ends|, e requires 0 <= e < |g.ends| && |w| == |g.ends| => (g.ends[e].0, g.ends[e].1, w[e]));
      maxRounds := g.n - 1;
      dist := map[s := (0, None)];
      round, edgeIdx, earlyExit, roundChanged := 0, 0, false, false;
      new;
      FordStart(g, w, s);
    }

    /** The next improvement, if the rounds are not over. */
    method Next() returns (event: Option<(nat, int, Option<nat>)>)
      requires Valid()
      modifies this
      ensures Valid()
      ensures event.None? ==> earlyExit || round >= maxRounds
      ensures dist == if event.Some? then old(dist)[event.value.0 := (event.value.1, event.value.2)] else old(dist)
      ensures event.Some? ==> event.value.0 !in old(dist) || event.value.1 < old(dist)[event.value.0].0
      ensures event.Some? ==> IsEvent(graph, weight, old(dist), edgeIdx, event.value)
      ensures event.Some? ==> Passed(graph, weight, old(dist), old(round), old(edgeIdx), round, edgeIdx)
      ensures event.Some? ==> maxRounds - round < old(maxRounds - round)
                              || (round == old(round) && |edges| - edgeIdx < old(|edges| - edgeIdx))
    {
      if earlyExit {
        return None;
      }
      event := None;
      while true
        invariant Valid() && !earlyExit && event.None? && dist == old(dist)
        invariant Passed(graph, weight, dist, old(round), old(edgeIdx), round, edgeIdx + 1)
        invariant round > old(round) ==> !roundChanged
        invariant maxRounds - round < old(maxRounds - round)
                  || (round == old(round) && |edges| - edgeIdx <= old(|edges| - edgeIdx))
        decreases maxRounds - round, |edges| - edgeIdx
      {
        if round >= maxRounds {
          return None;
        }
        if edgeIdx >= |edges| {
          if !roundChanged {
            SteadyEnd(graph, weight, dist, edgeIdx);
            earlyExit := true;
            return None;
          }
          RoundEnd(graph, weight, start, dist, round);
          round := round + 1;
          edgeIdx := 0;
          roundChanged := false;
          if round >= maxRounds {
            return None;
          }
        }
        event := TryEdge();
        if event.Some? {
          return;
        }
      }
    }

    /** Look at the current edge and move past it. */
    method TryEdge() returns (event: Option<(nat, int, Option<nat>)>)
      requires Valid() && !earlyExit && edgeIdx < |edges|
      modifies this
      ensures Valid() && !earlyExit && edgeIdx == old(edgeIdx) + 1 && round == old(round)
      ensures dist == if event.Some? then old(dist)[event.value.0 := (event.value.1, event.value.2)] else old(dist)
      ensures event.Some? ==> event.value.0 !in old(dist) || event.value.1 < old(dist)[event.value.0].0
      ensures event.Some? ==> IsEvent(graph, weight, old(dist), edgeIdx, event.value)
      ensures event.None? ==> Relaxed(graph, weight, dist, old(edgeIdx)) && roundChanged == old(roundChanged)
    {
      event := None;
      FordStep(graph, weight, start, dist, round, edgeIdx, roundChanged);
      var (tail, head, w) := edges[edgeIdx];
      edgeIdx := edgeIdx + 1;
      if tail in dist {
        var newDist := dist[tail].0 + w;
        if head !in dist || newDist < dist[head].0 {
          dist := dist[head := (newDist, Some(tail))];
          roundChanged := true;
          event := Some((head, newDist, Some(tail)));
        }
      }
    }

    /** Run out the rounds and check: an error exactly when a negative cycle can be reached,
        otherwise exactly the shortest distances. */
    method Finish() returns (r: Outcome)
      requires Valid()
      modifies this
      ensures r.NegativeCycleError? <==> HasNegativeCycle(graph, weight, start)
      ensures r.Distances? ==> Shortest(graph, weight, start, r.dist)
    {
      var event := Some((0, 0, None));
      while event.Some?
        invariant Valid() && (event.None? ==> earlyExit || round >= maxRounds)
        decreases event.Some?, maxRounds - round, |edges| - edgeIdx
      {
        event := Next();
      }
      var e := 0;
      while e < |edges|
        invariant 0 <= e <= |edges| && Steady(graph, weight, dist, e)
      {
        var (tail, head, w) := edges[e];
        if tail in dist {
          var newDist := dist[tail].0 + w;
          if head !in dist || newDist < dist[head].0 {
            StillImprovable(graph, weight, start, dist, round, edgeIdx, roundChanged, earlyExit, e);
            return NegativeCycleError;
          }
        }
        assert Relaxed(graph, weight, dist, e);
        e := e + 1;
      }
      SteadyEnd(graph, weight, dist, e);
      RelaxedIsShortest(graph, weight, start, dist);
      r := Distances(dist);
    }
  }

  lemma SteadyEnd(g: Digraph, w: seq<int>, dist: Dist, j: nat)
    requires Steady(g, w, dist, j) && j >= |g.ends|
    ensures AllRelaxed(g, w, dist)
  {
  }

  lemma StillImprovable(g: Digraph, w: seq<int>, start: nat, dist: Dist, r: nat, j: nat, changed: bool, settled: bool,
                        e: nat)
    requires FordInv(g, w, start, dist, r, j, changed, settled) && (settled || r >= g.n - 1)
    requires e < |g.ends| && !Relaxed(g, w, dist, e)
    ensures HasNegativeCycle(g, w, start)
  {
    forall v, p | IsWalk(g, p, start, v) && |p| < g.n ensures Bounds(w, dist, v, p) {
    }
    ImprovableMeansCycle(g, w, start, dist, e);
  }

  // ----- Dijkstra -----

  ghost predicate Nonnegative(w: seq<int>) {
    forall e :: 0 <= e < |w| ==> w[e] >= 0
  }

  /** The heap holds every node with a distance not yet settled, under that distance. */
  ghost predicate FrontierOk(g: Digraph, dist: Dist, visited: set<nat>, heap: Heap) {
    && (forall v {:trigger dist[v]} :: v in dist && v !in visited ==> (dist[v].0, v) in heap)
    && (forall c: (int, nat) {:trigger EntryOk(g, dist, c)} :: c in heap ==> EntryOk(g, dist, c))
  }

  ghost predicate EntryOk(g: Digraph, dist: Dist, c: (int, nat)) {
    c.1 in dist && c.0 >= dist[c.1].0 && c.1 < g.n
  }

  /** Edges out of settled nodes, `except` edges of one of them perhaps aside, offer nothing more. */
  ghost predicate SettledOk(g: Digraph, w: seq<int>, start: nat, dist: Dist, visited: set<nat>, open: set<nat>) {
    && visited <= dist.Keys && (forall v :: v in visited ==> v < g.n)
    && (forall e: nat {:trigger Relaxed(g, w, dist, e)} :: e < |g.ends| && g.ends[e].0 in visited && e !in open ==>
          Relaxed(g, w, dist, e))
    && (forall v, p {:trigger Bounds(w, dist, v, p)} :: v in visited && IsWalk(g, p, start, v) ==>
          Bounds(w, dist, v, p))
  }

  ghost predicate DijkstraInv(g: Digraph, w: seq<int>, start: nat, dist: Dist, visited: set<nat>, heap: Heap,
                              open: set<nat>)
  {
    && TableOk(g, w, start, dist) && Nonnegative(w)
    && FrontierOk(g, dist, visited, heap) && SettledOk(g, w, start, dist, visited, open)
  }

  lemma {:induction false} WeightNonnegative(w: seq<int>, p: seq<nat>)
    requires Nonnegative(w)
    ensures Weight(w, p) >= 0
  {
    if p != [] {
      WeightNonnegative(w, p[..|p| - 1]);
    }
  }

  /** The settled part of a walk ends before a node on the heap, or the walk is settled throughout. */
  lemma {:induction false} FirstUnsettled(g: Digraph, w: seq<int>, start: nat, dist: Dist, visited: set<nat>,
                                          heap: Heap, p: seq<nat>, v: nat)
    returns (y: nat)
    requires DijkstraInv(g, w, start, dist, visited, heap, {}) && IsWalk(g, p, start, v) && v !in visited
    ensures y in dist && y !in visited && dist[y].0 <= Weight(w, p)
  {
    if p == [] {
      y := start;
    } else {
      var k := |p| - 1;
      var e := p[k];
      var u := g.ends[e].0;
      WeightNonnegative(w, [e]);
      if u in visited {
        assert Relaxed(g, w, dist, e) && Bounds(w, dist, u, p[..k]);
        y := v;
      } else {
        y := FirstUnsettled(g, w, start, dist, visited, heap, p[..k], u);
      }
    }
  }

  /** The lightest entry of the heap carries the exact distance of its node. */
  lemma PopIsExact(g: Digraph, w: seq<int>, start: nat, dist: Dist, visited: set<nat>, heap: Heap, c: (int, nat))
    requires DijkstraInv(g, w, start, dist, visited, heap, {})
    requires Lightest(heap, c) && c.1 !in visited
    ensures c.1 in dist && dist[c.1].0 == c.0 && c.1 < g.n
    ensures forall p {:trigger Bounds(w, dist, c.1, p)} :: IsWalk(g, p, start, c.1) ==> Bounds(w, dist, c.1, p)
  {
    assert EntryOk(g, dist, c);
    assert (dist[c.1].0, c.1) in heap;
    forall p | IsWalk(g, p, start, c.1) ensures Bounds(w, dist, c.1, p) {
      var y := FirstUnsettled(g, w, start, dist, visited, heap, p, c.1);
      assert (dist[y].0, y) in heap;
    }
  }

  lemma StaleStep(g: Digraph, w: seq<int>, start: nat, dist: Dist, visited: set<nat>, heap: Heap, c: (int, nat))
    requires DijkstraInv(g, w, start, dist, visited, heap, {}) && c in heap && c.1 in visited
    ensures DijkstraInv(g, w, start, dist, visited, heap - multiset{c}, {})
  {
    FrontierLess(g, dist, visited, heap, c);
  }

  lemma FrontierLess(g: Digraph, dist: Dist, visited: set<nat>, heap: Heap, c: (int, nat))
    requires FrontierOk(g, dist, visited, heap) && c in heap
    ensures FrontierOk(g, dist, visited + {c.1}, heap - multiset{c})
  {
    forall d: (int, nat) | d in heap - multiset{c} ensures EntryOk(g, dist, d) {
      assert d in heap;
    }
  }

  lemma SettleStep(g: Digraph, w: seq<int>, start: nat, dist: Dist, visited: set<nat>, heap: Heap, c: (int, nat))
    requires DijkstraInv(g, w, start, dist, visited, heap, {})
    requires Lightest(heap, c) && c.1 !in visited
    ensures c.1 in dist && dist[c.1].0 == c.0 && c.1 < g.n
    ensures DijkstraInv(g, w, start, dist, visited + {c.1}, heap - multiset{c}, Elems(g.outs[c.1]))
  {
    PopIsExact(g, w, start, dist, visited, heap, c);
    FrontierLess(g, dist, visited, heap, c);
    var x := c.1;
    forall e: nat | e < |g.ends| && g.ends[e].0 in visited + {x} && e !in Elems(g.outs[x])
      ensures Relaxed(g, w, dist, e)
    {
      assert g.Lists(g.outs[x], x, true);
    }
  }

  /** One edge out of the node being expanded. */
  lemma ExpandStep(g: Digraph, w: seq<int>, start: nat, dist: Dist, visited: set<nat>, heap: Heap, open: set<nat>,
                   x: nat, e: nat)
    requires DijkstraInv(g, w, start, dist, visited, heap, open) && x in visited && e < |g.ends| && g.ends[e].0 == x
    ensures var t := g.ends[e].1; var d := dist[x].0 + w[e];
            if t !in visited && (t !in dist || d < dist[t].0)
            then DijkstraInv(g, w, start, dist[t := (d, Some(x))], visited, heap + multiset{(d, t)}, open - {e})
            else DijkstraInv(g, w, start, dist, visited, heap, open - {e})
  {
    var t, d := g.ends[e].1, dist[x].0 + w[e];
    if t !in visited && (t !in dist || d < dist[t].0) {
      var dist' := dist[t := (d, Some(x))];
      RelaxKeeps(g, w, start, dist, e);
      assert dist' == Relax(g, w, dist, e);
      forall c: (int, nat) | c in heap + multiset{(d, t)} ensures EntryOk(g, dist', c) {
        assert c == (d, t) || EntryOk(g, dist, c);
      }
      forall f: nat | f < |g.ends| && g.ends[f].0 in visited && f !in open - {e} ensures Relaxed(g, w, dist', f) {
        if f != e {
          assert Relaxed(g, w, dist, f);
        }
      }
      forall v, p | v in visited && IsWalk(g, p, start, v) ensures Bounds(w, dist', v, p) {
        assert Bounds(w, dist, v, p);
      }
    } else if t in visited {
      ClosedEdgeRelaxed(g, w, start, dist, visited, heap, open, x, e);
    } else {
      assert Relaxed(g, w, dist, e);
    }
  }

  lemma ClosedEdgeRelaxed(g: Digraph, w: seq<int>, start: nat, dist: Dist, visited: set<nat>, heap: Heap,
                          open: set<nat>, x: nat, e: nat)
    requires DijkstraInv(g, w, start, dist, visited, heap, open) && x in visited && e < |g.ends| && g.ends[e].0 == x
    requires g.ends[e].1 in visited
    ensures Relaxed(g, w, dist, e)
  {
    assert Attained(g, w, start, dist, x);
    var p :| IsWalk(g, p, start, x) && Weight(w, p) == dist[x].0;
    assert (p + [e])[..|p|] == p;
    assert Bounds(w, dist, g.ends[e].1, p + [e]);
  }

  lemma NoneWaiting(g: Digraph, dist: Dist, visited: set<nat>)
    requires FrontierOk(g, dist, visited, multiset{})
    ensures forall v :: v in dist ==> v in visited
  {
    forall v | v in dist ensures v in visited {
      var entry := (dist[v].0, v);
      assert v in visited || entry in multiset{};
    }
  }

  lemma HeapEmpty(g: Digraph, w: seq<int>, start: nat, dist: Dist, visited: set<nat>)
    requires DijkstraInv(g, w, start, dist, visited, multiset{}, {})
    ensures Shortest(g, w, start, dist)
  {
    NoneWaiting(g, dist, visited);
    forall e: nat | e < |g.ends| ensures Relaxed(g, w, dist, e) {
    }
    RelaxedIsShortest(g, w, start, dist);
  }

  lemma DijkstraStart(g: Digraph, w: seq<int>, start: nat)
    requires g.Valid() && |w| == |g.ends| && start < g.n && Nonnegative(w)
    ensures DijkstraInv(g, w, start, map[start := (0, None)], {}, multiset{(0, start)}, {})
  {
    FordStart(g, w, start);
  }

  // ----- the order of settling -----

  /** No node settled before place `i` offers `v` as little as it has. */
  ghost predicate FirstOffer(g: Digraph, w: seq<int>, dist: Dist, order: seq<nat>, i: nat, v: nat) {
    && v in dist && i < |order| && dist[v].1 == Some(order[i])
    && forall e: nat {:trigger g.ends[e]} ::
         e < |g.ends| && e < |w| && g.ends[e].1 == v && g.ends[e].0 in order[..i] && g.ends[e].0 in dist ==>
           dist[g.ends[e].0].0 + w[e] > dist[v].0
  }

  /** The predecessor of `v` is the first settled node that offers what `v` has. */
  ghost predicate FirstPred(g: Digraph, w: seq<int>, dist: Dist, order: seq<nat>, v: nat) {
    v in dist && (dist[v].1.Some? ==> exists i: nat :: FirstOffer(g, w, dist, order, i, v))
  }

  /** Nodes settle once each, nearer ones first, and the first offer of the least distance counts. */
  ghost predicate Settling(g: Digraph, w: seq<int>, dist: Dist, order: seq<nat>) {
    && NoDup(order) && (forall v :: v in order ==> v in dist)
    && (forall i, j :: 0 <= i < j < |order| && order[i] in dist && order[j] in dist ==>
          dist[order[i]].0 <= dist[order[j]].0)
    && forall v {:trigger FirstPred(g, w, dist, order, v)} :: v in dist ==> FirstPred(g, w, dist, order, v)
  }

  /** Nothing on the heap is nearer than what has settled. */
  ghost predicate Ahead(dist: Dist, order: seq<nat>, heap: Heap) {
    forall c: Entry, x: nat {:trigger heap[c], x in order} ::
      c in heap && x in order && x in dist ==> dist[x].0 <= c.0
  }

  ghost predicate OrderInv(g: Digraph, w: seq<int>, dist: Dist, visited: set<nat>, heap: Heap, order: seq<nat>) {
    Settling(g, w, dist, order) && visited == Elems(order) && Ahead(dist, order, heap)
  }

  lemma SettleNext(g: Digraph, w: seq<int>, dist: Dist, visited: set<nat>, heap: Heap, order: seq<nat>, c: Entry)
    requires OrderInv(g, w, dist, visited, heap, order) && Lightest(heap, c) && c.1 !in visited
    requires c.1 in dist && dist[c.1].0 == c.0
    ensures OrderInv(g, w, dist, visited + {c.1}, heap - multiset{c}, order + [c.1])
  {
    var order' := order + [c.1];
    forall v | v in dist ensures FirstPred(g, w, dist, order', v) {
      assert FirstPred(g, w, dist, order, v);
      if dist[v].1.Some? {
        var i: nat :| FirstOffer(g, w, dist, order, i, v);
        assert order'[..i] == order[..i];
        assert FirstOffer(g, w, dist, order', i, v);
      }
    }
    forall i, j | 0 <= i < j < |order'| ensures dist[order'[i]].0 <= dist[order'[j]].0 {
      assert order'[i] in order;
      assert j < |order| ==> order'[j] == order[j];
    }
    assert forall d: Entry :: d in heap - multiset{c} ==> d in heap;
    assert forall x: nat :: x in order' <==> x in order || x == c.1;
  }

  /** A target that a newly settled node improves gets it as predecessor; earlier offers were dearer. */
  lemma OfferNext(g: Digraph, w: seq<int>, start: nat, dist: Dist, visited: set<nat>, heap: Heap, open: set<nat>,
                  order: seq<nat>, e: nat)
    requires DijkstraInv(g, w, start, dist, visited, heap, open) && OrderInv(g, w, dist, visited, heap, order)
    requires order != [] && e < |g.ends| && g.ends[e].0 == order[|order| - 1] && g.ends[e].1 !in visited
    requires forall f :: f in open ==> f < |g.ends| && g.ends[f].0 == order[|order| - 1]
    requires order[|order| - 1] in dist
    requires var d := dist[order[|order| - 1]].0 + w[e]; g.ends[e].1 !in dist || d < dist[g.ends[e].1].0
    ensures var d := dist[order[|order| - 1]].0 + w[e];
            OrderInv(g, w, dist[g.ends[e].1 := (d, Some(order[|order| - 1]))], visited,
                     heap + multiset{(d, g.ends[e].1)}, order)
  {
    var k := |order| - 1;
    var x, t := order[k], g.ends[e].1;
    var d := dist[x].0 + w[e];
    var dist' := dist[t := (d, Some(x))];
    forall f: nat | f < |g.ends| && g.ends[f].1 == t && g.ends[f].0 in order[..k]
      ensures dist[g.ends[f].0].0 + w[f] > d
    {
      var j :| 0 <= j < k && order[j] == g.ends[f].0;
      assert g.ends[f].0 in order && order[j] != order[k];
      assert Relaxed(g, w, dist, f);
    }
    forall v | v in dist' ensures FirstPred(g, w, dist', order, v) {
      if v == t {
        assert FirstOffer(g, w, dist', order, k, t);
      } else {
        assert FirstPred(g, w, dist, order, v);
        if dist[v].1.Some? {
          var i: nat :| FirstOffer(g, w, dist, order, i, v);
          forall f: nat | f < |g.ends| && g.ends[f].1 == v && g.ends[f].0 in order[..i] && g.ends[f].0 in dist'
            ensures dist'[g.ends[f].0].0 + w[f] > dist'[v].0
          {
            assert g.ends[f].0 in order;
          }
          assert FirstOffer(g, w, dist', order, i, v);
        }
      }
    }
    HeapAhead(g, w, dist, heap, order, t, d, Some(x));
    assert x in order;
  }

  lemma HeapAhead(g: Digraph, w: seq<int>, dist: Dist, heap: Heap, order: seq<nat>, t: nat, d: int, u: Option<nat>)
    requires Settling(g, w, dist, order) && Ahead(dist, order, heap) && order != [] && t !in order
    requires order[|order| - 1] in dist && d >= dist[order[|order| - 1]].0
    ensures Ahead(dist[t := (d, u)], order, heap + multiset{(d, t)})
  {
    var dist', heap' := dist[t := (d, u)], heap + multiset{(d, t)};
    forall c: Entry, x: nat | c in heap' && x in order && x in dist' ensures dist'[x].0 <= c.0 {
      var i :| 0 <= i < |order| && order[i] == x;
      assert i < |order| - 1 ==> dist[order[i]].0 <= dist[order[|order| - 1]].0;
      assert c == (d, t) || c in heap;
    }
  }

  /** What is recorded when the settled nodes are those of `order`, the goal perhaps not expanded:
      every entry traces back to the start, settled nodes are exact, and no edge out of an expanded
      node offers anything better. */
  ghost predicate Searched(g: Digraph, w: seq<int>, start: nat, dist: Dist, order: seq<nat>, expanded: nat) {
    && expanded <= |order| && Settling(g, w, dist, order)
    && (forall v {:trigger Traced(g, w, start, dist, v)} :: v in dist ==> Traced(g, w, start, dist, v))
    && (forall v, p {:trigger Bounds(w, dist, v, p)} :: v in order && IsWalk(g, p, start, v) ==> Bounds(w, dist, v, p))
    && (forall e: nat {:trigger Relaxed(g, w, dist, e)} ::
          e < |g.ends| && g.ends[e].0 in order[..expanded] ==> Relaxed(g, w, dist, e))
    && forall v {:trigger v in dist} :: v in dist && dist[v].1.Some? ==> dist[v].1.value in order[..expanded]
  }

  /** The goal is settled last, and every node strictly nearer before it. */
  ghost predicate EndsAtGoal(g: Digraph, w: seq<int>, start: nat, dist: Dist, order: seq<nat>, goal: nat) {
    && order != [] && order[|order| - 1] == goal && goal in dist && Searched(g, w, start, dist, order, |order| - 1)
    && forall v, p {:trigger IsWalk(g, p, start, v)} ::
         IsWalk(g, p, start, v) && Weight(w, p) < dist[goal].0 ==> v in order
  }

  /** All that can be reached has been settled and expanded. */
  ghost predicate EndsDry(g: Digraph, w: seq<int>, start: nat, dist: Dist, order: seq<nat>) {
    Shortest(g, w, start, dist) && Searched(g, w, start, dist, order, |order|) && Elems(order) == dist.Keys
  }

  /** `dijkstra_unchecked`; `order` is the order in which nodes are settled.  With a goal that can be
      reached the search ends as soon as that is settled. */
  method Dijkstra(g: Digraph, start: nat, goal: Option<nat>, w: seq<int>) returns (dist: Dist, ghost order: seq<nat>)
    requires g.Valid() && |w| == |g.ends| && start < g.n && Nonnegative(w)
    ensures if goal.Some? && Reach(g.Arcs(), start, goal.value)
            then EndsAtGoal(g, w, start, dist, order, goal.value)
            else EndsDry(g, w, start, dist, order)
  {
    dist := map[start := (0, None)];
    var visited, heap := {}, multiset{(0, start)};
    order := [];
    DijkstraStart(g, w, start);
    while heap != multiset{}
      invariant DijkstraInv(g, w, start, dist, visited, heap, {}) && OrderInv(g, w, dist, visited, heap, order)
      invariant goal.Some? ==> goal.value !in visited
      decreases g.n - |visited|, |heap|
    {
      var c := Lowest(heap);
      var (cost, node) := c;
      if node in visited {
        StaleStep(g, w, start, dist, visited, heap, c);
        StaleOrder(g, w, dist, visited, heap, order, c);
        heap := heap - multiset{c};
      } else {
        SettleStep(g, w, start, dist, visited, heap, c);
        SettleNext(g, w, dist, visited, heap, order, c);
        if goal == Some(node) {
          GoalSettled(g, w, start, dist, visited, heap, order, c);
          order := order + [node];
          return;
        }
        heap := heap - multiset{c};
        VisitedGrows(g, visited, node);
        visited := visited + {node};
        order := order + [node];
        dist, heap := Expand(g, w, start, dist, visited, heap, node, cost, order);
      }
    }
    HeapEmpty(g, w, start, dist, visited);
    AllSettled(g, w, start, dist, visited, order);
  }

  lemma StaleOrder(g: Digraph, w: seq<int>, dist: Dist, visited: set<nat>, heap: Heap, order: seq<nat>, c: Entry)
    requires OrderInv(g, w, dist, visited, heap, order)
    ensures OrderInv(g, w, dist, visited, heap - multiset{c}, order)
  {
    assert forall d: Entry :: d in heap - multiset{c} ==> d in heap;
  }

  lemma {:induction false} NoNegativeCycle(g: Digraph, w: seq<int>, start: nat)
    requires Nonnegative(w)
    ensures !HasNegativeCycle(g, w, start)
  {
    forall a: seq<nat>, c: seq<nat>, v: nat ensures !NegativeCycle(g, w, start, a, c, v) {
      WeightNonnegative(w, c);
    }
  }

  /** Predecessors are settled nodes, whose offers are taken up in full. */
  lemma PredsTight(g: Digraph, w: seq<int>, start: nat, dist: Dist, visited: set<nat>, heap: Heap, order: seq<nat>)
    requires DijkstraInv(g, w, start, dist, visited, heap, {}) && OrderInv(g, w, dist, visited, heap, order)
    ensures forall v {:trigger v in dist} :: v in dist && dist[v].1.Some? ==> dist[v].1.value in order
    ensures forall v {:trigger Traced(g, w, start, dist, v)} :: v in dist ==> Traced(g, w, start, dist, v)
  {
    forall v | v in dist && dist[v].1.Some? ensures dist[v].1.value in order {
      assert FirstPred(g, w, dist, order, v);
      var i: nat :| FirstOffer(g, w, dist, order, i, v);
    }
    forall v | v in dist ensures OnShortest(g, w, start, dist, v) {
      assert PredOk(g, w, start, dist, v);
      if dist[v].1.Some? {
        var u := dist[v].1.value;
        var e: nat :| e < |g.ends| && e < |w| && g.ends[e] == (u, v) && dist[v].0 >= dist[u].0 + w[e];
        assert u in order;
        assert Relaxed(g, w, dist, e);
      }
    }
    NoNegativeCycle(g, w, start);
    AllTraced(g, w, start, dist);
  }

  lemma GoalSettled(g: Digraph, w: seq<int>, start: nat, dist: Dist, visited: set<nat>, heap: Heap, order: seq<nat>,
                    c: Entry)
    requires DijkstraInv(g, w, start, dist, visited, heap, {}) && OrderInv(g, w, dist, visited, heap, order)
    requires Lightest(heap, c) && c.1 !in visited
    ensures EndsAtGoal(g, w, start, dist, order + [c.1], c.1) && Reach(g.Arcs(), start, c.1)
  {
    var goal, order' := c.1, order + [c.1];
    PopIsExact(g, w, start, dist, visited, heap, c);
    SettleNext(g, w, dist, visited, heap, order, c);
    PredsTight(g, w, start, dist, visited, heap, order);
    assert order'[..|order|] == order;
    forall v, p | v in order' && IsWalk(g, p, start, v) ensures Bounds(w, dist, v, p) {
      assert v in order || v == goal;
    }
    forall e: nat | e < |g.ends| && g.ends[e].0 in order ensures Relaxed(g, w, dist, e) {
      assert g.ends[e].0 in visited;
    }
    assert Searched(g, w, start, dist, order', |order|);
    forall v, p | IsWalk(g, p, start, v) && Weight(w, p) < dist[goal].0 ensures v in order' {
      if v !in visited {
        FartherWaits(g, w, start, dist, visited, heap, c, v, p);
      }
    }
    assert Attained(g, w, start, dist, goal);
    var q :| IsWalk(g, q, start, goal) && Weight(w, q) == dist[goal].0;
    WalkReaches(g, q, start, goal);
  }

  lemma FartherWaits(g: Digraph, w: seq<int>, start: nat, dist: Dist, visited: set<nat>, heap: Heap, c: Entry,
                      v: nat, p: seq<nat>)
    requires DijkstraInv(g, w, start, dist, visited, heap, {}) && Lightest(heap, c)
    requires IsWalk(g, p, start, v) && v !in visited
    ensures c.0 <= Weight(w, p)
  {
    var y := FirstUnsettled(g, w, start, dist, visited, heap, p, v);
    assert (dist[y].0, y) in heap;
  }

  lemma AllSettled(g: Digraph, w: seq<int>, start: nat, dist: Dist, visited: set<nat>, order: seq<nat>)
    requires DijkstraInv(g, w, start, dist, visited, multiset{}, {})
    requires OrderInv(g, w, dist, visited, multiset{}, order) && Shortest(g, w, start, dist)
    ensures EndsDry(g, w, start, dist, order)
    ensures forall v: nat :: Reach(g.Arcs(), start, v) ==> v in visited
  {
    NoneWaiting(g, dist, visited);
    PredsTight(g, w, start, dist, visited, multiset{}, order);
    assert order[..|order|] == order;
    assert dist.Keys == Elems(order);
    forall e: nat | e < |g.ends| && g.ends[e].0 in order ensures Relaxed(g, w, dist, e) {
      assert g.ends[e].0 in visited;
    }
  }

  lemma VisitedGrows(g: Digraph, visited: set<nat>, x: nat)
    requires x !in visited && x < g.n && forall v :: v in visited ==> v < g.n
    ensures |visited| < |visited + {x}| <= g.n
  {
    SubsetCard(visited + {x}, Below(g.n));
  }

  /** Relax the edges out of a node just settled. */
  method Expand(g: Digraph, w: seq<int>, ghost start: nat, dist0: Dist, visited: set<nat>, heap0: Heap, node: nat,
                cost: int, ghost order: seq<nat>)
    returns (dist: Dist, heap: Heap)
    requires node in visited && node < g.n && g.Valid() && order != [] && order[|order| - 1] == node
    requires OrderInv(g, w, dist0, visited, heap0, order)
    requires DijkstraInv(g, w, start, dist0, visited, heap0, Elems(g.outs[node])) && node in dist0
    requires dist0[node].0 == cost
    ensures DijkstraInv(g, w, start, dist, visited, heap, {}) && OrderInv(g, w, dist, visited, heap, order)
  {
    dist, heap := dist0, heap0;
    var edges := g.outs[node];
    assert g.Lists(edges, node, true);
    var i := 0;
    while i < |edges|
      invariant 0 <= i <= |edges| && DijkstraInv(g, w, start, dist, visited, heap, Elems(edges[i..]))
      invariant node in dist && dist[node].0 == cost && OrderInv(g, w, dist, visited, heap, order)
    {
      var e := edges[i];
      var target := g.ends[e].1;
      ExpandStep(g, w, start, dist, visited, heap, Elems(edges[i..]), node, e);
      assert Elems(edges[i..]) - {e} == Elems(edges[i + 1..]) by {
        assert edges[i..] == [e] + edges[i + 1..];
      }
      if target !in visited {
        var newDist := cost + w[e];
        if target !in dist || newDist < dist[target].0 {
          OfferNext(g, w, start, dist, visited, heap, Elems(edges[i..]), order, e);
          dist := dist[target := (newDist, Some(node))];
          heap := heap + multiset{(newDist, target)};
        }
      }
      i := i + 1;
    }
    assert Elems(edges[i..]) == {};
  }
}
