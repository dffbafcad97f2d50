/** Strongly connected components condensed to single nodes (`src/algo/connectivity.rs`). */
module Condensation {
  import opened Seqs
  import opened Graphs
  import opened LinkedStore
  import opened LinkedGraph
  import opened LinkedDigraph
  import opened Tarjan

  /** An edge of `g` before the `k`th leads from component `a` to component `b`. */
  ghost predicate CrossedBy(g: Digraph, comps: seq<seq<nat>>, k: nat, a: nat, b: nat, e: nat) {
    e < k && e < |g.ends| && In(comps, a, g.ends[e].0) && In(comps, b, g.ends[e].1)
  }

  ghost predicate Crossed(g: Digraph, comps: seq<seq<nat>>, makeAcyclic: bool, k: nat, a: nat, b: nat) {
    (makeAcyclic ==> a != b) && exists e: nat :: CrossedBy(g, comps, k, a, b, e)
  }

  /** Some edge leads from `p.0` to `p.1` while none up to it leads from `q.0` to `q.1`. */
  ghost predicate CrossedSooner(g: Digraph, comps: seq<seq<nat>>, k: nat, p: (nat, nat), q: (nat, nat)) {
    exists e: nat :: CrossedBy(g, comps, k, p.0, p.1, e) && NotYet(g, comps, k, q, e)
  }

  ghost predicate NotYet(g: Digraph, comps: seq<seq<nat>>, k: nat, q: (nat, nat), e: nat) {
    forall f: nat {:trigger CrossedBy(g, comps, k, q.0, q.1, f)} :: f <= e ==> !CrossedBy(g, comps, k, q.0, q.1, f)
  }

  /** `ends` lists, each once and in the order of the first such edge, the pairs of components that
      the first `k` edges lead between. */
  ghost predicate Crossings(g: Digraph, comps: seq<seq<nat>>, makeAcyclic: bool, k: nat, ends: seq<(nat, nat)>) {
    && NoDup(ends)
    && (forall a: nat, b: nat {:trigger Crossed(g, comps, makeAcyclic, k, a, b)} :: (a, b) in ends <==>
          Crossed(g, comps, makeAcyclic, k, a, b))
    && forall i, j {:trigger ends[i], ends[j]} :: 0 <= i < j < |ends| ==> CrossedSooner(g, comps, k, ends[i], ends[j])
  }

  /** The graph `h` has a node for each component and one edge for each pair with an edge between. */
  ghost predicate Condenses(g: Digraph, comps: seq<seq<nat>>, makeAcyclic: bool, h: Digraph) {
    h.Valid() && h.n == |comps| && Crossings(g, comps, makeAcyclic, |g.ends|, h.ends)
  }

  // ----- what the condensed graph says of the original -----

  /** One component reaches another just when their members do. */
  lemma CondensedReach(g: Digraph, comps: seq<seq<nat>>, makeAcyclic: bool, h: Digraph, a: nat, b: nat, u: nat, v: nat)
    requires g.Valid() && ComponentPartition(g, comps) && Condenses(g, comps, makeAcyclic, h) && In(comps, a, u)
    requires In(comps, b, v)
    ensures Reach(h.Arcs(), a, b) <==> Reach(g.Arcs(), u, v)
  {
    if Reach(h.Arcs(), a, b) {
      var q :| PathFrom(h.Arcs(), q, a, b);
      MembersReached(g, comps, makeAcyclic, h, q, u, |q| - 1, v);
    }
    if Reach(g.Arcs(), u, v) {
      var p :| PathFrom(g.Arcs(), p, u, v);
      var c := ComponentReached(g, comps, makeAcyclic, h, p, a, |p| - 1);
      OneComponent(g, comps, b, c, v);
    }
  }

  lemma OneComponent(g: Digraph, comps: seq<seq<nat>>, b: nat, c: nat, v: nat)
    requires ComponentPartition(g, comps) && In(comps, b, v) && In(comps, c, v)
    ensures b == c
  {
    ReachRefl(g.Arcs(), v);
    assert SameComponent(g, v, v);
  }

  lemma {:induction false} ComponentReached(g: Digraph, comps: seq<seq<nat>>, makeAcyclic: bool, h: Digraph,
                                            p: seq<nat>, a: nat, k: nat) returns (c: nat)
    requires ComponentPartition(g, comps) && Condenses(g, comps, makeAcyclic, h) && IsPath(g.Arcs(), p)
    requires In(comps, a, p[0]) && k < |p|
    requires g.Valid()
    ensures In(comps, c, p[k]) && Reach(h.Arcs(), a, c)
  {
    if k == 0 {
      ReachRefl(h.Arcs(), a);
      c := a;
    } else {
      var c0 := ComponentReached(g, comps, makeAcyclic, h, p, a, k - 1);
      assert (p[k - 1], p[k]) in g.Arcs();
      ArcBounds(g, p[k - 1], p[k]);
      assert Tarjan.Placed(comps, p[k]);
      c :| In(comps, c, p[k]);
      if c != c0 {
        var e: nat :| e < |g.ends| && g.ends[e] == (p[k - 1], p[k]);
        assert CrossedBy(g, comps, |g.ends|, c0, c, e);
        assert Crossed(g, comps, makeAcyclic, |g.ends|, c0, c);
        ReachStep(h.Arcs(), a, c0, c);
      }
    }
  }

  lemma {:induction false} MembersReached(g: Digraph, comps: seq<seq<nat>>, makeAcyclic: bool, h: Digraph, q: seq<nat>,
                                          u: nat, k: nat, v: nat)
    requires ComponentPartition(g, comps) && Condenses(g, comps, makeAcyclic, h) && IsPath(h.Arcs(), q)
    requires In(comps, q[0], u)
    requires k < |q| && In(comps, q[k], v)
    ensures Reach(g.Arcs(), u, v)
    decreases k
  {
    if k == 0 {
      assert SameComponent(g, u, v);
    } else {
      assert (q[k - 1], q[k]) in h.Arcs();
      assert Crossed(g, comps, makeAcyclic, |g.ends|, q[k - 1], q[k]);
      var e: nat :| CrossedBy(g, comps, |g.ends|, q[k - 1], q[k], e);
      var (x, y) := g.ends[e];
      MembersReached(g, comps, makeAcyclic, h, q, u, k - 1, x);
      assert (x, y) in g.Arcs();
      ReachStep(g.Arcs(), u, x, y);
      assert SameComponent(g, y, v);
      ReachTrans(g.Arcs(), u, y, v);
    }
  }

  /** Every edge leads from a later component to an earlier one, unless it is a loop. */
  lemma CondensedFalls(g: Digraph, comps: seq<seq<nat>>, makeAcyclic: bool, h: Digraph, a: nat, b: nat)
    requires ComponentPartition(g, comps) && Condenses(g, comps, makeAcyclic, h) && (a, b) in h.Arcs()
    ensures b <= a && (makeAcyclic ==> b < a)
  {
    assert Crossed(g, comps, makeAcyclic, |g.ends|, a, b);
    var e: nat :| CrossedBy(g, comps, |g.ends|, a, b, e);
    assert (g.ends[e].0, g.ends[e].1) in g.Arcs();
  }

  /** Without the loops no cycle is left. */
  lemma CondensedIsDag(g: Digraph, comps: seq<seq<nat>>, h: Digraph)
    requires ComponentPartition(g, comps) && Condenses(g, comps, true, h)
    ensures IsDag(h)
  {
    forall a: nat, b: nat | (a, b) in h.Arcs() ensures !Reach(h.Arcs(), b, a) {
      CondensedFalls(g, comps, true, h, a, b);
      forall x: nat, y: nat | (x, y) in h.Arcs() && x in Below(b + 1) ensures y in Below(b + 1) {
        CondensedFalls(g, comps, true, h, x, y);
      }
      if Reach(h.Arcs(), b, a) {
        ReachStays(h.Arcs(), Below(b + 1), b, a);
      }
    }
  }

  // ----- the construction -----

  /** The component of every node. */
  method TagNodes(ghost g: Digraph, comps: seq<seq<nat>>) returns (tags: map<nat, nat>)
    requires ComponentPartition(g, comps)
    ensures forall v: nat :: v < g.n ==> v in tags
    ensures forall v: nat, k: nat {:trigger In(comps, k, v)} :: In(comps, k, v) <==> v in tags && tags[v] == k
  {
    tags := map[];
    for i := 0 to |comps|
      invariant forall v: nat :: v in tags ==> tags[v] < i && In(comps, tags[v], v)
      invariant forall v: nat, k: nat {:trigger In(comps, k, v)} :: k < i && In(comps, k, v) ==> v in tags
    {
      for j := 0 to |comps[i]|
        invariant forall v: nat :: v in tags ==> tags[v] <= i && In(comps, tags[v], v)
        invariant forall v: nat, k: nat {:trigger In(comps, k, v)} :: k < i && In(comps, k, v) ==> v in tags
        invariant forall l :: 0 <= l < j ==> comps[i][l] in tags
      {
        var v := comps[i][j];
        assert In(comps, i, v);
        tags := tags[v := i];
      }
      forall v: nat | v in tags ensures tags[v] < i + 1 {
      }
    }
    forall v: nat, k: nat | In(comps, k, v) ensures v in tags && tags[v] == k {
      OneComponent(g, comps, k, tags[v], v);
    }
    forall v: nat | v < g.n ensures v in tags {
      assert Tarjan.Placed(comps, v);
    }
  }

  ghost function Ends(condensed: Store<seq<nat>, ()>): seq<(nat, nat)> {
    DigraphOf(condensed, Pair([], [])).ends
  }

  /** `condensation`. */
  method Condensed(g: Digraph, makeAcyclic: bool)
    returns (condensed: LinkedAdjEdgeGraph<seq<nat>, ()>, ghost comps: seq<seq<nat>>)
    requires g.Valid()
    ensures fresh(condensed) && condensed.Valid() && ComponentPartition(g, comps) && AsLeft(Whole(g), comps)
    ensures |condensed.nodes| == |comps| && forall k :: 0 <= k < |comps| ==> condensed.nodes[k].value == comps[k]
    ensures Condenses(g, comps, makeAcyclic, DigraphOf(condensed.S(), condensed.chains))
  {
    var sccs := StronglyConnected(g);
    comps := sccs;
    var tags := TagNodes(g, sccs);
    condensed := OneNodeEach(sccs);
    var seen: set<(nat, nat)> := {};
    CrossingsNone(g, sccs, makeAcyclic);
    for k := 0 to |g.ends|
      invariant fresh(condensed) && Building(g, sccs, makeAcyclic, k, condensed, seen)
    {
      seen := AddCrossing(g, sccs, makeAcyclic, k, tags, condensed, seen);
    }
    StoreIsDigraph(condensed.S(), condensed.chains);
    assert DigraphOf(condensed.S(), condensed.chains).ends == Ends(condensed.S());
  }

  method OneNodeEach(sccs: seq<seq<nat>>) returns (condensed: LinkedAdjEdgeGraph<seq<nat>, ()>)
    ensures fresh(condensed) && condensed.Valid() && |condensed.nodes| == |sccs| && condensed.edges == []
    ensures forall k :: 0 <= k < |sccs| ==> condensed.nodes[k].value == sccs[k]
  {
    condensed := new LinkedAdjEdgeGraph();
    for i := 0 to |sccs|
      invariant fresh(condensed) && condensed.Valid() && |condensed.nodes| == i && condensed.edges == []
      invariant forall k :: 0 <= k < i ==> condensed.nodes[k].value == sccs[k]
    {
      var ix := condensed.InsertNode(sccs[i]);
    }
  }

  /** The first `k` edges have been carried over; `seen` holds the pairs joined so far. */
  ghost predicate Building(g: Digraph, comps: seq<seq<nat>>, makeAcyclic: bool, k: nat,
                           condensed: LinkedAdjEdgeGraph<seq<nat>, ()>, seen: set<(nat, nat)>)
    reads condensed
  {
    && condensed.Valid() && |condensed.nodes| == |comps|
    && (forall j :: 0 <= j < |comps| ==> condensed.nodes[j].value == comps[j])
    && Crossings(g, comps, makeAcyclic, k, Ends(condensed.S())) && seen == Elems(Ends(condensed.S()))
  }

  method AddCrossing(g: Digraph, ghost comps: seq<seq<nat>>, makeAcyclic: bool, k: nat, tags: map<nat, nat>,
                     condensed: LinkedAdjEdgeGraph<seq<nat>, ()>, seen0: set<(nat, nat)>)
    returns (seen: set<(nat, nat)>)
    requires Building(g, comps, makeAcyclic, k, condensed, seen0) && k < |g.ends|
    requires g.ends[k].0 in tags && g.ends[k].1 in tags
    requires forall v: nat, k: nat {:trigger In(comps, k, v)} :: In(comps, k, v) <==> v in tags && tags[v] == k
    modifies condensed
    ensures Building(g, comps, makeAcyclic, k + 1, condensed, seen)
  {
    var (tail, head) := g.ends[k];
    var sccTail, sccHead := tags[tail], tags[head];
    seen := seen0;
    assert In(comps, sccTail, tail) && In(comps, sccHead, head);
    ghost var before := Ends(condensed.S());
    CrossingsNext(g, comps, makeAcyclic, k, before, tags);
    if makeAcyclic && sccTail == sccHead {
    } else if (sccTail, sccHead) !in seen {
      seen := seen + {(sccTail, sccHead)};
      ghost var s0 := condensed.S();
      var ix := condensed.InsertEdge((), sccTail, sccHead);
      EndsAppended(s0, condensed.S(), sccTail, sccHead);
    }
  }

  lemma EndsAppended(s: Store<seq<nat>, ()>, s': Store<seq<nat>, ()>, a: nat, b: nat)
    requires |s'.edges| == |s.edges| + 1 && s'.edges[..|s.edges|] == s.edges
    requires s'.edges[|s.edges|].node == LinkedStore.Pair(a, b)
    ensures Ends(s') == Ends(s) + [(a, b)] && Elems(Ends(s')) == Elems(Ends(s)) + {(a, b)}
  {
    assert forall e: nat :: e < |s.edges| ==> s'.edges[e] == s'.edges[..|s.edges|][e];
    assert Ends(s') == Ends(s) + [(a, b)];
  }

  lemma CrossingsNone(g: Digraph, comps: seq<seq<nat>>, makeAcyclic: bool)
    ensures Crossings(g, comps, makeAcyclic, 0, [])
  {
  }

  /** What one more edge adds. */
  lemma CrossingsNext(g: Digraph, comps: seq<seq<nat>>, makeAcyclic: bool, k: nat, ends: seq<(nat, nat)>,
                      tags: map<nat, nat>)
    requires Crossings(g, comps, makeAcyclic, k, ends) && k < |g.ends| && g.ends[k].0 in tags && g.ends[k].1 in tags
    requires forall v: nat, k: nat {:trigger In(comps, k, v)} :: In(comps, k, v) <==> v in tags && tags[v] == k
    ensures var p := (tags[g.ends[k].0], tags[g.ends[k].1]);
            Crossings(g, comps, makeAcyclic, k + 1, if (makeAcyclic && p.0 == p.1) || p in ends then ends
                      else ends + [p])
  {
    var p := (tags[g.ends[k].0], tags[g.ends[k].1]);
    var ends' := if (makeAcyclic && p.0 == p.1) || p in ends then ends else ends + [p];
    forall a: nat, b: nat ensures (a, b) in ends' <==> Crossed(g, comps, makeAcyclic, k + 1, a, b) {
      assert (a, b) in ends <==> Crossed(g, comps, makeAcyclic, k, a, b);
      CrossedNext(g, comps, makeAcyclic, k, tags, a, b);
    }
    forall i, j | 0 <= i < j < |ends'| ensures CrossedSooner(g, comps, k + 1, ends'[i], ends'[j]) {
      SoonerKept(g, comps, makeAcyclic, k, ends, ends'[i], ends'[j], j);
    }
  }

  lemma SoonerKept(g: Digraph, comps: seq<seq<nat>>, makeAcyclic: bool, k: nat, ends: seq<(nat, nat)>,
                   p: (nat, nat), q: (nat, nat), j: nat)
    requires Crossings(g, comps, makeAcyclic, k, ends) && p in ends && (makeAcyclic ==> q.0 != q.1)
    requires q !in ends || CrossedSooner(g, comps, k, p, q)
    ensures CrossedSooner(g, comps, k + 1, p, q)
  {
    var e: nat;
    if q in ends {
      e :| CrossedBy(g, comps, k, p.0, p.1, e) && NotYet(g, comps, k, q, e);
    } else {
      assert (p.0, p.1) in ends && (q.0, q.1) !in ends;
      assert Crossed(g, comps, makeAcyclic, k, p.0, p.1) && !Crossed(g, comps, makeAcyclic, k, q.0, q.1);
      e :| CrossedBy(g, comps, k, p.0, p.1, e);
    }
    assert CrossedBy(g, comps, k + 1, p.0, p.1, e);
    forall f: nat {:trigger CrossedBy(g, comps, k + 1, q.0, q.1, f)} | f <= e
      ensures !CrossedBy(g, comps, k + 1, q.0, q.1, f)
    {
      assert !CrossedBy(g, comps, k, q.0, q.1, f);
    }
  }

  lemma CrossedNext(g: Digraph, comps: seq<seq<nat>>, makeAcyclic: bool, k: nat, tags: map<nat, nat>, a: nat, b: nat)
    requires k < |g.ends| && g.ends[k].0 in tags && g.ends[k].1 in tags
    requires forall v: nat, k: nat {:trigger In(comps, k, v)} :: In(comps, k, v) <==> v in tags && tags[v] == k
    ensures Crossed(g, comps, makeAcyclic, k + 1, a, b) <==>
            || Crossed(g, comps, makeAcyclic, k, a, b)
            || ((makeAcyclic ==> a != b) && a == tags[g.ends[k].0] && b == tags[g.ends[k].1])
  {
    if Crossed(g, comps, makeAcyclic, k + 1, a, b) {
      var e: nat :| CrossedBy(g, comps, k + 1, a, b, e);
      assert e < k ==> CrossedBy(g, comps, k, a, b, e);
    }
    if Crossed(g, comps, makeAcyclic, k, a, b) {
      var e: nat :| CrossedBy(g, comps, k, a, b, e);
      assert CrossedBy(g, comps, k + 1, a, b, e);
    }
    if a == tags[g.ends[k].0] && b == tags[g.ends[k].1] {
      assert CrossedBy(g, comps, k + 1, a, b, k);
    }
  }
}
