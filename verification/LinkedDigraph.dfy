/** The linked storage read as the directed multigraph that the algorithms work on. */
module LinkedDigraph {
  import opened Graphs
  import opened LinkedStore

  function DigraphOf<N, E>(s: Store<N, E>, ch: Chains): Digraph {
    Digraph(|s.nodes|, seq(|s.edges|, e requires 0 <= e < |s.edges| => (s.edges[e].node.out, s.edges[e].node.inn)),
            ch.out, ch.inn)
  }

  /** Integrity of the storage is all the algorithms ask: walking the chains of a node lists, each
      once, exactly the edges at it. */
  lemma StoreIsDigraph<N, E>(s: Store<N, E>, ch: Chains)
    requires WellFormed(s, ch)
    ensures DigraphOf(s, ch).Valid()
  {
    var g := DigraphOf(s, ch);
    forall e | 0 <= e < |g.ends| ensures g.ends[e].0 < g.n && g.ends[e].1 < g.n {
      assert Placed(s, ch, Outgoing, e) && Placed(s, ch, Incoming, e);
    }
    forall v | 0 <= v < g.n ensures g.Lists(g.outs[v], v, true) && g.Lists(g.ins[v], v, false) {
      ChainLists(s, ch, v, true);
      ChainLists(s, ch, v, false);
    }
  }

  lemma ChainLists<N, E>(s: Store<N, E>, ch: Chains, v: nat, tail: bool)
    requires WellFormed(s, ch) && v < |s.nodes|
    ensures DigraphOf(s, ch).Lists(ch.At(if tail then Outgoing else Incoming)[v], v, tail)
  {
    var d := if tail then Outgoing else Incoming;
    assert Threaded(s, d, v, ch.At(d)[v]);
    forall e: nat | e < |s.edges| && s.edges[e].node.At(d) == v ensures e in ch.At(d)[v] {
      assert Placed(s, ch, d, e);
    }
  }

  /** `reverse` turns every arc round. */
  lemma FlippedArcs<N, E>(b: Store<N, E>, ch: Chains, s: Store<N, E>, u: nat, v: nat)
    requires |s.edges| == |b.edges| && forall e :: 0 <= e < |s.edges| ==> s.edges[e] == FlippedEdge(b.edges[e])
    ensures (u, v) in DigraphOf(s, ch.Swapped()).Arcs() <==> (v, u) in DigraphOf(b, ch).Arcs()
  {
    var g, h := DigraphOf(b, ch), DigraphOf(s, ch.Swapped());
    assert forall e :: 0 <= e < |s.edges| ==> h.ends[e] == (g.ends[e].1, g.ends[e].0);
    if (v, u) in g.Arcs() {
      var e :| 0 <= e < |g.ends| && g.ends[e] == (v, u);
      assert h.ends[e] == (u, v);
    }
  }

  /** After any removal the nodes that are left reach one another just as they did along the edges
      that are left. */
  lemma RemovalKeepsReach<N, E>(b: Store<N, E>, ch: Chains, s: Store<N, E>, ch': Chains, nm: map<nat, nat>,
                                em: map<nat, nat>, u: nat, v: nat)
    requires Survives(b, ch, s, ch', nm, em) && u in nm && v in nm
    ensures Reach(DigraphOf(s, ch').Arcs(), nm[u], nm[v]) <==> Reach(ArcsOf(DigraphOf(b, ch), em.Keys), u, v)
  {
    var kept, arcs := ArcsOf(DigraphOf(b, ch), em.Keys), DigraphOf(s, ch').Arcs();
    if Reach(kept, u, v) {
      var p :| PathFrom(kept, p, u, v);
      CarryPath(b, ch, s, ch', nm, em, p, |p| - 1);
    }
    if Reach(arcs, nm[u], nm[v]) {
      ReachRefl(kept, u);
      var image := set x | x in nm && Reach(kept, u, x) :: nm[x];
      forall x, y | (x, y) in arcs && x in image ensures y in image {
        var z :| z in nm && Reach(kept, u, z) && nm[z] == x;
        var w := StepBack(b, ch, s, ch', nm, em, z, x, y);
        ReachStep(kept, u, z, w);
      }
      ReachStays(arcs, image, nm[u], nm[v]);
    }
  }

  lemma {:induction false} CarryPath<N, E>(b: Store<N, E>, ch: Chains, s: Store<N, E>, ch': Chains, nm: map<nat, nat>,
                                           em: map<nat, nat>, p: seq<nat>, k: nat)
    requires Survives(b, ch, s, ch', nm, em) && IsPath(ArcsOf(DigraphOf(b, ch), em.Keys), p) && p[0] in nm && k < |p|
    ensures p[k] in nm && Reach(DigraphOf(s, ch').Arcs(), nm[p[0]], nm[p[k]])
  {
    var arcs := DigraphOf(s, ch').Arcs();
    ReachRefl(arcs, nm[p[0]]);
    if k > 0 {
      CarryPath(b, ch, s, ch', nm, em, p, k - 1);
      assert (p[k - 1], p[k]) in ArcsOf(DigraphOf(b, ch), em.Keys);
      CarryArc(b, ch, s, ch', nm, em, p[k - 1], p[k]);
      ReachStep(arcs, nm[p[0]], nm[p[k - 1]], nm[p[k]]);
    }
  }

  lemma CarryArc<N, E>(b: Store<N, E>, ch: Chains, s: Store<N, E>, ch': Chains, nm: map<nat, nat>, em: map<nat, nat>,
                       x: nat, y: nat)
    requires Survives(b, ch, s, ch', nm, em) && (x, y) in ArcsOf(DigraphOf(b, ch), em.Keys)
    ensures x in nm && y in nm && (nm[x], nm[y]) in DigraphOf(s, ch').Arcs()
  {
    var g, h := DigraphOf(b, ch), DigraphOf(s, ch');
    var e: nat :| e in em && e < |g.ends| && g.ends[e] == (x, y);
    assert KeptEdge(b, s, nm, em, e);
    assert b.edges[e].node.At(Outgoing) == x && b.edges[e].node.At(Incoming) == y;
    assert s.edges[em[e]].node.At(Outgoing) == nm[x] && s.edges[em[e]].node.At(Incoming) == nm[y];
    assert h.ends[em[e]] == (nm[x], nm[y]);
  }

  lemma StepBack<N, E>(b: Store<N, E>, ch: Chains, s: Store<N, E>, ch': Chains, nm: map<nat, nat>, em: map<nat, nat>,
                       z: nat, x: nat, y: nat) returns (w: nat)
    requires Survives(b, ch, s, ch', nm, em) && z in nm && nm[z] == x && (x, y) in DigraphOf(s, ch').Arcs()
    ensures w in nm && nm[w] == y && (z, w) in ArcsOf(DigraphOf(b, ch), em.Keys)
  {
    var g, h := DigraphOf(b, ch), DigraphOf(s, ch');
    var f: nat :| f < |h.ends| && h.ends[f] == (x, y);
    Onto(em, |s.edges|, f);
    var e :| e in em && em[e] == f;
    assert KeptEdge(b, s, nm, em, e);
    w := b.edges[e].node.At(Incoming);
    assert b.edges[e].node.At(Outgoing) in nm && nm[b.edges[e].node.At(Outgoing)] == s.edges[f].node.At(Outgoing) == x;
    assert nm[w] == s.edges[f].node.At(Incoming) == y;
    assert g.ends[e] == (z, w);
  }
}
