/** The undirected reading of a multigraph: edges joining two different nodes either way round. */
module Undirected {
  import opened Seqs
  import opened Graphs

  /** Edge `f`, not a loop, has ends `x` and `y`. */
  ghost predicate Joins(g: Digraph, f: nat, x: nat, y: nat) {
    f < |g.ends| && x != y && (g.ends[f] == (x, y) || g.ends[f] == (y, x))
  }

  /** `l` holds every edge at `v` other than loops once, with its far end. */
  ghost predicate IsIncidence(g: Digraph, v: nat, l: seq<(nat, nat)>) {
    && NoDup(l)
    && (forall k :: 0 <= k < |l| ==> Joins(g, l[k].0, v, l[k].1))
    && forall f: nat, y: nat {:trigger Joins(g, f, v, y)} :: Joins(g, f, v, y) ==> (f, y) in l
  }

  ghost function Edges(g: Digraph): set<nat> {
    Below(|g.ends|)
  }

  ghost predicate EdgeLink(g: Digraph, s: set<nat>, x: nat, y: nat) {
    exists f :: f in s && Joins(g, f, x, y)
  }

  /** Adjacency by the edges of `s`. */
  ghost function EdgeRel(g: Digraph, s: set<nat>): Rel {
    set x, y | x in Below(g.n) && y in Below(g.n) && EdgeLink(g, s, x, y) :: (x, y)
  }

  lemma EdgeRelIff(g: Digraph, s: set<nat>, f: nat, x: nat, y: nat)
    requires g.Valid() && f in s && Joins(g, f, x, y)
    ensures (x, y) in EdgeRel(g, s) && (y, x) in EdgeRel(g, s)
  {
    assert Joins(g, f, y, x);
    assert EdgeLink(g, s, x, y) && EdgeLink(g, s, y, x);
  }

  lemma EdgeRelSymmetric(g: Digraph, s: set<nat>)
    ensures Symmetric(EdgeRel(g, s))
  {
    forall x, y | (x, y) in EdgeRel(g, s) ensures (y, x) in EdgeRel(g, s) {
      assert EdgeLink(g, s, x, y);
      var f: nat :| f in s && Joins(g, f, x, y);
      assert Joins(g, f, y, x);
      assert EdgeLink(g, s, y, x);
    }
  }

  lemma EdgeRelMono(g: Digraph, s: set<nat>, s': set<nat>)
    requires s <= s'
    ensures EdgeRel(g, s) <= EdgeRel(g, s')
  {
    forall x, y | (x, y) in EdgeRel(g, s) ensures (x, y) in EdgeRel(g, s') {
      assert EdgeLink(g, s, x, y);
      var f: nat :| f in s && Joins(g, f, x, y);
      assert EdgeLink(g, s', x, y);
    }
  }

  /** The edges whose tail is another node. */
  ghost function NotFrom(g: Digraph, v: nat): set<nat> {
    set e: nat | e < |g.ends| && g.ends[e].0 != v
  }

  /** `edge_indices_of`: edges out of `v`, then edges into it except loops. */
  method EdgesOf(g: Digraph, v: nat) returns (l: seq<nat>)
    requires g.Valid() && v < g.n
    ensures NoDup(l) && forall e: nat :: e in l <==> e < |g.ends| && (g.ends[e].0 == v || g.ends[e].1 == v)
    ensures l == g.outs[v] + Filter(g.ins[v], NotFrom(g, v))
  {
    l := g.outs[v];
    assert g.Lists(g.outs[v], v, true) && g.Lists(g.ins[v], v, false);
    var i := 0;
    while i < |g.ins[v]|
      invariant 0 <= i <= |g.ins[v]| && NoDup(l) && l == g.outs[v] + Filter(g.ins[v][..i], NotFrom(g, v))
      invariant forall e: nat :: e in l <==> e in g.outs[v] || (e in g.ins[v][..i] && e < |g.ends| && g.ends[e].0 != v)
    {
      var e := g.ins[v][i];
      FilterSnoc(g.ins[v][..i], e, NotFrom(g, v));
      assert g.ins[v][..i + 1] == g.ins[v][..i] + [e];
      if g.ends[e].0 != v {
        l := l + [e];
      }
      i := i + 1;
    }
    assert g.ins[v][..i] == g.ins[v];
  }
}
