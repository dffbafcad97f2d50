/** Finite relations, walks and reachability, and the directed multigraph every algorithm here
    runs on. */
module Graphs {
  import opened Seqs

  // ----- finite relations -----

  type Rel = set<(nat, nat)>

  /** A nonempty sequence of nodes, each related to the next. */
  ghost predicate IsPath(r: Rel, p: seq<nat>) {
    && |p| > 0
    && forall i :: 0 <= i < |p| - 1 ==> (p[i], p[i + 1]) in r
  }

  ghost predicate PathFrom(r: Rel, p: seq<nat>, u: nat, v: nat) {
    IsPath(r, p) && p[0] == u && p[|p| - 1] == v
  }

  ghost predicate Reach(r: Rel, u: nat, v: nat) {
    exists p :: PathFrom(r, p, u, v)
  }

  lemma ReachRefl(r: Rel, u: nat)
    ensures Reach(r, u, u)
  {
    assert PathFrom(r, [u], u, u);
  }

  lemma ReachEdge(r: Rel, u: nat, v: nat)
    requires (u, v) in r
    ensures Reach(r, u, v)
  {
    assert PathFrom(r, [u, v], u, v);
  }

  lemma PathJoin(r: Rel, p: seq<nat>, q: seq<nat>, u: nat, v: nat, w: nat)
    requires PathFrom(r, p, u, v) && PathFrom(r, q, v, w)
    ensures PathFrom(r, p + q[1..], u, w)
  {
    var s := p + q[1..];
    forall i | 0 <= i < |s| - 1 ensures (s[i], s[i + 1]) in r {
      if i >= |p| - 1 {
        assert s[i] == q[i - (|p| - 1)];
        assert s[i + 1] == q[i + 1 - (|p| - 1)];
      }
    }
  }

  lemma ReachTrans(r: Rel, u: nat, v: nat, w: nat)
    requires Reach(r, u, v) && Reach(r, v, w)
    ensures Reach(r, u, w)
  {
    var p :| PathFrom(r, p, u, v);
    var q :| PathFrom(r, q, v, w);
    PathJoin(r, p, q, u, v, w);
  }

  lemma ReachStep(r: Rel, u: nat, v: nat, w: nat)
    requires Reach(r, u, v) && (v, w) in r
    ensures Reach(r, u, w)
  {
    ReachEdge(r, v, w);
    ReachTrans(r, u, v, w);
  }

  lemma ReachMono(r: Rel, r': Rel, u: nat, v: nat)
    requires r <= r' && Reach(r, u, v)
    ensures Reach(r', u, v)
  {
    var p :| PathFrom(r, p, u, v);
    assert PathFrom(r', p, u, v);
  }

  ghost predicate Closed(r: Rel, s: set<nat>) {
    forall a, b :: (a, b) in r && a in s ==> b in s
  }

  /** A closed set is never left. */
  lemma PathStays(r: Rel, s: set<nat>, p: seq<nat>, i: nat)
    requires Closed(r, s) && IsPath(r, p) && p[0] in s && i < |p|
    ensures p[i] in s
  {
    if i > 0 {
      PathStays(r, s, p, i - 1);
      assert (p[i - 1], p[i]) in r;
    }
  }

  lemma ReachStays(r: Rel, s: set<nat>, u: nat, v: nat)
    requires Closed(r, s) && u in s && Reach(r, u, v)
    ensures v in s
  {
    var p :| PathFrom(r, p, u, v);
    PathStays(r, s, p, |p| - 1);
  }

  /** A path from inside a set to outside it leaves the set at some step. */
  lemma Crossing(r: Rel, s: set<nat>, p: seq<nat>) returns (i: nat)
    requires IsPath(r, p) && p[0] in s && p[|p| - 1] !in s
    ensures i < |p| - 1 && p[i] in s && p[i + 1] !in s
  {
    i := 0;
    while p[i + 1] in s
      invariant i < |p| - 1 && p[i] in s
      decreases |p| - i
    {
      i := i + 1;
    }
  }

  ghost predicate Symmetric(r: Rel) {
    forall a, b :: (a, b) in r ==> (b, a) in r
  }

  function Reversed<T>(p: seq<T>): (q: seq<T>)
    ensures |q| == |p|
    ensures forall i :: 0 <= i < |p| ==> q[i] == p[|p| - 1 - i]
  {
    seq(|p|, i requires 0 <= i < |p| => p[|p| - 1 - i])
  }

  lemma ReversedTwice<T>(p: seq<T>)
    ensures Reversed(Reversed(p)) == p
  {
  }

  lemma ReachSym(r: Rel, u: nat, v: nat)
    requires Symmetric(r) && Reach(r, u, v)
    ensures Reach(r, v, u)
  {
    var p :| PathFrom(r, p, u, v);
    var q := Reversed(p);
    forall i | 0 <= i < |q| - 1 ensures (q[i], q[i + 1]) in r {
      assert (p[|p| - 2 - i], p[|p| - 1 - i]) in r;
    }
    assert PathFrom(r, q, v, u);
  }

  /** Cutting a path at a repeated node. */
  lemma PathCut(r: Rel, p: seq<nat>, u: nat, v: nat, i: nat, j: nat)
    requires PathFrom(r, p, u, v) && i < j < |p| && p[i] == p[j]
    ensures PathFrom(r, p[..i] + p[j..], u, v)
  {
    var q := p[..i] + p[j..];
    forall k | 0 <= k < |q| - 1 ensures (q[k], q[k + 1]) in r {
      if k + 1 < i {
        assert (p[k], p[k + 1]) in r;
      } else if k + 1 == i {
        assert q[k] == p[i - 1] && q[k + 1] == p[j] == p[i];
      } else {
        assert q[k] == p[k - i + j] && q[k + 1] == p[k - i + j + 1];
      }
    }
    if i == 0 {
      assert q == p[j..];
    }
  }

  /** Whatever is reachable is reachable without repeating a node. */
  lemma SimplePath(r: Rel, p: seq<nat>, u: nat, v: nat) returns (q: seq<nat>)
    requires PathFrom(r, p, u, v)
    ensures PathFrom(r, q, u, v) && NoDup(q)
    decreases |p|
  {
    if NoDup(p) {
      q := p;
    } else {
      var i, j :| 0 <= i < j < |p| && p[i] == p[j];
      PathCut(r, p, u, v, i, j);
      q := SimplePath(r, p[..i] + p[j..], u, v);
    }
  }

  // ----- the multigraph -----

  /** `n` nodes and the edges `ends` as (tail, head) pairs.  `outs[v]` and `ins[v]` list the
      edges leaving and entering `v` in whatever order the storage yields them. */
  datatype Digraph = Digraph(n: nat, ends: seq<(nat, nat)>, outs: seq<seq<nat>>, ins: seq<seq<nat>>) {
    ghost predicate Valid() {
      && |outs| == n && |ins| == n
      && (forall e :: 0 <= e < |ends| ==> ends[e].0 < n && ends[e].1 < n)
      && (forall v :: 0 <= v < n ==> Lists(outs[v], v, true))
      && (forall v :: 0 <= v < n ==> Lists(ins[v], v, false))
    }

    /** `l` lists, each once, the edges whose tail (or head) is `v`. */
    ghost predicate Lists(l: seq<nat>, v: nat, tail: bool) {
      && NoDup(l)
      && (forall k :: 0 <= k < |l| ==> l[k] < |ends| && End(l[k], tail) == v)
      && forall e: nat :: e < |ends| && End(e, tail) == v ==> e in l
    }

    function End(e: nat, tail: bool): nat
      requires e < |ends|
    {
      if tail then ends[e].0 else ends[e].1
    }

    /** `neighbor_indices_from`: heads of the outgoing edges, repeats included. */
    function Succs(v: nat): (r: seq<nat>)
      requires Valid() && v < n
      ensures |r| == |outs[v]|
      ensures forall k :: 0 <= k < |r| ==> r[k] == ends[outs[v][k]].1
    {
      seq(|outs[v]|, k requires 0 <= k < |outs[v]| => ends[outs[v][k]].1)
    }

    /** `neighbor_indices_to`. */
    function Preds(v: nat): (r: seq<nat>)
      requires Valid() && v < n
      ensures |r| == |ins[v]|
      ensures forall k :: 0 <= k < |r| ==> r[k] == ends[ins[v][k]].0
    {
      seq(|ins[v]|, k requires 0 <= k < |ins[v]| => ends[ins[v][k]].0)
    }

    ghost function Arcs(): Rel {
      set e | e in ends
    }

    /** No two edges share tail and head. */
    ghost predicate EdgeSimple() {
      forall e, f :: 0 <= e < f < |ends| ==> ends[e] != ends[f]
    }
  }

  /** The arcs of the edges in `s`. */
  ghost function ArcsOf(g: Digraph, s: set<nat>): Rel {
    set e | e in s && e < |g.ends| :: g.ends[e]
  }

  /** No edge lies on a cycle. */
  ghost predicate IsDag(g: Digraph) {
    forall u: nat, v: nat {:trigger (u, v) in g.Arcs()} :: (u, v) in g.Arcs() ==> !Reach(g.Arcs(), v, u)
  }

  lemma SuccIff(g: Digraph, u: nat, v: nat)
    requires g.Valid() && u < g.n
    ensures v in g.Succs(u) <==> (u, v) in g.Arcs()
  {
    assert g.Lists(g.outs[u], u, true);
    if v in g.Succs(u) {
      var k :| 0 <= k < |g.Succs(u)| && g.Succs(u)[k] == v;
      assert g.ends[g.outs[u][k]] == (u, v);
    }
    if (u, v) in g.Arcs() {
      var e :| 0 <= e < |g.ends| && g.ends[e] == (u, v);
      assert e in g.outs[u];
      var k :| 0 <= k < |g.outs[u]| && g.outs[u][k] == e;
      assert g.Succs(u)[k] == v;
    }
  }

  lemma PredIff(g: Digraph, u: nat, v: nat)
    requires g.Valid() && v < g.n
    ensures u in g.Preds(v) <==> (u, v) in g.Arcs()
  {
    assert g.Lists(g.ins[v], v, false);
    if u in g.Preds(v) {
      var k :| 0 <= k < |g.Preds(v)| && g.Preds(v)[k] == u;
      assert g.ends[g.ins[v][k]] == (u, v);
    }
    if (u, v) in g.Arcs() {
      var e :| 0 <= e < |g.ends| && g.ends[e] == (u, v);
      assert e in g.ins[v];
      var k :| 0 <= k < |g.ins[v]| && g.ins[v][k] == e;
      assert g.Preds(v)[k] == u;
    }
  }

  lemma ArcBounds(g: Digraph, u: nat, v: nat)
    requires g.Valid() && (u, v) in g.Arcs()
    ensures u < g.n && v < g.n
  {
  }

  lemma ReachBounds(g: Digraph, u: nat, v: nat)
    requires g.Valid() && u < g.n && Reach(g.Arcs(), u, v)
    ensures v < g.n
  {
    ReachStays(g.Arcs(), Below(g.n), u, v);
  }
}
