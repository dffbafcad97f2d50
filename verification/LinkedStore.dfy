/** The storage of `src/raw_graph/linked_adj_edge.rs`: two vectors, every edge threaded into
    its tail's outgoing list and its head's incoming list.  This module holds the data, the
    integrity condition, and what it means for one store to be another with nodes and edges
    taken out and the rest renumbered. */
module LinkedStore {
  import opened Seqs
  import opened Vec

  datatype Dir = Outgoing | Incoming {
    function Other(): Dir {
      if this == Outgoing then Incoming else Outgoing
    }
  }

  /** A two-element array indexed by direction. */
  datatype Pair<+T> = Pair(out: T, inn: T) {
    function At(d: Dir): T {
      if d == Outgoing then out else inn
    }

    function Swapped(): Pair<T> {
      Pair(inn, out)
    }
  }

  function With<T>(p: Pair<T>, d: Dir, x: T): (r: Pair<T>)
    ensures r.At(d) == x && r.At(d.Other()) == p.At(d.Other())
    ensures forall d' {:trigger r.At(d')} :: d' != d ==> r.At(d') == p.At(d')
  {
    if d == Outgoing then Pair(x, p.inn) else Pair(p.out, x)
  }

  /** A list pointer; `None` is the end-of-list sentinel. */
  type Slot = Option<nat>

  datatype NodeEntry<+N> = NodeEntry(value: N, next: Pair<Slot>)

  datatype EdgeEntry<+E> = EdgeEntry(value: E, next: Pair<Slot>, node: Pair<nat>)

  datatype Store<+N, +E> = Store(nodes: seq<NodeEntry<N>>, edges: seq<EdgeEntry<E>>)

  /** For each direction and node, the edge slots of the chain in order. */
  type Chains = Pair<seq<seq<nat>>>

  function LinkAt(c: seq<nat>, k: nat): Slot {
    if k < |c| then Some(c[k]) else None
  }

  /** Chain `c` starts at node `v`, follows the `d` pointers, ends at the sentinel, visits no
      edge twice, and holds only edges whose `d` endpoint is `v`. */
  ghost predicate Threaded<N, E>(s: Store<N, E>, d: Dir, v: nat, c: seq<nat>)
    requires v < |s.nodes|
  {
    && NoDup(c)
    && s.nodes[v].next.At(d) == LinkAt(c, 0)
    && (forall k :: 0 <= k < |c| ==> c[k] < |s.edges|)
    && (forall k :: 0 <= k < |c| ==> s.edges[c[k]].node.At(d) == v)
    && (forall k :: 0 <= k < |c| ==> s.edges[c[k]].next.At(d) == LinkAt(c, k + 1))
  }

  ghost predicate Placed<N, E>(s: Store<N, E>, ch: Chains, d: Dir, e: nat)
    requires e < |s.edges|
  {
    var v := s.edges[e].node.At(d);
    v < |s.nodes| && v < |ch.At(d)| && e in ch.At(d)[v]
  }

  /** Integrity: every chain is properly threaded and every edge lies in its tail's outgoing
      and its head's incoming chain. */
  ghost predicate WellFormed<N, E>(s: Store<N, E>, ch: Chains) {
    && |ch.out| == |ch.inn| == |s.nodes|
    && (forall d: Dir, v: nat {:trigger Threaded(s, d, v, ch.At(d)[v])} ::
          v < |s.nodes| ==> Threaded(s, d, v, ch.At(d)[v]))
    && (forall d: Dir, e: nat {:trigger Placed(s, ch, d, e)} :: e < |s.edges| ==> Placed(s, ch, d, e))
  }

  /** `m` maps its keys one to one onto the numbers below `n`. */
  ghost predicate Renumbering(m: map<nat, nat>, n: nat) {
    && |m| == n
    && (forall x :: x in m ==> m[x] < n)
    && (forall x, y :: x in m && y in m && m[x] == m[y] ==> x == y)
  }

  /** A renumbering reaches every number below its size. */
  lemma Onto(m: map<nat, nat>, n: nat, y: nat)
    requires Renumbering(m, n) && y < n
    ensures y in m.Values
  {
    ValuesCard(m);
    SubsetCard(m.Values, Below(n));
  }

  /** What survives of edge `x`: its payload and its endpoints, the latter renumbered. */
  ghost predicate KeptEdge<N, E>(b: Store<N, E>, s: Store<N, E>, nm: map<nat, nat>, em: map<nat, nat>, x: nat)
    requires x in em
  {
    && x < |b.edges| && em[x] < |s.edges|
    && s.edges[em[x]].value == b.edges[x].value
    && forall d: Dir :: b.edges[x].node.At(d) in nm
                        && s.edges[em[x]].node.At(d) == nm[b.edges[x].node.At(d)]
  }

  ghost predicate KeptNode<N, E>(b: Store<N, E>, s: Store<N, E>, nm: map<nat, nat>, v: nat)
    requires v in nm
  {
    v < |b.nodes| && nm[v] < |s.nodes| && s.nodes[nm[v]].value == b.nodes[v].value
  }

  /** The chain of `v` afterwards is its chain before, dead edges left out, renumbered. */
  ghost predicate KeptChain(ch: Chains, ch': Chains, nm: map<nat, nat>, em: map<nat, nat>, d: Dir, v: nat)
    requires v in nm
  {
    && v < |ch.At(d)| && nm[v] < |ch'.At(d)|
    && ch'.At(d)[nm[v]] == Rename(Filter(ch.At(d)[v], em.Keys), em)
  }

  /** `(s, ch')` is `(b, ch)` with everything outside the keys of `nm` and `em` removed and the
      survivors renumbered by them; nothing else changed. */
  ghost predicate Survives<N, E>(b: Store<N, E>, ch: Chains, s: Store<N, E>, ch': Chains,
                                 nm: map<nat, nat>, em: map<nat, nat>)
  {
    && Renumbering(nm, |s.nodes|) && Renumbering(em, |s.edges|)
    && (forall v :: v in nm ==> KeptNode(b, s, nm, v))
    && (forall x :: x in em ==> KeptEdge(b, s, nm, em, x))
    && (forall d: Dir, v: nat :: v in nm ==> KeptChain(ch, ch', nm, em, d, v))
  }

  /** Replace one list pointer: the head pointer of node slot `i`, or the pointer of edge `p`. */
  function SetLink<N, E>(s: Store<N, E>, i: nat, pred: Slot, d: Dir, link: Slot): Store<N, E>
    requires i < |s.nodes| && (pred.Some? ==> pred.value < |s.edges|)
  {
    match pred
    case None =>
      Store(s.nodes[i := NodeEntry(s.nodes[i].value, With(s.nodes[i].next, d, link))], s.edges)
    case Some(p) =>
      Store(s.nodes, s.edges[p := EdgeEntry(s.edges[p].value, With(s.edges[p].next, d, link), s.edges[p].node)])
  }

  // ----- insertion, reversal, incidence -----

  ghost predicate Incident<N, E>(b: Store<N, E>, x: nat, v: nat) {
    x < |b.edges| && exists d: Dir :: b.edges[x].node.At(d) == v
  }

  lemma NodeInserted<N, E>(b: Store<N, E>, ch: Chains, value: N)
    requires WellFormed(b, ch)
    ensures WellFormed(Store(b.nodes + [NodeEntry(value, Pair(None, None))], b.edges),
                       Pair(ch.out + [[]], ch.inn + [[]]))
  {
    var s := Store(b.nodes + [NodeEntry(value, Pair(None, None))], b.edges);
    var ch' := Pair(ch.out + [[]], ch.inn + [[]]);
    forall d: Dir, v: nat | v < |s.nodes| ensures Threaded(s, d, v, ch'.At(d)[v]) {
      if v < |b.nodes| {
        assert Threaded(b, d, v, ch.At(d)[v]);
      }
    }
    forall d: Dir, e: nat | e < |s.edges| ensures Placed(s, ch', d, e) {
      assert Placed(b, ch, d, e);
    }
  }

  ghost function ChainsWithEdge(ch: Chains, e: nat, from: nat, to: nat): Chains
    requires from < |ch.out| && to < |ch.inn|
  {
    Pair(ch.out[from := [e] + ch.out[from]], ch.inn[to := [e] + ch.inn[to]])
  }

  function WithEdge<N, E>(b: Store<N, E>, value: E, from: nat, to: nat): Store<N, E>
    requires from < |b.nodes| && to < |b.nodes|
  {
    var e := |b.edges|;
    var n1 := b.nodes[from := NodeEntry(b.nodes[from].value, With(b.nodes[from].next, Outgoing, Some(e)))];
    Store(n1[to := NodeEntry(n1[to].value, With(n1[to].next, Incoming, Some(e)))],
          b.edges + [EdgeEntry(value, Pair(b.nodes[from].next.At(Outgoing), b.nodes[to].next.At(Incoming)),
                               Pair(from, to))])
  }

  lemma EdgeInserted<N, E>(b: Store<N, E>, ch: Chains, value: E, from: nat, to: nat)
    requires WellFormed(b, ch) && from < |b.nodes| && to < |b.nodes|
    ensures WellFormed(WithEdge(b, value, from, to), ChainsWithEdge(ch, |b.edges|, from, to))
  {
    var s, ch' := WithEdge(b, value, from, to), ChainsWithEdge(ch, |b.edges|, from, to);
    forall d: Dir, v: nat | v < |s.nodes| ensures Threaded(s, d, v, ch'.At(d)[v]) {
      ChainInserted(b, ch, value, from, to, d, v);
    }
    forall d: Dir, e: nat | e < |s.edges| ensures Placed(s, ch', d, e) {
      if e < |b.edges| {
        assert Placed(b, ch, d, e);
      }
    }
  }

  lemma ChainInserted<N, E>(b: Store<N, E>, ch: Chains, value: E, from: nat, to: nat, d: Dir, v: nat)
    requires WellFormed(b, ch) && from < |b.nodes| && to < |b.nodes| && v < |b.nodes|
    ensures Threaded(WithEdge(b, value, from, to), d, v, ChainsWithEdge(ch, |b.edges|, from, to).At(d)[v])
  {
    var s, c := WithEdge(b, value, from, to), ch.At(d)[v];
    var c' := ChainsWithEdge(ch, |b.edges|, from, to).At(d)[v];
    assert Threaded(b, d, v, c);
    if v == Pair(from, to).At(d) {
      assert s.nodes[v].next.At(d) == Some(|b.edges|);
      Prepended(b, s, d, v, c);
    } else {
      assert c' == c && s.nodes[v].next.At(d) == b.nodes[v].next.At(d);
    }
  }

  lemma Prepended<N, E>(b: Store<N, E>, s: Store<N, E>, d: Dir, v: nat, c: seq<nat>)
    requires v < |b.nodes| == |s.nodes| && |s.edges| == |b.edges| + 1 && s.edges[..|b.edges|] == b.edges
    requires Threaded(b, d, v, c) && s.nodes[v].next.At(d) == Some(|b.edges|)
    requires s.edges[|b.edges|].node.At(d) == v && s.edges[|b.edges|].next.At(d) == b.nodes[v].next.At(d)
    ensures Threaded(s, d, v, [|b.edges|] + c)
  {
    var c' := [|b.edges|] + c;
    assert forall k :: 0 < k < |c'| ==> c'[k] == c[k - 1];
    assert forall e :: 0 <= e < |b.edges| ==> s.edges[e] == b.edges[e];
  }

  /** Payloads play no part in integrity. */
  lemma PayloadsReplaced<N, E>(b: Store<N, E>, ch: Chains, s: Store<N, E>)
    requires WellFormed(b, ch) && |s.nodes| == |b.nodes| && |s.edges| == |b.edges|
    requires forall v :: 0 <= v < |s.nodes| ==> s.nodes[v].next == b.nodes[v].next
    requires forall e :: 0 <= e < |s.edges| ==> s.edges[e].next == b.edges[e].next && s.edges[e].node == b.edges[e].node
    ensures WellFormed(s, ch)
  {
    forall d: Dir, v: nat | v < |s.nodes| ensures Threaded(s, d, v, ch.At(d)[v]) {
      assert Threaded(b, d, v, ch.At(d)[v]);
    }
    forall d: Dir, e: nat | e < |s.edges| ensures Placed(s, ch, d, e) {
      assert Placed(b, ch, d, e);
    }
  }

  function FlippedNode<N>(x: NodeEntry<N>): NodeEntry<N> {
    NodeEntry(x.value, x.next.Swapped())
  }

  function FlippedEdge<E>(x: EdgeEntry<E>): EdgeEntry<E> {
    EdgeEntry(x.value, x.next.Swapped(), x.node.Swapped())
  }

  lemma Flipped<N, E>(b: Store<N, E>, ch: Chains, s: Store<N, E>)
    requires WellFormed(b, ch) && |s.nodes| == |b.nodes| && |s.edges| == |b.edges|
    requires forall v :: 0 <= v < |s.nodes| ==> s.nodes[v] == FlippedNode(b.nodes[v])
    requires forall e :: 0 <= e < |s.edges| ==> s.edges[e] == FlippedEdge(b.edges[e])
    ensures WellFormed(s, ch.Swapped())
  {
    forall d: Dir, v: nat | v < |s.nodes| ensures Threaded(s, d, v, ch.Swapped().At(d)[v]) {
      assert Threaded(b, d.Other(), v, ch.At(d.Other())[v]);
    }
    forall d: Dir, e: nat | e < |s.edges| ensures Placed(s, ch.Swapped(), d, e) {
      assert Placed(b, ch, d.Other(), e);
    }
  }

  /** The edges whose tail is another node. */
  ghost function NotFrom<N, E>(s: Store<N, E>, v: nat): set<nat> {
    set e: nat | e < |s.edges| && s.edges[e].node.At(Outgoing) != v
  }

  /** The edges touching a node are those on its outgoing chain and those on its incoming
      chain that start elsewhere. */
  lemma IncidentChains<N, E>(b: Store<N, E>, ch: Chains, v: nat, r: seq<nat>)
    requires WellFormed(b, ch) && v < |b.nodes|
    requires forall e: nat :: e in ch.inn[v] ==> e < |b.edges|
    requires forall e: nat :: e in r <==> e in ch.out[v] || (e in ch.inn[v] && b.edges[e].node.At(Outgoing) != v)
    ensures forall e: nat :: e in r <==> e < |b.edges| && Incident(b, e, v)
  {
    assert Threaded(b, Outgoing, v, ch.At(Outgoing)[v]) && Threaded(b, Incoming, v, ch.At(Incoming)[v]);
    forall e: nat | e < |b.edges| && Incident(b, e, v) ensures e in r {
      assert Placed(b, ch, Outgoing, e) && Placed(b, ch, Incoming, e);
    }
    forall e: nat | e in r ensures e < |b.edges| && Incident(b, e, v) {
      assert e in ch.out[v] ==> b.edges[e].node.At(Outgoing) == v;
      assert e in ch.inn[v] ==> b.edges[e].node.At(Incoming) == v;
    }
  }

  // ----- one removal after another -----

  lemma RenameThen(s: seq<nat>, f: map<nat, nat>, g: map<nat, nat>)
    requires forall x :: x in s ==> x in f && f[x] in g
    ensures Rename(Rename(s, f), g) == Rename(s, Then(f, g))
  {
    forall k | 0 <= k < |s| ensures Rename(Rename(s, f), g)[k] == Rename(s, Then(f, g))[k] {
      assert s[k] in s;
    }
  }

  /** Removing some edges, then more edges and nodes, is one removal. */
  lemma SurvivesThen<N, E>(b: Store<N, E>, ch: Chains, s1: Store<N, E>, ch1: Chains, s2: Store<N, E>, ch2: Chains,
                           id: map<nat, nat>, em1: map<nat, nat>, nm2: map<nat, nat>, em2: map<nat, nat>)
    requires Survives(b, ch, s1, ch1, id, em1) && Survives(s1, ch1, s2, ch2, nm2, em2)
    requires (forall v :: v in id ==> id[v] == v) && nm2.Keys <= id.Keys && em2.Keys == em1.Values
    ensures Survives(b, ch, s2, ch2, nm2, Then(em1, em2))
  {
    var em := Then(em1, em2);
    ThenKeys(em1, em2);
    forall v | v in nm2 ensures KeptNode(b, s2, nm2, v) {
      assert KeptNode(b, s1, id, v) && KeptNode(s1, s2, nm2, v);
    }
    forall x | x in em ensures KeptEdge(b, s2, nm2, em, x) {
      assert KeptEdge(b, s1, id, em1, x) && KeptEdge(s1, s2, nm2, em2, em1[x]);
    }
    forall d: Dir, v: nat | v in nm2 ensures KeptChain(ch, ch2, nm2, em, d, v) {
      assert KeptChain(ch, ch1, id, em1, d, v) && KeptChain(ch1, ch2, nm2, em2, d, v);
      ChainThen(ch.At(d)[v], em1, em2);
    }
    assert forall x, y :: x in em && y in em && em[x] == em[y] ==> em1[x] == em1[y];
    assert |em| == |em.Keys|;
    EqualSizes(em1, em, |s1.edges|, em2);
  }

  lemma ChainThen(c: seq<nat>, em1: map<nat, nat>, em2: map<nat, nat>)
    requires em2.Keys == em1.Values
    ensures Rename(Filter(Rename(Filter(c, em1.Keys), em1), em2.Keys), em2)
            == Rename(Filter(c, em1.Keys), Then(em1, em2))
  {
    var f := Filter(c, em1.Keys);
    FilterMember(c, em1.Keys);
    var r := Rename(f, em1);
    forall x | x in r ensures x in em2.Keys {
      var k :| 0 <= k < |r| && r[k] == x;
      assert f[k] in f;
    }
    FilterAll(r, em2.Keys);
    forall x | x in f ensures em1[x] in em2 {
      assert em1[x] in em1.Values;
    }
    RenameThen(f, em1, em2);
  }

  /** A renumbering of all the survivors leaves as many as there were. */
  lemma EqualSizes(em1: map<nat, nat>, em: map<nat, nat>, n: nat, em2: map<nat, nat>)
    requires Renumbering(em1, n) && em.Keys == em1.Keys && em2.Keys == em1.Values
    ensures |em| == |em2|
  {
    ValuesCard(em1);
    assert |em| == |em.Keys| && |em2| == |em2.Keys| && |em1| == |em1.Keys|;
  }
}
