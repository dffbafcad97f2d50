/** `LinkedAdjEdgeGraph` over vectors: insertion, scalar removal and their integrity proofs
    (`src/raw_graph/linked_adj_edge.rs`). */
module LinkedGraph {
  import opened Seqs
  import opened Vec
  import opened LinkedStore
  import opened LinkedView
  import opened LinkedBatch

  /** Up to this average degree the node-only fast path is taken. */
  const SCALAR_NODE_MAX_AVG_DEGREE := 16

  class LinkedAdjEdgeGraph<N, E> {
    var nodes: seq<NodeEntry<N>>
    var edges: seq<EdgeEntry<E>>
    ghost var chains: Chains

    ghost function S(): Store<N, E>
      reads this
    {
      Store(nodes, edges)
    }

    ghost predicate Valid()
      reads this
    {
      WellFormed(S(), chains)
    }

    constructor ()
      ensures Valid() && nodes == [] && edges == []
    {
      nodes, edges := [], [];
      chains := Pair([], []);
    }

    /** Walk the `d` chain of `nodeIx` and replace the pointer to `target` by `replacement`. */
    method ReplaceInList(nodeIx: nat, target: nat, replacement: Slot, d: Dir, ghost path: seq<nat>)
      requires Leads(S(), nodeIx, d, path, target)
      modifies this`nodes, this`edges
      ensures S() == SetLink(old(S()), nodeIx, LastOf(path), d, replacement)
    {
      var pred: Slot := None;
      var cur := nodes[nodeIx].next.At(d);
      ghost var j := 0;
      while cur.value != target
        invariant j <= |path| && cur == Some(Hop(path, target, j))
        invariant pred == if j == 0 then None else Some(path[j - 1])
        decreases |path| - j
      {
        pred := cur;
        cur := edges[cur.value].next.At(d);
        j := j + 1;
      }
      match pred
      case None =>
        nodes := nodes[nodeIx := NodeEntry(nodes[nodeIx].value, With(nodes[nodeIx].next, d, replacement))];
      case Some(p) =>
        edges := edges[p := EdgeEntry(edges[p].value, With(edges[p].next, d, replacement), edges[p].node)];
    }

    /** Use of `ReplaceInList` that takes edge `e` out of the `d` chain of node `v`. */
    method Unlink(nodeIx: nat, e: nat, next: Slot, d: Dir, ghost b: Store<N, E>, ghost ch: Chains, ghost w: View,
                  ghost v: nat, ghost k: nat)
      requires Tracks(b, ch, w, S()) && PointersCurrent(w)
      requires v in w.lv && nodeIx == w.nl[v]
      requires k < |Chain(ch, w, d, v)| && Chain(ch, w, d, v)[k] in w.el
      requires e == w.el[Chain(ch, w, d, v)[k]] && next == Pointer(w, d, Chain(ch, w, d, v), k + 1)
      modifies this`nodes, this`edges
      ensures Tracks(b, ch, Unlinked(w, d, Chain(ch, w, d, v)[k]), S())
      ensures S() == SetLink(old(S()), nodeIx, Pred(w, Chain(ch, w, d, v), k), d, next)
    {
      ghost var c := Chain(ch, w, d, v);
      ChainMembers(b, ch, w, d, v);
      assert forall j :: 0 <= j < |c| ==> c[j] in c;
      UnlinkStep(b, ch, w, S(), d, v, k);
      PathLeads(b, ch, w, S(), d, v, k);
      ReplaceInList(nodeIx, e, next, d, PathTo(w, c, k));
    }

    /** Use of `ReplaceInList` that redirects the one stale pointer of a chain. */
    method Repoint(nodeIx: nat, stale: nat, slot: nat, d: Dir, ghost b: Store<N, E>, ghost ch: Chains, ghost w: View,
                   ghost v: nat, ghost k: nat)
      requires Tracks(b, ch, w, S())
      requires v in w.lv && nodeIx == w.nl[v]
      requires k < |Chain(ch, w, d, v)| && |edges| <= stale
      requires Chain(ch, w, d, v)[k] in w.pl.At(d) && w.pl.At(d)[Chain(ch, w, d, v)[k]] == stale
      requires forall x :: x in w.lk.At(d) && x != Chain(ch, w, d, v)[k] ==>
                 x in w.pl.At(d) && x in w.el && w.pl.At(d)[x] == w.el[x]
      modifies this`nodes, this`edges
      ensures Tracks(b, ch, Repointed(w, d, Chain(ch, w, d, v)[k], slot), S())
      ensures |edges| == old(|edges|) && |nodes| == old(|nodes|)
      ensures forall i :: 0 <= i < |edges| ==> edges[i].node == old(edges[i].node)
    {
      ghost var c := Chain(ch, w, d, v);
      ChainMembers(b, ch, w, d, v);
      assert forall j :: 0 <= j < |c| ==> c[j] in c;
      assert ChainHeld(w, S(), d, v, c);
      RepointStep(b, ch, w, S(), d, v, k, slot);
      LinkKeepsEnds(S(), nodeIx, Pred(w, c, k), d, Some(slot));
      PathLeads(b, ch, w, S(), d, v, k);
      ReplaceInList(nodeIx, stale, Some(slot), d, PathTo(w, c, k));
    }

    /** Swap-remove the unlinked edge in slot `e` and redirect both pointers to the edge that
        moves into its place. */
    method SwapOut(e: nat, ghost b: Store<N, E>, ghost ch: Chains, ghost w: View) returns (data: E)
      requires Tracks(b, ch, w, S()) && PointersCurrent(w) && e < |edges|
      requires forall d: Dir :: w.lk.At(d) == w.el.Keys - {w.eo[e]}
      requires forall d: Dir, x: nat :: x in w.el ==> EndCurrent(b, w, d, x)
      requires w.lv == w.nl.Keys
      modifies this`nodes, this`edges
      ensures Tracks(b, ch, Reseated(w, e), S()) && PointersCurrent(Reseated(w, e))
      ensures data == old(edges[e].value)
      ensures |edges| == old(|edges|) - 1
    {
      var oldLast := |edges| - 1;
      data := edges[e].value;
      var swapped := Relocated(|edges|, e);
      edges := SwapRemove(edges, e);
      EdgeGoneStep(b, ch, w, old(S()), e);
      ReseatedCurrent(w, e);
      ghost var g := EdgeGone(w, e);
      GoneInverse(w.eo, w.el, e);
      if swapped.Some? {
        ghost var y := w.eo[oldLast];
        var ends := edges[e].node;
        assert EdgeHeld(b, w, old(S()), y);
        assert EndCurrent(b, w, Outgoing, y) && EndCurrent(b, w, Incoming, y);
        ghost var k := PositionOf(b, ch, g, S(), Outgoing, y);
        Repoint(ends.At(Outgoing), swapped.value, e, Outgoing, b, ch, g, b.edges[y].node.At(Outgoing), k);
        ghost var g1 := Repointed(g, Outgoing, y, e);
        k := PositionOf(b, ch, g1, S(), Incoming, y);
        Repoint(ends.At(Incoming), swapped.value, e, Incoming, b, ch, g1, b.edges[y].node.At(Incoming), k);
      }
    }

    /** Unlink edge slot `e` from its two chains, swap-remove it, relink the edge moved there. */
    method Detach(e: nat, ghost b: Store<N, E>, ghost ch: Chains, ghost w: View) returns (data: E)
      requires Tracks(b, ch, w, S()) && Finished(b, w) && e < |edges|
      modifies this`nodes, this`edges
      ensures Tracks(b, ch, Removed(w, e), S())
      ensures data == old(edges[e].value)
      ensures |edges| == old(|edges|) - 1
    {
      ghost var x := w.eo[e];
      assert EdgeHeld(b, w, S(), x);
      assert EndCurrent(b, w, Outgoing, x) && EndCurrent(b, w, Incoming, x);
      var ends, nextOut, nextIn := edges[e].node, edges[e].next.At(Outgoing), edges[e].next.At(Incoming);
      ghost var u, v := b.edges[x].node.At(Outgoing), b.edges[x].node.At(Incoming);
      ghost var k := PositionOf(b, ch, w, S(), Outgoing, x);
      assert ChainHeld(w, S(), Outgoing, u, Chain(ch, w, Outgoing, u));
      Unlink(ends.At(Outgoing), e, nextOut, Outgoing, b, ch, w, u, k);
      ghost var w1 := Unlinked(w, Outgoing, x);
      k := PositionOf(b, ch, w1, S(), Incoming, x);
      assert ChainHeld(w1, S(), Incoming, v, Chain(ch, w1, Incoming, v));
      Unlink(ends.At(Incoming), e, nextIn, Incoming, b, ch, w1, v, k);
      ghost var w2 := Unlinked(w1, Incoming, x);
      UnlinkedEnds(b, w, x);
      data := SwapOut(e, b, ch, w2);
    }

    /** `take_edge_unchecked`. */
    method TakeEdge(e: nat) returns (data: E)
      requires Valid() && e < |edges|
      modifies this
      ensures Valid()
      ensures data == old(edges[e].value)
      ensures Survives(old(S()), old(chains), S(), chains, Identity(|old(nodes)|), SwapMap(|old(edges)|, e))
    {
      ghost var b, ch := S(), chains;
      ghost var w := Begin(b, ch);
      data := Detach(e, b, ch, w);
      ghost var s := S();
      ghost var ch' := EdgeTaken(b, ch, w, e, s);
      chains := ch';
      assert S() == s;
    }

    /** Walk the `d` chain of the node now in slot `i` and write `i` as the endpoint of every
        edge on it. */
    method RewriteEnds(i: nat, d: Dir, ghost b: Store<N, E>, ghost ch: Chains, ghost w: View, ghost u: nat)
      requires Tracks(b, ch, w, S()) && PointersCurrent(w) && u in w.lv && w.nl[u] == i
      modifies this`edges
      ensures Tracks(b, ch, Rehomed(w, d, Chain(ch, w, d, u), i), S())
    {
      ghost var c := Chain(ch, w, d, u);
      ghost var k, r := 0, w;
      var cur := nodes[i].next.At(d);
      RehomedNone(w, d, i);
      assert ChainHeld(w, S(), d, u, c);
      ChainMembers(b, ch, w, d, u);
      assert c[..0] == [];
      while cur.Some?
        invariant k <= |c| && r == Rehomed(w, d, c[..k], i)
        invariant Tracks(b, ch, r, S())
        invariant cur == Pointer(w, d, c, k)
        decreases |c| - k
      {
        cur := RewriteEnd(i, cur.value, d, b, ch, w, u, k);
        r := Rehomed(w, d, c[..k + 1], i);
        k := k + 1;
      }
      assert c[..k] == c;
    }

    method RewriteEnd(i: nat, e: nat, d: Dir, ghost b: Store<N, E>, ghost ch: Chains, ghost w: View, ghost u: nat,
                      ghost k: nat)
      returns (next: Slot)
      requires PointersCurrent(w) && u in w.lv && u in w.nl && w.nl[u] == i && WellFormed(b, ch) && u < |b.nodes|
      requires k < |Chain(ch, w, d, u)| && Some(e) == Pointer(w, d, Chain(ch, w, d, u), k)
      requires Tracks(b, ch, Rehomed(w, d, Chain(ch, w, d, u)[..k], i), S())
      modifies this`edges
      ensures Tracks(b, ch, Rehomed(w, d, Chain(ch, w, d, u)[..k + 1], i), S())
      ensures next == Pointer(w, d, Chain(ch, w, d, u), k + 1)
    {
      ghost var c := Chain(ch, w, d, u);
      ghost var r := Rehomed(w, d, c[..k], i);
      ChainMembers(b, ch, w, d, u);
      assert c[k] in c;
      assert ChainHeld(r, S(), d, u, Chain(ch, r, d, u));
      assert EdgeHeld(b, r, S(), c[k]);
      RetagStep(b, ch, r, S(), d, c[k], i);
      RehomedNext(w, d, c, k, i);
      edges := edges[e := EdgeEntry(edges[e].value, edges[e].next, With(edges[e].node, d, i))];
      next := edges[e].next.At(d);
    }

    /** Both of the node's chains. */
    method RewriteBoth(i: nat, ghost b: Store<N, E>, ghost ch: Chains, ghost w: View, ghost u: nat)
      requires Tracks(b, ch, w, S()) && PointersCurrent(w) && u in w.lv && w.nl[u] == i
      modifies this`edges
      ensures var r := Rehomed(w, Outgoing, Chain(ch, w, Outgoing, u), i);
              Tracks(b, ch, Rehomed(r, Incoming, Chain(ch, r, Incoming, u), i), S())
    {
      RewriteEnds(i, Outgoing, b, ch, w, u);
      ghost var r := Rehomed(w, Outgoing, Chain(ch, w, Outgoing, u), i);
      RewriteEnds(i, Incoming, b, ch, r, u);
    }

    /** `remove_node_inner`: swap-remove an isolated node and rewrite the endpoints of the
        edges of the node moved into its slot. */
    method RemoveNodeInner(i: nat, ghost b: Store<N, E>, ghost ch: Chains, ghost w: View) returns (data: N)
      requires Tracks(b, ch, w, S()) && Finished(b, w) && i < |nodes|
      requires Isolated(b, w, w.no[i])
      modifies this`nodes, this`edges
      ensures Tracks(b, ch, NodeReplaced(ch, w, i), S())
      ensures data == old(nodes[i].value)
    {
      AbandonStep(b, ch, w, S(), w.no[i]);
      NodeGoneStep(b, ch, Abandoned(w, w.no[i]), S(), i);
      GoneInverse(w.no, w.nl, i);
      ghost var g := NodeGone(Abandoned(w, w.no[i]), i);
      data := nodes[i].value;
      var swapped := Relocated(|nodes|, i);
      nodes := SwapRemove(nodes, i);
      if swapped.Some? {
        ghost var u := w.no[|w.no| - 1];
        RewriteBoth(i, b, ch, g, u);
        ghost var r := Rehomed(g, Outgoing, Chain(ch, g, Outgoing, u), i);
        assert NodeReplaced(ch, w, i) == Rehomed(r, Incoming, Chain(ch, r, Incoming, u), i);
      } else {
        assert NodeReplaced(ch, w, i) == g;
      }
    }

    /** One turn of the draining loop of `take_node_unchecked`: edge `e` heads the `d` chain of
        node slot `i`; advance the head, unlink `e` from its peer's chain, swap-remove it. */
    method DrainHead(i: nat, e: nat, d: Dir, ghost b: Store<N, E>, ghost ch: Chains, ghost w: View)
      requires Tracks(b, ch, w, S()) && Finished(b, w)
      requires i < |nodes| && nodes[i].next.At(d) == Some(e)
      modifies this`nodes, this`edges
      ensures e < |w.eo| && Incident(b, w.eo[e], w.no[i])
      ensures Tracks(b, ch, Removed(w, e), S())
      ensures |edges| == old(|edges|) - 1 && |nodes| == old(|nodes|)
    {
      ghost var v := w.no[i];
      ghost var c := Chain(ch, w, d, v);
      assert ChainHeld(w, S(), d, v, c);
      ChainMembers(b, ch, w, d, v);
      ghost var x := c[0];
      assert x in c;
      var other := d.Other();
      assert EdgeHeld(b, w, S(), x);
      assert EndCurrent(b, w, d, x) && EndCurrent(b, w, other, x);
      var peer, nextThis, nextOther := edges[e].node.At(other), edges[e].next.At(d), edges[e].next.At(other);
      UnlinkStep(b, ch, w, S(), d, v, 0);
      nodes := nodes[i := NodeEntry(nodes[i].value, With(nodes[i].next, d, nextThis))];
      ghost var w1 := Unlinked(w, d, x);
      ghost var p := b.edges[x].node.At(other);
      ghost var k := PositionOf(b, ch, w1, S(), other, x);
      assert ChainHeld(w1, S(), other, p, Chain(ch, w1, other, p));
      Unlink(peer, e, nextOther, other, b, ch, w1, p, k);
      UnlinkedEnds(b, w, x);
      assert Unlinked(w1, other, x) == Unlinked(Unlinked(w, Outgoing, x), Incoming, x);
      var _ := SwapOut(e, b, ch, Unlinked(w1, other, x));
    }

    /** The draining loop of `take_node_unchecked` for one direction. */
    method Drain(i: nat, d: Dir, ghost b: Store<N, E>, ghost ch: Chains, ghost w: View) returns (ghost w': View)
      requires Tracks(b, ch, w, S()) && Finished(b, w) && i < |nodes|
      modifies this`nodes, this`edges
      ensures Tracks(b, ch, w', S()) && Finished(b, w')
      ensures |nodes| == old(|nodes|) && nodes[i].value == old(nodes[i].value)
      ensures w'.no == w.no && w'.nl == w.nl && w'.el.Keys <= w.el.Keys
      ensures forall x :: x in w.el && x !in w'.el ==> Incident(b, x, w.no[i])
      ensures forall x :: x in w'.el ==> x < |b.edges| && b.edges[x].node.At(d) != w.no[i]
    {
      w' := w;
      while nodes[i].next.At(d).Some?
        invariant Tracks(b, ch, w', S()) && Finished(b, w')
        invariant |nodes| == old(|nodes|)
        invariant w'.no == w.no && w'.nl == w.nl && w'.el.Keys <= w.el.Keys
        invariant forall x :: x in w.el && x !in w'.el ==> Incident(b, x, w.no[i])
        decreases |edges|
      {
        var e := nodes[i].next.At(d).value;
        DrainHead(i, e, d, b, ch, w');
        w' := AfterRemoval(b, ch, w', e, S());
      }
      EmptyChain(b, ch, w', S(), d, w.no[i]);
      assert NodeHeld(b, w', S(), w.no[i]) && NodeHeld(b, w, old(S()), w.no[i]);
    }

    /** The work of `take_node_unchecked`: drain both chains of the node in slot `i`, then
        remove it. */
    method Evict(i: nat, ghost b: Store<N, E>, ghost ch: Chains, ghost w: View) returns (data: N, ghost w': View)
      requires Tracks(b, ch, w, S()) && Finished(b, w) && i < |nodes|
      modifies this`nodes, this`edges
      ensures Tracks(b, ch, w', S()) && Finished(b, w') && Evicted(b, w, w', i)
      ensures data == old(nodes[i].value)
    {
      ghost var w1 := Drain(i, Outgoing, b, ch, w);
      ghost var w2 := Drain(i, Incoming, b, ch, w1);
      BothDrained(b, w, w1, w2, w.no[i]);
      ghost var s := S();
      data := RemoveNodeInner(i, b, ch, w2);
      w' := NodeEvicted(b, ch, w, w2, s, i, S());
    }

    /** `take_node_unchecked`. */
    method TakeNode(i: nat) returns (data: N, ghost em: map<nat, nat>)
      requires Valid() && i < |nodes|
      modifies this
      ensures Valid()
      ensures data == old(nodes[i].value)
      ensures WithoutNode(old(S()), old(chains), S(), chains, i, em)
    {
      ghost var b, ch := S(), chains;
      ghost var w := Begin(b, ch);
      ghost var w';
      data, w' := Evict(i, b, ch, w);
      ghost var s, ch' := S(), chains;
      ch', em := NodeTaken(b, ch, w, w', i, s);
      chains := ch';
      assert S() == s && b == old(S()) && ch == old(chains);
    }

    /** `insert_node_unchecked`. */
    method InsertNode(value: N) returns (ix: nat)
      requires Valid()
      modifies this
      ensures Valid()
      ensures ix == |old(nodes)| && edges == old(edges)
      ensures nodes == old(nodes) + [NodeEntry(value, Pair(None, None))]
      ensures chains == Pair(old(chains.out) + [[]], old(chains.inn) + [[]])
    {
      ghost var b, ch := S(), chains;
      ix := |nodes|;
      nodes := nodes + [NodeEntry(value, Pair(None, None))];
      chains := Pair(chains.out + [[]], chains.inn + [[]]);
      NodeInserted(b, ch, value);
    }

    /** `insert_edge_unchecked`: the new edge becomes the head of its tail's outgoing and of its
        head's incoming chain. */
    method InsertEdge(value: E, from: nat, to: nat) returns (ix: nat)
      requires Valid() && from < |nodes| && to < |nodes|
      modifies this
      ensures Valid()
      ensures ix == |old(edges)| && |edges| == ix + 1 && |nodes| == |old(nodes)|
      ensures edges[..ix] == old(edges) && edges[ix].value == value && edges[ix].node == Pair(from, to)
      ensures forall v :: 0 <= v < |nodes| ==> nodes[v].value == old(nodes[v].value)
      ensures chains.out == old(chains.out[from := [|edges|] + chains.out[from]])
      ensures chains.inn == old(chains.inn[to := [|edges|] + chains.inn[to]])
    {
      ghost var b, ch := S(), chains;
      var oldOut, oldIn := nodes[from].next.At(Outgoing), nodes[to].next.At(Incoming);
      ix := |edges|;
      edges := edges + [EdgeEntry(value, Pair(oldOut, oldIn), Pair(from, to))];
      nodes := nodes[from := NodeEntry(nodes[from].value, With(nodes[from].next, Outgoing, Some(ix)))];
      nodes := nodes[to := NodeEntry(nodes[to].value, With(nodes[to].next, Incoming, Some(ix)))];
      chains := ChainsWithEdge(ch, ix, from, to);
      EdgeInserted(b, ch, value, from, to);
    }

    /** `node_unchecked_mut`: replace a node's payload. */
    method SetNode(i: nat, value: N)
      requires Valid() && i < |nodes|
      modifies this
      ensures Valid() && chains == old(chains) && edges == old(edges)
      ensures nodes == old(nodes)[i := NodeEntry(value, old(nodes)[i].next)]
    {
      ghost var b := S();
      nodes := nodes[i := NodeEntry(value, nodes[i].next)];
      PayloadsReplaced(b, chains, S());
    }

    /** `edge_unchecked_mut`: replace an edge's payload. */
    method SetEdge(e: nat, value: E)
      requires Valid() && e < |edges|
      modifies this
      ensures Valid() && chains == old(chains) && nodes == old(nodes)
      ensures edges == old(edges)[e := EdgeEntry(value, old(edges)[e].next, old(edges)[e].node)]
    {
      ghost var b := S();
      edges := edges[e := EdgeEntry(value, edges[e].next, edges[e].node)];
      PayloadsReplaced(b, chains, S());
    }

    /** `reverse`: exchange the two directions of every node and every edge. */
    method Reverse()
      requires Valid()
      modifies this
      ensures Valid()
      ensures |nodes| == old(|nodes|) && |edges| == old(|edges|)
      ensures forall v :: 0 <= v < |nodes| ==> nodes[v].value == old(nodes[v].value)
      ensures forall e :: 0 <= e < |edges| ==>
                edges[e].value == old(edges[e].value) && edges[e].node == old(edges[e].node).Swapped()
      ensures chains == old(chains).Swapped()
    {
      ghost var b, ch := S(), chains;
      var i := 0;
      while i < |nodes|
        invariant i <= |nodes| == |b.nodes| && edges == b.edges && chains == ch
        invariant forall k :: 0 <= k < |nodes| ==>
                    nodes[k] == if k < i then FlippedNode(b.nodes[k]) else b.nodes[k]
      {
        nodes := nodes[i := NodeEntry(nodes[i].value, nodes[i].next.Swapped())];
        i := i + 1;
      }
      ghost var flipped := nodes;
      i := 0;
      while i < |edges|
        invariant i <= |edges| == |b.edges| && chains == ch && nodes == flipped
        invariant forall k :: 0 <= k < |edges| ==>
                    edges[k] == if k < i then FlippedEdge(b.edges[k]) else b.edges[k]
      {
        edges := edges[i := EdgeEntry(edges[i].value, edges[i].next.Swapped(), edges[i].node.Swapped())];
        i := i + 1;
      }
      chains := ch.Swapped();
      Flipped(b, ch, S());
    }

    /** `EdgeIndicesOf`: the outgoing chain, then the incoming chain without self-loops. */
    method EdgeIndicesOf(v: nat) returns (r: seq<nat>)
      requires Valid() && v < |nodes|
      ensures NoDup(r)
      ensures forall e: nat :: e in r <==> e < |edges| && Incident(S(), e, v)
      ensures |chains.out| == |chains.inn| == |nodes|
      ensures r == chains.out[v] + Filter(chains.inn[v], NotFrom(S(), v))
    {
      r := ReadOutgoing(v);
      r := AddIncoming(v, r);
      IncidentChains(S(), chains, v, r);
    }

    /** The first half of `EdgeIndicesOf`: the outgoing chain. */
    method ReadOutgoing(v: nat) returns (r: seq<nat>)
      requires Valid() && v < |nodes|
      ensures |nodes| == |chains.inn| && r == chains.out[v] && NoDup(r)
      ensures forall k :: 0 <= k < |chains.inn[v]| ==> chains.inn[v][k] < |edges|
    {
      ghost var out := chains.out[v];
      assert Threaded(S(), Outgoing, v, chains.At(Outgoing)[v]) && Threaded(S(), Incoming, v, chains.At(Incoming)[v]);
      r := [];
      var cur := nodes[v].next.At(Outgoing);
      ghost var k := 0;
      while cur.Some?
        invariant k <= |out| && cur == LinkAt(out, k) && r == out[..k]
        decreases |out| - k
      {
        r := r + [cur.value];
        cur := edges[cur.value].next.At(Outgoing);
        k := k + 1;
      }
      assert r == out;
    }

    /** The second half of `EdgeIndicesOf`: the incoming chain without self-loops. */
    method AddIncoming(v: nat, out: seq<nat>) returns (r: seq<nat>)
      requires Valid() && v < |nodes| && NoDup(out)
      requires forall e: nat :: e in out <==> e in chains.out[v]
      ensures NoDup(r) && |chains.inn| == |nodes| && r == out + Filter(chains.inn[v], NotFrom(S(), v))
      ensures forall e: nat :: e in r <==>
                e in out || (e in chains.inn[v] && e < |edges| && edges[e].node.At(Outgoing) != v)
    {
      ghost var inn := chains.inn[v];
      assert Threaded(S(), Outgoing, v, chains.At(Outgoing)[v]);
      assert Threaded(S(), Incoming, v, chains.At(Incoming)[v]);
      assert forall e: nat :: e in out ==> e < |edges| && edges[e].node.At(Outgoing) == v;
      r := out;
      var cur := nodes[v].next.At(Incoming);
      ghost var k := 0;
      while cur.Some?
        invariant k <= |inn| && cur == LinkAt(inn, k)
        invariant NoDup(r) && r == out + Filter(inn[..k], NotFrom(S(), v))
        invariant forall e: nat :: e in r <==> e in out || (e in inn[..k] && edges[e].node.At(Outgoing) != v)
        decreases |inn| - k
      {
        assert inn[..k + 1] == inn[..k] + [inn[k]] && inn[k] !in inn[..k];
        FilterSnoc(inn[..k], inn[k], NotFrom(S(), v));
        if edges[cur.value].node.At(Outgoing) != v {
          r := r + [cur.value];
        }
        cur := edges[cur.value].next.At(Incoming);
        k := k + 1;
      }
      assert inn[..k] == inn;
    }

    method WriteLink(i: nat, pred: Slot, d: Dir, link: Slot)
      requires i < |nodes| && (pred.Some? ==> pred.value < |edges|)
      modifies this`nodes, this`edges
      ensures S() == SetLink(old(S()), i, pred, d, link)
    {
      match pred
      case None =>
        nodes := nodes[i := NodeEntry(nodes[i].value, With(nodes[i].next, d, link))];
      case Some(p) =>
        edges := edges[p := EdgeEntry(edges[p].value, With(edges[p].next, d, link), edges[p].node)];
    }

    /** `unlink_dying_edges`: one walk of the `d` chain of node `i` cuts out its `count` dying
        edges and stops at the last of them. */
    method UnlinkDying(i: nat, dying: set<nat>, count: nat, d: Dir, ghost b: Store<N, E>, ghost ch: Chains,
                       ghost w: View)
      requires Tracks(b, ch, w, S()) && PointersCurrent(w) && i in w.lv
      requires w.el == Identity(|b.edges|) && w.nl == Identity(|b.nodes|)
      requires count == |dying * Elems(Chain(ch, w, d, i))|
      modifies this`nodes, this`edges
      ensures Tracks(b, ch, Without2(w, d, dying * Elems(Chain(ch, w, d, i))), S())
    {
      ghost var j, gone, r := 0, {}, w;
      var expected := count;
      var pred: Slot := None;
      UnlinkLoopStart(b, ch, w, S(), d, i, dying);
      while expected > 0
        invariant UnlinkLoop(b, ch, w, S(), d, i, dying, gone, r, j, expected)
        invariant pred == Pred(r, Chain(ch, r, d, i), j)
        decreases |Chain(ch, r, d, i)| - j
      {
        pred, expected, gone, r, j := UnlinkTurn(i, dying, expected, pred, d, b, ch, w, gone, r, j);
      }
      UnlinkLoopDone(b, ch, w, S(), d, i, dying, gone, r, j);
    }

    /** One turn of `unlink_dying_edges`. */
    method UnlinkTurn(i: nat, dying: set<nat>, left: nat, pred: Slot, d: Dir, ghost b: Store<N, E>, ghost ch: Chains,
                      ghost w: View, ghost gone: set<nat>, ghost r: View, ghost j: nat)
      returns (pred': Slot, expected: nat, ghost gone': set<nat>, ghost r': View, ghost j': nat)
      requires UnlinkLoop(b, ch, w, S(), d, i, dying, gone, r, j, left) && left > 0
      requires PointersCurrent(w) && i in w.lv && w.el == Identity(|b.edges|) && w.nl == Identity(|b.nodes|)
      requires pred == Pred(r, Chain(ch, r, d, i), j)
      modifies this`nodes, this`edges
      ensures UnlinkLoop(b, ch, w, S(), d, i, dying, gone', r', j', expected)
      ensures pred' == Pred(r', Chain(ch, r', d, i), j')
      ensures 0 <= |Chain(ch, r', d, i)| - j' < |Chain(ch, r, d, i)| - j
    {
      UnlinkLoopRead(b, ch, w, S(), d, i, dying, gone, r, j, left);
      var e := ReadLink(Store(nodes, edges), i, pred, d).value;
      if e in dying {
        pred', expected, gone', j' := pred, left - 1, gone + {Chain(ch, r, d, i)[j]}, j;
        r' := CutNext(i, dying, left, pred, edges[e].next.At(d), d, b, ch, w, gone, r, j);
      } else {
        UnlinkLoopPass(b, ch, w, S(), d, i, dying, gone, r, j, left);
        pred', expected, gone', r', j' := Some(e), left, gone, r, j + 1;
      }
    }

    method CutNext(i: nat, ghost dying: set<nat>, ghost left: nat, pred: Slot, next: Slot, d: Dir, ghost b: Store<N, E>,
                   ghost ch: Chains, ghost w: View, ghost gone: set<nat>, ghost r: View, ghost j: nat)
      returns (ghost r': View)
      requires UnlinkLoop(b, ch, w, S(), d, i, dying, gone, r, j, left) && left > 0 && i in w.lv
      requires w.nl == Identity(|b.nodes|)
      requires j < |Chain(ch, r, d, i)| && Chain(ch, r, d, i)[j] in dying
      requires pred == Pred(r, Chain(ch, r, d, i), j) && next == Pointer(r, d, Chain(ch, r, d, i), j + 1)
      requires i < |nodes| && (pred.Some? ==> pred.value < |edges|)
      modifies this`nodes, this`edges
      ensures UnlinkLoop(b, ch, w, S(), d, i, dying, gone + {Chain(ch, r, d, i)[j]}, r', j, left - 1)
      ensures pred == Pred(r', Chain(ch, r', d, i), j) && |Chain(ch, r', d, i)| == |Chain(ch, r, d, i)| - 1
    {
      r' := UnlinkLoopCut(b, ch, w, S(), d, i, dying, gone, r, j, left);
      WriteLink(i, pred, d, next);
    }

    /** `patch_moved_edges`: one walk of the `d` chain of node `i` redirects its `count` stale
        pointers and stops at the last of them. */
    method PatchMoved(i: nat, moved: map<nat, nat>, count: nat, d: Dir, ghost b: Store<N, E>, ghost ch: Chains,
                      ghost w: View)
      requires Tracks(b, ch, w, S()) && i in w.lv && w.nl[i] == i && i < |b.nodes|
      requires AllStale(w, d, Chain(ch, w, d, i)) && MovedMap(w, moved)
      requires count == |moved.Keys * Elems(Chain(ch, w, d, i))|
      modifies this`nodes, this`edges
      ensures Tracks(b, ch, PatchedView(w, d, Chain(ch, w, d, i)), S())
    {
      ghost var c, k, r := Chain(ch, w, d, i), 0, w;
      var expected := count;
      var pred: Slot := None;
      PatchLoopStart(b, ch, w, S(), d, i, moved);
      while expected > 0
        invariant PatchLoop(b, ch, w, S(), d, i, moved, r, k, expected)
        invariant pred == Pred(w, c, k)
        decreases |c| - k
      {
        PatchLoopRead(b, ch, w, S(), d, i, moved, r, k, expected);
        pred, expected, r := PatchTurn(i, moved, expected, pred, d, b, ch, w, r, k);
        k := k + 1;
      }
      PatchLoopDone(b, ch, w, S(), d, i, moved, r, k);
    }

    /** One turn of `patch_moved_edges`. */
    method PatchTurn(i: nat, moved: map<nat, nat>, left: nat, pred: Slot, d: Dir,
                     ghost b: Store<N, E>, ghost ch: Chains, ghost w: View, ghost r: View, ghost k: nat)
      returns (pred': Slot, expected: nat, ghost r': View)
      requires PatchLoop(b, ch, w, S(), d, i, moved, r, k, left) && left > 0
      requires i in w.lv && w.nl[i] == i && i < |b.nodes|
      requires AllStale(w, d, Chain(ch, w, d, i)) && MovedMap(w, moved)
      requires k < |Chain(ch, w, d, i)| && Chain(ch, r, d, i) == Chain(ch, w, d, i)
      requires pred == Pred(w, Chain(ch, w, d, i), k) && (pred.Some? ==> pred.value < |edges|) && i < |nodes|
      requires ReadLink(S(), i, pred, d) == Some(Chain(ch, w, d, i)[k])
      modifies this`nodes, this`edges
      ensures PatchLoop(b, ch, w, S(), d, i, moved, r', k + 1, expected)
      ensures pred' == Pred(w, Chain(ch, w, d, i), k + 1)
    {
      var cur := ReadLink(Store(nodes, edges), i, pred, d).value;
      ghost var s := S();
      expected := left;
      pred' := Some(cur);
      if cur in moved {
        WriteLink(i, pred, d, Some(moved[cur]));
        pred' := Some(moved[cur]);
        expected := expected - 1;
      }
      r' := PatchLoopStep(b, ch, w, s, d, i, moved, r, k, left, S());
    }

    /** Number of members of `list` on each chain of a node outside `dead`. */
    method CountEnds(list: seq<nat>, dead: set<nat>) returns (m: map<ChainKey, nat>)
      requires NoDup(list) && forall k :: 0 <= k < |list| ==> list[k] < |edges|
      ensures Counts(S(), Elems(list), dead, m)
    {
      m := map[];
      var k := 0;
      assert list[..0] == [];
      while k < |list|
        invariant k <= |list| && Counts(S(), Elems(list[..k]), dead, m)
      {
        assert list[..k + 1] == list[..k] + [list[k]];
        assert Elems(list[..k + 1]) == Elems(list[..k]) + {list[k]};
        CountStep(S(), Elems(list[..k]), dead, m, list[k]);
        m := Counted(m, dead, edges[list[k]].node.At(Outgoing), Outgoing);
        m := Counted(m, dead, edges[list[k]].node.At(Incoming), Incoming);
        k := k + 1;
      }
      assert list[..k] == list;
    }

    /** Phase 1: the requested edges and every edge touching a requested node, each once. */
    method CollectDying(ns: seq<nat>, es: seq<nat>) returns (all: seq<nat>)
      requires Valid()
      requires (forall k :: 0 <= k < |ns| ==> ns[k] < |nodes|) && (forall k :: 0 <= k < |es| ==> es[k] < |edges|)
      ensures NoDup(all)
      ensures forall x: nat :: x in all <==> Dying(S(), ns, es, x)
    {
      all := [];
      var k := 0;
      while k < |es|
        invariant k <= |es| && NoDup(all)
        invariant forall x: nat :: x in all <==> x in es[..k]
      {
        assert es[..k + 1] == es[..k] + [es[k]];
        if es[k] !in all {
          all := all + [es[k]];
        }
        k := k + 1;
      }
      assert es[..k] == es;
      k := 0;
      assert ns[..0] == [];
      while k < |ns|
        invariant k <= |ns| && NoDup(all)
        invariant forall x: nat :: x in all <==> Dying(S(), ns[..k], es, x)
      {
        ghost var before := all;
        all := CollectChain(ns[k], Outgoing, all);
        all := CollectChain(ns[k], Incoming, all);
        DyingNext(S(), chains, ns, es, k, before, all);
        k := k + 1;
      }
      assert ns[..k] == ns;
    }

    method CollectChain(v: nat, d: Dir, acc: seq<nat>) returns (all: seq<nat>)
      requires Valid() && v < |nodes| && NoDup(acc)
      ensures NoDup(all)
      ensures forall x: nat :: x in all <==> x in acc || x in chains.At(d)[v]
    {
      ghost var c := chains.At(d)[v];
      assert Threaded(S(), d, v, chains.At(d)[v]);
      all := acc;
      var cur := nodes[v].next.At(d);
      ghost var k := 0;
      while cur.Some?
        invariant k <= |c| && cur == LinkAt(c, k) && NoDup(all)
        invariant forall x: nat :: x in all <==> x in acc || x in c[..k]
        decreases |c| - k
      {
        assert c[..k + 1] == c[..k] + [c[k]];
        if cur.value !in all {
          NoDupMore(all, cur.value);
          all := all + [cur.value];
        }
        cur := edges[cur.value].next.At(d);
        k := k + 1;
      }
      assert c[..k] == c;
    }

    /** Phase 2: sweep every chain of a surviving node that holds a dying edge. */
    method UnlinkAll(all: seq<nat>, dead: set<nat>, ghost b: Store<N, E>, ghost ch: Chains, ghost w: View)
      returns (ghost r: View)
      requires S() == b && Tracks(b, ch, w, b) && PointersCurrent(w)
      requires w.el == Identity(|b.edges|) && w.nl == Identity(|b.nodes|)
      requires forall d: Dir :: w.lk.At(d) == Below(|b.edges|)
      requires forall v: nat :: v in w.lv <==> v < |b.nodes| && v !in dead
      requires NoDup(all) && forall k :: 0 <= k < |all| ==> all[k] < |b.edges|
      modifies this`nodes, this`edges
      ensures r == w.(lk := r.lk) && Tracks(b, ch, r, S())
      ensures forall d: Dir :: r.lk.At(d) == Below(|b.edges|) - Elems(all)
    {
      var counts := CountEnds(all, dead);
      var dying := set x | x in all;
      SweptStart(b, w, dying, dead, counts);
      var queued := counts.Keys;
      while queued != {}
        invariant queued <= counts.Keys
        invariant Tracks(b, ch, SweptView(b, w, dying, dead, queued), S())
        decreases |queued|
      {
        var key :| key in queued;
        var (v, d) := key;
        assert v !in dead && v < |b.nodes| && counts[key] == |Ends(b, dying, d, v)| by {
          KeyOfCount(b, ch, dying, dead, counts, v, d);
        }
        SweptChain(b, ch, w, dying, dead, queued, v, d);
        SweptNext(b, w, dying, dead, queued, v, d);
        UnlinkDying(v, dying, counts[key], d, b, ch, SweptView(b, w, dying, dead, queued));
        queued := queued - {key};
      }
      r := SweptDone(b, ch, w, S(), dying, dead);
    }

    /** Position of every requested index. */
    method OutputSlots(wanted: seq<nat>) returns (m: map<nat, nat>)
      requires NoDup(wanted)
      ensures forall k :: 0 <= k < |wanted| ==> wanted[k] in m && m[wanted[k]] == k
      ensures forall x :: x in m ==> m[x] < |wanted| && wanted[m[x]] == x
    {
      m := map[];
      var k := 0;
      while k < |wanted|
        invariant k <= |wanted|
        invariant forall j :: 0 <= j < k ==> wanted[j] in m && m[wanted[j]] == j
        invariant forall x :: x in m ==> m[x] < k && wanted[m[x]] == x
      {
        if wanted[k] !in m {
          m := m[wanted[k] := k];
        }
        k := k + 1;
      }
    }

    /** Phase 3: swap-remove every dying edge, highest slot first, recording relocations. */
    method RemoveDying(all: seq<nat>, es: seq<nat>, ghost b: Store<N, E>, ghost ch: Chains, ghost w: View)
      returns (buf: seq<Option<E>>, moves: map<nat, nat>, ghost r: View)
      requires Tracks(b, ch, w, S()) && NoDup(all) && NoDup(es)
      requires w.eo == Upto(|b.edges|) && w.el == Identity(|b.edges|)
      requires forall k :: 0 <= k < |all| ==> all[k] < |b.edges|
      requires forall k :: 0 <= k < |es| ==> es[k] < |b.edges|
      requires forall d: Dir, x: nat :: x in all ==> x !in w.lk.At(d)
      modifies this`edges
      ensures Tracks(b, ch, r, S()) && r == w.(eo := r.eo, el := r.el)
      ensures forall x: nat :: x in r.el <==> x < |b.edges| && x !in all
      ensures Filled(buf, es, EdgePayloads(b), r.el)
      ensures MovedMap(r, moves) && forall x :: x in moves ==> moves[x] < |edges| <= x
    {
      var outputSlot := OutputSlots(es);
      var q := SortDescending(all, Itself);
      SortedIndices(|b.edges|, all, q);
      assert q[0..] == q;
      var empty: seq<Option<E>> := seq(|es|, _ => None);
      buf, moves, r := RemoveSorted(q, es, outputSlot, empty, b, ch, w);
      assert q[..|q|] == q;
    }

    method RemoveSorted(q: seq<nat>, es: seq<nat>, outputSlot: map<nat, nat>, empty: seq<Option<E>>,
                        ghost b: Store<N, E>, ghost ch: Chains, ghost w: View)
      returns (buf: seq<Option<E>>, moves: map<nat, nat>, ghost r: View)
      requires EdgeLoop(b, ch, w, S(), q, 0, w, map[], map[]) && NoDup(es)
      requires Filled(empty, es, EdgePayloads(b), w.el)
      requires forall k :: 0 <= k < |es| ==> es[k] in outputSlot && outputSlot[es[k]] == k
      requires forall x :: x in outputSlot ==> outputSlot[x] < |es| && es[outputSlot[x]] == x
      requires forall d: Dir, x: nat :: x in q ==> x !in w.lk.At(d)
      modifies this`edges
      ensures exists origin :: EdgeLoop(b, ch, w, S(), q, |q|, r, moves, origin)
      ensures Filled(buf, es, EdgePayloads(b), r.el)
    {
      buf, moves, r := empty, map[], w;
      var origin: map<nat, nat> := map[];
      ghost var payload := EdgePayloads(b);
      var k := 0;
      while k < |q|
        invariant k <= |q| && EdgeLoop(b, ch, w, S(), q, k, r, moves, origin)
        invariant Filled(buf, es, payload, r.el)
      {
        var e := q[k];
        assert e in q;
        ghost var r' := EdgeLoopStep(b, ch, w, S(), q, k, r, moves, origin);
        var data, length := edges[e].value, |edges|;
        edges := SwapRemove(edges, e);
        moves, origin := NextMoves(moves, origin, length, e), NextOrigin(origin, length, e);
        ghost var before := buf;
        if e in outputSlot {
          buf := buf[outputSlot[e] := Some(data)];
        }
        FilledNext(before, es, payload, r.el, r'.el, e, buf);
        r := r';
        k := k + 1;
      }
    }

    /** Phase 4: redirect the stale pointers, one sweep per chain that holds any. */
    method PatchAll(moves: map<nat, nat>, ghost b: Store<N, E>, ghost ch: Chains, ghost w: View)
      returns (ghost r: View)
      requires Tracks(b, ch, w, S()) && Displaced(b, w) && MovedMap(w, moves)
      modifies this`nodes, this`edges
      ensures r == w.(pl := r.pl) && PointersCurrent(r) && Tracks(b, ch, r, S())
    {
      var list := ValuesOf(moves, b, ch, w);
      var counts := CountEnds(list, {});
      var queued := counts.Keys;
      StaleKeys(b, ch, w, S(), moves, counts);
      while queued != {}
        invariant queued <= counts.Keys
        invariant Tracks(b, ch, RelinkedView(b, w, queued), S())
        decreases |queued|
      {
        var key :| key in queued;
        var (v, d) := key;
        assert StaleKey(b, ch, w, moves, counts, v, d);
        RelinkedChain(b, ch, w, queued, v, d);
        PatchMoved(v, moves, counts[key], d, b, ch, RelinkedView(b, w, queued));
        queued := queued - {key};
      }
      RelinkedDone(b, w);
      r := RelinkedView(b, w, {});
    }

    /** The present slots of the moved edges. */
    method ValuesOf(moves: map<nat, nat>, ghost b: Store<N, E>, ghost ch: Chains, ghost w: View)
      returns (list: seq<nat>)
      requires Tracks(b, ch, w, S()) && MovedMap(w, moves)
      ensures NoDup(list) && Elems(list) == moves.Values
      ensures forall k :: 0 <= k < |list| ==> list[k] < |edges|
    {
      list := [];
      var rest := moves.Keys;
      while rest != {}
        invariant rest <= moves.Keys && NoDup(list)
        invariant forall y: nat :: y in list <==> exists x :: x in moves && x !in rest && moves[x] == y
        decreases |rest|
      {
        var x :| x in rest;
        forall z | z in moves && z !in rest ensures moves[z] != moves[x] {
          assert w.eo[w.el[z]] == z && w.eo[w.el[x]] == x;
        }
        assert moves[x] !in list;
        list := list + [moves[x]];
        rest := rest - {x};
      }
      forall k | 0 <= k < |list| ensures list[k] < |edges| {
        assert list[k] in list;
      }
    }

    /** Phase 5: swap-remove the requested nodes, highest slot first, recording relocations. */
    method RemoveNodes(ns: seq<nat>, ghost b: Store<N, E>, ghost ch: Chains, ghost w: View)
      returns (buf: seq<Option<N>>, moves: map<nat, nat>, ghost r: View)
      requires Tracks(b, ch, w, S()) && NoDup(ns)
      requires w.no == Upto(|b.nodes|) && w.nl == Identity(|b.nodes|)
      requires forall k :: 0 <= k < |ns| ==> ns[k] < |b.nodes| && ns[k] !in w.lv
      modifies this`nodes
      ensures Tracks(b, ch, r, S()) && r == w.(no := r.no, nl := r.nl)
      ensures forall v: nat :: v in r.nl <==> v < |b.nodes| && v !in ns
      ensures Filled(buf, ns, NodePayloads(b), r.nl)
      ensures MovedMapOf(r.nl, moves) && forall v :: v in moves ==> moves[v] < |nodes| <= v
    {
      var pairs := SortedPairs(ns);
      PendingAtStart(|b.nodes|, ns);
      assert Seconds(pairs)[0..] == Seconds(pairs);
      var empty: seq<Option<N>> := seq(|ns|, _ => None);
      buf, moves, r := RemoveNodesSorted(pairs, ns, empty, b, ch, w);
      AllRequested(r.nl, |b.nodes|, ns, |pairs|);
    }

    method RemoveNodesSorted(pairs: seq<(nat, nat)>, ghost ns: seq<nat>, empty: seq<Option<N>>,
                             ghost b: Store<N, E>, ghost ch: Chains, ghost w: View)
      returns (buf: seq<Option<N>>, moves: map<nat, nat>, ghost r: View)
      requires pairs == SortedPairs(ns) && NoDup(ns) && forall k :: 0 <= k < |ns| ==> ns[k] !in w.lv
      requires NodeLoop(b, ch, w, S(), Seconds(pairs), 0, w, map[], map[])
      requires Filled(empty, ns, NodePayloads(b), w.nl)
      modifies this`nodes
      ensures exists origin :: NodeLoop(b, ch, w, S(), Seconds(pairs), |pairs|, r, moves, origin)
      ensures Filled(buf, ns, NodePayloads(b), r.nl)
    {
      ghost var q, payload := Seconds(pairs), NodePayloads(b);
      buf, moves, r := empty, map[], w;
      var origin: map<nat, nat> := map[];
      var k := 0;
      while k < |pairs|
        invariant k <= |pairs| && NodeLoop(b, ch, w, S(), q, k, r, moves, origin)
        invariant Filled(buf, ns, payload, r.nl)
      {
        var (slot, i) := pairs[k];
        RequestAt(ns, k);
        ghost var r' := NodeLoopStep(b, ch, w, S(), q, k, r, moves, origin);
        var data, length := nodes[i].value, |nodes|;
        nodes := SwapRemove(nodes, i);
        moves, origin := NextMoves(moves, origin, length, i), NextOrigin(origin, length, i);
        ghost var before := buf;
        buf := buf[slot := Some(data)];
        FilledNext(before, ns, payload, r.nl, r'.nl, i, buf);
        r := r';
        k := k + 1;
      }
    }

    /** Phase 6: rewrite the endpoints of the edges of every relocated node. */
    method RewriteAll(moves: map<nat, nat>, ghost b: Store<N, E>, ghost ch: Chains, ghost w: View)
      requires Tracks(b, ch, w, S()) && Homeless(b, w) && MovedMapOf(w.nl, moves)
      modifies this`edges
      ensures Tracks(b, ch, RehousedView(b, w, {}), S())
    {
      var queued := moves.Keys;
      RehousedStart(b, w, queued);
      while queued != {}
        invariant queued <= moves.Keys
        invariant Tracks(b, ch, RehousedView(b, w, queued), S())
        decreases |queued|
      {
        var u :| u in queued;
        RehousedNext(b, ch, w, queued, u);
        RewriteBoth(moves[u], b, ch, RehousedView(b, w, queued), u);
        queued := queued - {u};
      }
    }

    /** The edge-only fast path: scalar removals, highest slot first. */
    method TakeEdgesDescending(es: seq<nat>, ghost b: Store<N, E>, ghost ch: Chains, ghost w: View)
      returns (out: seq<E>, ghost r: View)
      requires Tracks(b, ch, w, S()) && Finished(b, w) && NoDup(es)
      requires w.eo == Upto(|b.edges|) && w.el == Identity(|b.edges|) && w.nl == Identity(|b.nodes|)
      requires forall k :: 0 <= k < |es| ==> es[k] < |b.edges|
      modifies this`nodes, this`edges
      ensures BatchView(b, ch, r, S(), [], es) && r.nl == Identity(|b.nodes|)
      ensures |out| == |es| && forall k :: 0 <= k < |es| ==> out[k] == b.edges[es[k]].value
    {
      var pairs := SortedPairs(es);
      PendingAtStart(|b.edges|, es);
      assert Seconds(pairs)[0..] == Seconds(pairs);
      var empty: seq<Option<E>> := seq(|es|, _ => None);
      var buf;
      buf, r := DetachSorted(pairs, es, empty, b, ch, w);
      EdgeFastDone(b, ch, w, S(), es, |pairs|, r);
      RequestsFilled(buf, es, EdgePayloads(b), r.el, |b.edges|, |pairs|);
      out := Unwrapped(buf);
    }

    method DetachSorted(pairs: seq<(nat, nat)>, ghost es: seq<nat>, empty: seq<Option<E>>,
                        ghost b: Store<N, E>, ghost ch: Chains, ghost w: View)
      returns (buf: seq<Option<E>>, ghost r: View)
      requires pairs == SortedPairs(es) && NoDup(es)
      requires EdgeFast(b, ch, w, S(), Seconds(pairs), 0, w)
      requires Filled(empty, es, EdgePayloads(b), w.el)
      modifies this`nodes, this`edges
      ensures EdgeFast(b, ch, w, S(), Seconds(pairs), |pairs|, r)
      ensures Filled(buf, es, EdgePayloads(b), r.el)
    {
      ghost var q, payload := Seconds(pairs), EdgePayloads(b);
      buf, r := empty, w;
      var k := 0;
      while k < |pairs|
        invariant k <= |pairs| && EdgeFast(b, ch, w, S(), q, k, r)
        invariant Filled(buf, es, payload, r.el)
      {
        var (slot, e) := pairs[k];
        RequestAt(es, k);
        EdgeFastRead(b, ch, w, S(), q, k, r);
        var data := Detach(e, b, ch, r);
        ghost var r' := EdgeFastStep(b, ch, w, S(), q, k, r);
        ghost var before := buf;
        buf := buf[slot := Some(data)];
        FilledNext(before, es, payload, r.el, r'.el, e, buf);
        r := r';
        k := k + 1;
      }
    }

    /** The node-only fast path: scalar removals, highest slot first. */
    method TakeNodesDescending(ns: seq<nat>, ghost b: Store<N, E>, ghost ch: Chains, ghost w: View)
      returns (out: seq<N>, ghost r: View)
      requires Tracks(b, ch, w, S()) && Finished(b, w) && NoDup(ns)
      requires w.no == Upto(|b.nodes|) && w.el == Identity(|b.edges|) && w.nl == Identity(|b.nodes|)
      requires forall k :: 0 <= k < |ns| ==> ns[k] < |b.nodes|
      modifies this`nodes, this`edges
      ensures BatchView(b, ch, r, S(), ns, [])
      ensures |out| == |ns| && forall k :: 0 <= k < |ns| ==> out[k] == b.nodes[ns[k]].value
    {
      var pairs := SortedPairs(ns);
      PendingAtStart(|b.nodes|, ns);
      assert Seconds(pairs)[0..] == Seconds(pairs) && Seconds(pairs)[..0] == [];
      var empty: seq<Option<N>> := seq(|ns|, _ => None);
      var buf;
      buf, r := EvictSorted(pairs, ns, empty, b, ch, w);
      NodeFastDone(b, ch, S(), ns, |pairs|, r);
      RequestsFilled(buf, ns, NodePayloads(b), r.nl, |b.nodes|, |pairs|);
      out := Unwrapped(buf);
    }

    method EvictSorted(pairs: seq<(nat, nat)>, ghost ns: seq<nat>, empty: seq<Option<N>>,
                       ghost b: Store<N, E>, ghost ch: Chains, ghost w: View)
      returns (buf: seq<Option<N>>, ghost r: View)
      requires pairs == SortedPairs(ns) && NoDup(ns)
      requires NodeFast(b, ch, S(), Seconds(pairs), 0, w)
      requires Filled(empty, ns, NodePayloads(b), w.nl)
      modifies this`nodes, this`edges
      ensures NodeFast(b, ch, S(), Seconds(pairs), |pairs|, r)
      ensures Filled(buf, ns, NodePayloads(b), r.nl)
    {
      ghost var q, payload := Seconds(pairs), NodePayloads(b);
      buf, r := empty, w;
      var k := 0;
      while k < |pairs|
        invariant k <= |pairs| && NodeFast(b, ch, S(), q, k, r)
        invariant Filled(buf, ns, payload, r.nl)
      {
        var (slot, i) := pairs[k];
        RequestAt(ns, k);
        NodeFastRead(b, ch, S(), q, k, r);
        var data;
        ghost var r';
        data, r' := Evict(i, b, ch, r);
        NodeFastStep(b, ch, S(), q, k, r, r');
        ghost var before := buf;
        buf := buf[slot := Some(data)];
        FilledNext(before, ns, payload, r.nl, r'.nl, i, buf);
        r := r';
        k := k + 1;
      }
    }

    /** Phases 1 to 4: collect, unlink and remove the dying edges, then repair the pointers. */
    method EdgePhases(ns: seq<nat>, es: seq<nat>, ghost b: Store<N, E>, ghost ch: Chains, ghost w: View)
      returns (buf: seq<Option<E>>, ghost r: View)
      requires Valid() && S() == b && chains == ch && NoDup(es)
      requires Tracks(b, ch, w, b) && Finished(b, w)
      requires w.eo == Upto(|b.edges|) && w.el == Identity(|b.edges|) && w.nl == Identity(|b.nodes|)
      requires forall k :: 0 <= k < |ns| ==> ns[k] < |b.nodes|
      requires forall k :: 0 <= k < |es| ==> es[k] < |b.edges|
      modifies this`nodes, this`edges
      ensures Tracks(b, ch, r, S()) && EdgesDone(b, w, r, ns, es)
      ensures Filled(buf, es, EdgePayloads(b), r.el)
    {
      var dead := set v | v in ns;
      var all := CollectDying(ns, es);
      ghost var w1 := AbandonDead(b, ch, w, ns, es, all);
      ghost var w2 := UnlinkAll(all, dead, b, ch, w1);
      var moves;
      ghost var w3;
      buf, moves, w3 := RemoveDying(all, es, b, ch, w2);
      DisplacedAfterRemoval(b, ch, w, w1, w2, w3, S(), ns, es, all);
      r := PatchAll(moves, b, ch, w3);
      RelinkedAfterPatch(b, w, w3, r, ns, es, all);
    }

    /** Phases 5 and 6: remove the nodes, then rewrite the endpoints of relocated ones. */
    method NodePhases(ns: seq<nat>, ghost b: Store<N, E>, ghost ch: Chains, ghost w: View)
      returns (buf: seq<Option<N>>, ghost r: View)
      requires Tracks(b, ch, w, S()) && Relinked(b, w, ns) && NoDup(ns)
      requires w.no == Upto(|b.nodes|) && w.nl == Identity(|b.nodes|)
      requires forall k :: 0 <= k < |ns| ==> ns[k] < |b.nodes|
      modifies this`nodes, this`edges
      ensures Tracks(b, ch, r, S()) && Finished(b, r) && r.el == w.el
      ensures forall v: nat :: v in r.nl <==> v < |b.nodes| && v !in ns
      ensures Filled(buf, ns, NodePayloads(b), r.nl)
    {
      var moves;
      ghost var w5;
      buf, moves, w5 := RemoveNodes(ns, b, ch, w);
      HomelessAfterRemoval(b, w, w5, ns);
      RewriteAll(moves, b, ch, w5);
      RehousedDone(b, w5);
      r := RehousedView(b, w5, {});
    }

    /** The phased path. */
    method TakePhased(ns: seq<nat>, es: seq<nat>, ghost b: Store<N, E>, ghost ch: Chains, ghost w: View)
      returns (nodesOut: seq<N>, edgesOut: seq<E>, ghost r: View)
      requires Valid() && S() == b && chains == ch && NoDup(ns) && NoDup(es)
      requires Tracks(b, ch, w, b) && Finished(b, w)
      requires w.eo == Upto(|b.edges|) && w.el == Identity(|b.edges|)
      requires w.no == Upto(|b.nodes|) && w.nl == Identity(|b.nodes|)
      requires forall k :: 0 <= k < |ns| ==> ns[k] < |b.nodes|
      requires forall k :: 0 <= k < |es| ==> es[k] < |b.edges|
      modifies this`nodes, this`edges
      ensures BatchView(b, ch, r, S(), ns, es)
      ensures |nodesOut| == |ns| && forall k :: 0 <= k < |ns| ==> nodesOut[k] == b.nodes[ns[k]].value
      ensures |edgesOut| == |es| && forall k :: 0 <= k < |es| ==> edgesOut[k] == b.edges[es[k]].value
    {
      var edgeBuf, nodeBuf;
      ghost var w4;
      edgeBuf, w4 := EdgePhases(ns, es, b, ch, w);
      nodeBuf, r := NodePhases(ns, b, ch, w4);
      FilledAll(edgeBuf, es, EdgePayloads(b), r.el);
      FilledAll(nodeBuf, ns, NodePayloads(b), r.nl);
      nodesOut, edgesOut := Unwrapped(nodeBuf), Unwrapped(edgeBuf);
    }

    /** `take_nodes_edges_unchecked`: remove the nodes `ns`, every edge touching them, and the
        edges `es`; the payloads come back in the order of the requests. */
    method TakeNodesEdges(ns: seq<nat>, es: seq<nat>)
      returns (nodesOut: seq<N>, edgesOut: seq<E>, ghost nm: map<nat, nat>, ghost em: map<nat, nat>)
      requires Valid() && NoDup(ns) && NoDup(es)
      requires forall k :: 0 <= k < |ns| ==> ns[k] < |nodes|
      requires forall k :: 0 <= k < |es| ==> es[k] < |edges|
      modifies this
      ensures Valid()
      ensures BatchRemoved(old(S()), old(chains), S(), chains, ns, es, nm, em)
      ensures ns == [] ==> nm == Identity(|old(nodes)|)
      ensures |nodesOut| == |ns| && forall k :: 0 <= k < |ns| ==> nodesOut[k] == old(nodes)[ns[k]].value
      ensures |edgesOut| == |es| && forall k :: 0 <= k < |es| ==> edgesOut[k] == old(edges)[es[k]].value
    {
      ghost var b, ch := S(), chains;
      ghost var w := Begin(b, ch);
      ghost var r;
      if |ns| == 0 {
        nodesOut := [];
        edgesOut, r := TakeEdgesDescending(es, b, ch, w);
      } else if |es| == 0 && |edges| * 2 <= SCALAR_NODE_MAX_AVG_DEGREE * |nodes| {
        edgesOut := [];
        nodesOut, r := TakeNodesDescending(ns, b, ch, w);
      } else {
        nodesOut, edgesOut, r := TakePhased(ns, es, b, ch, w);
      }
      ghost var s := S();
      ghost var ch';
      ch', nm, em := BatchDone(b, ch, r, s, ns, es);
      chains := ch';
      assert S() == s && b == old(S()) && ch == old(chains);
    }
  }
}