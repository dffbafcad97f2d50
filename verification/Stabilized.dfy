/** Stable handles over the linked graph (`src/graph/stabilized.rs`). */
module Stabilized {
  import opened Seqs
  import opened Vec
  import opened Versions
  import opened LinkedStore
  import opened LinkedView
  import opened LinkedBatch
  import opened LinkedGraph

  function NodeItems<N>(nodes: seq<NodeEntry<Versioned<N>>>): (r: seq<Versioned<N>>)
    ensures |r| == |nodes| && forall i :: 0 <= i < |r| ==> r[i] == nodes[i].value
  {
    seq(|nodes|, i requires 0 <= i < |nodes| => nodes[i].value)
  }

  function EdgeItems<E>(edges: seq<EdgeEntry<Versioned<E>>>): (r: seq<Versioned<E>>)
    ensures |r| == |edges| && forall i :: 0 <= i < |r| ==> r[i] == edges[i].value
  {
    seq(|edges|, i requires 0 <= i < |edges| => edges[i].value)
  }

  type Ends = map<Handle, Pair<Handle>>

  /** A live edge still lies between the two live nodes it was inserted between. */
  ghost predicate EndsOk<N, E>(nodes: seq<NodeEntry<Versioned<N>>>, edges: seq<EdgeEntry<Versioned<E>>>, ends: Ends) {
    forall h {:trigger EndsAt(nodes, edges, ends, h)} :: Accepts(EdgeItems(edges), h) ==> EndsAt(nodes, edges, ends, h)
  }

  ghost predicate EndsAt<N, E>(nodes: seq<NodeEntry<Versioned<N>>>, edges: seq<EdgeEntry<Versioned<E>>>, ends: Ends,
                               h: Handle)
  {
    && h in ends && h.slot < |edges|
    && forall d: Dir :: Accepts(NodeItems(nodes), ends[h].At(d)) && edges[h.slot].node.At(d) == ends[h].At(d).slot
  }

  /** Everything issued and removed so far, for nodes and for edges. */
  datatype History<+N, +E> = History(nodeLog: map<Handle, N>, nodeGone: set<Handle>,
                                     edgeLog: map<Handle, E>, edgeGone: set<Handle>, ends: Ends)

  ghost predicate Tells<N, E>(nodes: seq<NodeEntry<Versioned<N>>>, edges: seq<EdgeEntry<Versioned<E>>>,
                              hist: History<N, E>)
  {
    && Issued(NodeItems(nodes), hist.nodeLog, hist.nodeGone)
    && Issued(EdgeItems(edges), hist.edgeLog, hist.edgeGone)
    && EndsOk(nodes, edges, hist.ends)
  }

  /** Handles of the live edges at a slot. */
  ghost predicate LiveAt<N, E>(s: Store<N, Versioned<E>>, v: nat, h: Handle) {
    Accepts(EdgeItems(s.edges), h) && Incident(s, h.slot, v)
  }

  ghost function LiveAround<N, E>(s: Store<N, Versioned<E>>, log: map<Handle, E>, v: nat): set<Handle> {
    set h | h in log && LiveAt(s, v, h)
  }

  /** Handles of the edges inserted between nodes one of which is in `hs`. */
  ghost function EdgesOn<N, E>(hist: History<N, E>, hs: set<Handle>): set<Handle> {
    set k | k in hist.edgeLog && k in hist.ends && EndsIn(hist.ends[k], hs)
  }

  ghost predicate EndsIn(ends: Pair<Handle>, hs: set<Handle>) {
    ends.At(Outgoing) in hs || ends.At(Incoming) in hs
  }

  /** The live edges at the slot of a live node are those of its edges that have not gone yet. */
  lemma AroundIsOn<N, E>(nodes: seq<NodeEntry<Versioned<N>>>, edges: seq<EdgeEntry<Versioned<E>>>, hist: History<N, E>,
                         h: Handle)
    requires Tells(nodes, edges, hist) && Accepts(NodeItems(nodes), h)
    ensures hist.edgeGone + LiveAround(Store(nodes, edges), hist.edgeLog, h.slot) == hist.edgeGone + EdgesOn(hist, {h})
  {
    forall k | k in hist.edgeLog && k !in hist.edgeGone
      ensures k in LiveAround(Store(nodes, edges), hist.edgeLog, h.slot) <==> k in EdgesOn(hist, {h})
    {
      assert LogOk(EdgeItems(edges), hist.edgeLog, hist.edgeGone, k);
      assert EndsAt(nodes, edges, hist.ends, k);
      forall d: Dir ensures edges[k.slot].node.At(d) == h.slot <==> hist.ends[k].At(d) == h {
        assert Accepts(NodeItems(nodes), hist.ends[k].At(d));
      }
    }
  }

  lemma EdgesOnMore<N, E>(hist: History<N, E>, before: History<N, E>, handles: seq<Handle>, i: nat)
    requires i < |handles| && before.edgeLog == hist.edgeLog && before.ends == hist.ends
    ensures EdgesOn(hist, Elems(handles[..i])) + EdgesOn(before, {handles[i]}) == EdgesOn(hist, Elems(handles[..i + 1]))
  {
    PrefixElems(handles, i);
  }

  /** The backend says that one more entry fits. */
  ghost predicate HasRoom(capacity: Option<nat>, count: nat) {
    capacity.Some? && capacity.value > count
  }

  ghost predicate FirstDead<T>(s: seq<Versioned<T>>, i: nat) {
    Dead(s, i) && forall k: nat :: k < i ==> !Dead(s, k)
  }

  /** The chains with edge `e` at the head of both that it belongs to. */
  ghost function EdgeAtHead(ch: Chains, e: nat, from: nat, to: nat): Chains
    requires from < |ch.out| && to < |ch.inn|
  {
    Pair(ch.out[from := [e] + ch.out[from]], ch.inn[to := [e] + ch.inn[to]])
  }

  /** What an insertion makes of the slots: the first tombstone revived with the next version when
      there is one and no room is known, a new slot at the end otherwise. */
  ghost predicate NodePlaced<N>(s: seq<Versioned<N>>, capacity: Option<nat>, value: N, h: Handle,
                                s': seq<Versioned<N>>)
  {
    if !HasRoom(capacity, |s|) && exists i: nat :: Dead(s, i)
    then FirstDead(s, h.slot) && h.version == Abs(s[h.slot].version) + 1
         && s' == s[h.slot := Versioned(h.version, value)]
    else h == Handle(1, |s|) && s' == s + [Versioned(1, value)]
  }

  /** A tombstone with just these ends. */
  ghost predicate DeadBetween<E>(s: seq<EdgeEntry<Versioned<E>>>, ends: Pair<nat>, e: nat) {
    e < |s| && s[e].value.version < 0 && s[e].node == ends
  }

  ghost predicate FirstDeadBetween<E>(s: seq<EdgeEntry<Versioned<E>>>, ends: Pair<nat>, e: nat) {
    DeadBetween(s, ends, e) && forall k: nat :: k < e ==> !DeadBetween(s, ends, k)
  }

  /** The same for edges, where only a tombstone with the same two ends will do. */
  ghost predicate EdgePlaced<E>(s: seq<EdgeEntry<Versioned<E>>>, ends: Pair<nat>, capacity: Option<nat>, value: E,
                                h: Handle, s': seq<EdgeEntry<Versioned<E>>>)
  {
    if !HasRoom(capacity, |s|) && exists e: nat :: DeadBetween(s, ends, e)
    then FirstDeadBetween(s, ends, h.slot) && h.version == Abs(s[h.slot].value.version) + 1
         && s' == s[h.slot := EdgeEntry(Versioned(h.version, value), s[h.slot].next, ends)]
    else h == Handle(1, |s|) && |s'| == |s| + 1 && s'[..|s|] == s
         && s'[|s|].value == Versioned(1, value) && s'[|s|].node == ends
  }

  /** No slot has come or gone, been linked anew, or changed but for the sign of its version. */
  ghost predicate SameSlots<N, E>(s: Store<Versioned<N>, Versioned<E>>, s': Store<Versioned<N>, Versioned<E>>) {
    && |s'.nodes| == |s.nodes| && |s'.edges| == |s.edges|
    && (forall i {:trigger s'.nodes[i]} :: 0 <= i < |s.nodes| ==>
          && s'.nodes[i].next == s.nodes[i].next && s'.nodes[i].value.item == s.nodes[i].value.item
          && Abs(s'.nodes[i].value.version) == Abs(s.nodes[i].value.version))
    && forall e {:trigger s'.edges[e]} :: 0 <= e < |s.edges| ==>
         && s'.edges[e].next == s.edges[e].next && s'.edges[e].node == s.edges[e].node
         && s'.edges[e].value.item == s.edges[e].value.item
         && Abs(s'.edges[e].value.version) == Abs(s.edges[e].value.version)
  }

  lemma SlotsThen<N, E>(a: Store<Versioned<N>, Versioned<E>>, b: Store<Versioned<N>, Versioned<E>>,
                        c: Store<Versioned<N>, Versioned<E>>)
    requires SameSlots(a, b) && SameSlots(b, c)
    ensures SameSlots(a, c)
  {
  }

  lemma NoneDead<E>(s: seq<EdgeEntry<Versioned<E>>>, ends: Pair<nat>)
    requires |s| <= |Live(EdgeItems(s))|
    ensures forall e: nat :: !DeadBetween(s, ends, e)
  {
    AllLive(EdgeItems(s));
    forall e: nat ensures !DeadBetween(s, ends, e) {
      assert !Dead(EdgeItems(s), e);
    }
  }

  class StableGraph<N, E> {
    const inner: LinkedAdjEdgeGraph<Versioned<N>, Versioned<E>>
    var liveNodes: nat
    var liveEdges: nat
    ghost var hist: History<N, E>

    ghost predicate Valid()
      reads this, inner
    {
      && inner.Valid() && Tells(inner.nodes, inner.edges, hist)
      && liveNodes == |Live(NodeItems(inner.nodes))| && liveEdges == |Live(EdgeItems(inner.edges))|
    }

    constructor ()
      ensures Valid() && fresh(inner) && hist == History(map[], {}, map[], {}, map[])
    {
      inner := new LinkedAdjEdgeGraph();
      liveNodes, liveEdges := 0, 0;
      hist := History(map[], {}, map[], {}, map[]);
      new;
      assert Live(NodeItems(inner.nodes)) == {} && Live(EdgeItems(inner.edges)) == {};
    }

    /** `from_mapped`: a graph whose payloads have all been given version one. */
    constructor FromMapped(g: LinkedAdjEdgeGraph<Versioned<N>, Versioned<E>>)
      requires g.Valid()
      requires forall i :: 0 <= i < |g.nodes| ==> g.nodes[i].value.version == 1
      requires forall e :: 0 <= e < |g.edges| ==> g.edges[e].value.version == 1
      ensures Valid() && inner == g && hist.nodeGone == {} && hist.edgeGone == {}
      ensures liveNodes == |g.nodes| && liveEdges == |g.edges|
    {
      inner := g;
      liveNodes, liveEdges := |g.nodes|, |g.edges|;
      hist := History(FirstLog(NodeItems(g.nodes)), {}, FirstLog(EdgeItems(g.edges)), {}, FirstEnds(g.edges));
      new;
      FirstIssued(NodeItems(inner.nodes));
      FirstIssued(EdgeItems(inner.edges));
      FirstEndsOk(inner.S(), inner.chains);
    }

    predicate ContainsNode(h: Handle)
      reads this, inner
    {
      h.version > 0 && h.slot < |inner.nodes| && inner.nodes[h.slot].value.version == h.version
    }

    predicate ContainsEdge(h: Handle)
      reads this, inner
    {
      h.version > 0 && h.slot < |inner.edges| && inner.edges[h.slot].value.version == h.version
    }

    /** What the history promises of a handle: accepted exactly until removed, and never mistaken. */
    lemma HandleMeaning(h: Handle)
      requires Valid()
      ensures ContainsNode(h) <==> h in hist.nodeLog && h !in hist.nodeGone
      ensures ContainsNode(h) ==> inner.nodes[h.slot].value.item == hist.nodeLog[h]
      ensures ContainsEdge(h) <==> h in hist.edgeLog && h !in hist.edgeGone
      ensures ContainsEdge(h) ==> inner.edges[h.slot].value.item == hist.edgeLog[h] && h in hist.ends
      ensures ContainsEdge(h) ==> forall d: Dir :: ContainsNode(hist.ends[h].At(d))
                                                   && inner.edges[h.slot].node.At(d) == hist.ends[h].At(d).slot
    {
      assert ContainsNode(h) == Accepts(NodeItems(inner.nodes), h);
      assert ContainsEdge(h) == Accepts(EdgeItems(inner.edges), h);
      if h in hist.nodeLog {
        assert LogOk(NodeItems(inner.nodes), hist.nodeLog, hist.nodeGone, h);
      }
      if h in hist.edgeLog {
        assert LogOk(EdgeItems(inner.edges), hist.edgeLog, hist.edgeGone, h);
      }
      if ContainsEdge(h) {
        assert EndsAt(inner.nodes, inner.edges, hist.ends, h);
        forall d: Dir ensures ContainsNode(hist.ends[h].At(d)) {
        }
      }
    }

    /** `capacity` is what the backing store reports, if anything. */
    method InsertNode(value: N, capacity: Option<nat>) returns (h: Handle)
      requires Valid()
      modifies this, inner
      ensures Valid() && h !in old(hist.nodeLog)
      ensures hist == old(hist).(nodeLog := old(hist).nodeLog[h := value])
      ensures ContainsNode(h) && liveNodes == old(liveNodes) + 1 && liveEdges == old(liveEdges)
      ensures NodePlaced(NodeItems(old(inner.nodes)), capacity, value, h, NodeItems(inner.nodes))
      ensures inner.edges == old(inner.edges)
      ensures inner.chains == if h.slot < |old(inner.nodes)| then old(inner.chains)
                              else Pair(old(inner.chains).out + [[]], old(inner.chains).inn + [[]])
    {
      if |inner.nodes| <= liveNodes {
        AllLive(NodeItems(inner.nodes));
      }
      var canAppendCheaply := if capacity.Some? then capacity.value > |inner.nodes| else |inner.nodes| <= liveNodes;
      var tombstone := None;
      if !canAppendCheaply {
        tombstone := DeadNode();
      }
      if tombstone.Some? {
        h := ReviveNode(tombstone.value, value);
      } else {
        h := AppendNode(value);
      }
    }

    /** The first tombstoned node slot. */
    method DeadNode() returns (slot: Option<nat>)
      ensures slot.Some? ==> FirstDead(NodeItems(inner.nodes), slot.value)
      ensures slot.None? ==> forall i: nat :: !Dead(NodeItems(inner.nodes), i)
    {
      for i := 0 to |inner.nodes|
        invariant forall k :: 0 <= k < i ==> inner.nodes[k].value.version >= 0
      {
        if inner.nodes[i].value.version < 0 {
          return Some(i);
        }
      }
      slot := None;
    }

    method ReviveNode(slot: nat, value: N) returns (h: Handle)
      requires Valid() && slot < |inner.nodes| && inner.nodes[slot].value.version < 0
      modifies this, inner
      ensures Valid() && h !in old(hist.nodeLog)
      ensures hist == old(hist).(nodeLog := old(hist).nodeLog[h := value])
      ensures ContainsNode(h) && liveNodes == old(liveNodes) + 1 && liveEdges == old(liveEdges)
      ensures h == Handle(Abs(old(inner.nodes)[slot].value.version) + 1, slot) && inner.edges == old(inner.edges)
      ensures inner.chains == old(inner.chains)
      ensures NodeItems(inner.nodes) == NodeItems(old(inner.nodes))[slot := Versioned(h.version, value)]
    {
      ghost var nodes0, items := inner.nodes, NodeItems(inner.nodes);
      var newVersion := -inner.nodes[slot].value.version + 1;
      h := Handle(newVersion, slot);
      Revived(items, hist.nodeLog, hist.nodeGone, slot, value);
      inner.SetNode(slot, Versioned(newVersion, value));
      liveNodes := liveNodes + 1;
      assert NodeItems(inner.nodes) == items[slot := Versioned(newVersion, value)];
      NodesGrow(nodes0, inner.nodes, inner.edges, hist.ends);
      hist := hist.(nodeLog := hist.nodeLog[h := value]);
    }

    method AppendNode(value: N) returns (h: Handle)
      requires Valid()
      modifies this, inner
      ensures Valid() && h !in old(hist.nodeLog)
      ensures hist == old(hist).(nodeLog := old(hist).nodeLog[h := value])
      ensures ContainsNode(h) && liveNodes == old(liveNodes) + 1 && liveEdges == old(liveEdges)
      ensures h == Handle(1, |old(inner.nodes)|) && inner.edges == old(inner.edges)
      ensures inner.chains == Pair(old(inner.chains).out + [[]], old(inner.chains).inn + [[]])
      ensures NodeItems(inner.nodes) == NodeItems(old(inner.nodes)) + [Versioned(1, value)]
    {
      ghost var nodes0, items := inner.nodes, NodeItems(inner.nodes);
      Appended(items, hist.nodeLog, hist.nodeGone, value);
      var ix := inner.InsertNode(Versioned(1, value));
      liveNodes := liveNodes + 1;
      h := Handle(1, ix);
      assert NodeItems(inner.nodes) == items + [Versioned(1, value)];
      NodesGrow(nodes0, inner.nodes, inner.edges, hist.ends);
      hist := hist.(nodeLog := hist.nodeLog[h := value]);
    }

    /** Insert an edge between two live nodes. */
    method InsertEdge(value: E, from: Handle, to: Handle, capacity: Option<nat>) returns (h: Handle)
      requires Valid() && ContainsNode(from) && ContainsNode(to)
      modifies this, inner
      ensures Valid() && h !in old(hist.edgeLog)
      ensures hist == old(hist).(edgeLog := old(hist).edgeLog[h := value], ends := old(hist).ends[h := Pair(from, to)])
      ensures ContainsEdge(h) && liveEdges == old(liveEdges) + 1 && liveNodes == old(liveNodes)
      ensures EdgePlaced(old(inner.edges), Pair(from.slot, to.slot), capacity, value, h, inner.edges)
      ensures NodeItems(inner.nodes) == NodeItems(old(inner.nodes))
      ensures inner.chains == if h.slot < |old(inner.edges)| then old(inner.chains)
                              else EdgeAtHead(old(inner.chains), h.slot, from.slot, to.slot)
    {
      if |inner.edges| <= liveEdges {
        NoneDead(inner.edges, Pair(from.slot, to.slot));
      }
      var canAppendCheaply := if capacity.Some? then capacity.value > |inner.edges| else |inner.edges| <= liveEdges;
      var tombstone := None;
      if !canAppendCheaply {
        tombstone := DeadEdge(Pair(from.slot, to.slot));
      }
      if tombstone.Some? {
        h := ReviveEdge(tombstone.value, value, from, to);
      } else {
        h := AppendEdge(value, from, to);
      }
    }

    /** The first tombstoned edge with just these ends. */
    method DeadEdge(ends: Pair<nat>) returns (slot: Option<nat>)
      ensures slot.Some? ==> FirstDeadBetween(inner.edges, ends, slot.value)
      ensures slot.None? ==> forall e: nat :: !DeadBetween(inner.edges, ends, e)
    {
      for i := 0 to |inner.edges|
        invariant forall e :: 0 <= e < i ==> inner.edges[e].value.version >= 0 || inner.edges[e].node != ends
      {
        if inner.edges[i].value.version < 0 && inner.edges[i].node == ends {
          return Some(i);
        }
      }
      slot := None;
    }

    method ReviveEdge(slot: nat, value: E, from: Handle, to: Handle) returns (h: Handle)
      requires Valid() && ContainsNode(from) && ContainsNode(to)
      requires slot < |inner.edges| && inner.edges[slot].value.version < 0
      requires inner.edges[slot].node == Pair(from.slot, to.slot)
      modifies this, inner
      ensures Valid() && h !in old(hist.edgeLog)
      ensures hist == old(hist).(edgeLog := old(hist).edgeLog[h := value], ends := old(hist).ends[h := Pair(from, to)])
      ensures ContainsEdge(h) && liveEdges == old(liveEdges) + 1 && liveNodes == old(liveNodes)
      ensures h == Handle(Abs(old(inner.edges)[slot].value.version) + 1, slot) && inner.nodes == old(inner.nodes)
      ensures inner.chains == old(inner.chains)
      ensures inner.edges == old(inner.edges)[slot := EdgeEntry(Versioned(h.version, value),
                                                                old(inner.edges)[slot].next, Pair(from.slot, to.slot))]
    {
      ghost var edges0, items := inner.edges, EdgeItems(inner.edges);
      var newVersion := -inner.edges[slot].value.version + 1;
      h := Handle(newVersion, slot);
      Revived(items, hist.edgeLog, hist.edgeGone, slot, value);
      inner.SetEdge(slot, Versioned(newVersion, value));
      liveEdges := liveEdges + 1;
      assert EdgeItems(inner.edges) == items[slot := Versioned(newVersion, value)];
      EdgeGrows(inner.nodes, edges0, inner.edges, hist.ends, h, from, to);
      hist := hist.(edgeLog := hist.edgeLog[h := value], ends := hist.ends[h := Pair(from, to)]);
    }

    method AppendEdge(value: E, from: Handle, to: Handle) returns (h: Handle)
      requires Valid() && ContainsNode(from) && ContainsNode(to)
      modifies this, inner
      ensures Valid() && h !in old(hist.edgeLog)
      ensures hist == old(hist).(edgeLog := old(hist).edgeLog[h := value], ends := old(hist).ends[h := Pair(from, to)])
      ensures ContainsEdge(h) && liveEdges == old(liveEdges) + 1 && liveNodes == old(liveNodes)
      ensures h == Handle(1, |old(inner.edges)|) && NodeItems(inner.nodes) == NodeItems(old(inner.nodes))
      ensures |inner.edges| == h.slot + 1 && inner.edges[..h.slot] == old(inner.edges)
      ensures from.slot < |old(inner.chains).out| && to.slot < |old(inner.chains).inn|
      ensures inner.chains == EdgeAtHead(old(inner.chains), h.slot, from.slot, to.slot)
      ensures inner.edges[h.slot].value == Versioned(1, value) && inner.edges[h.slot].node == Pair(from.slot, to.slot)
    {
      ghost var nodes0, edges0, items := inner.nodes, inner.edges, EdgeItems(inner.edges);
      Appended(items, hist.edgeLog, hist.edgeGone, value);
      var ix := inner.InsertEdge(Versioned(1, value), from.slot, to.slot);
      liveEdges := liveEdges + 1;
      h := Handle(1, ix);
      assert inner.edges == edges0 + [inner.edges[ix]];
      assert EdgeItems(inner.edges) == items + [Versioned(1, value)];
      assert NodeItems(inner.nodes) == NodeItems(nodes0);
      EdgesSame(nodes0, inner.nodes, edges0, hist.ends);
      EdgeGrows(inner.nodes, edges0, inner.edges, hist.ends, h, from, to);
      hist := hist.(edgeLog := hist.edgeLog[h := value], ends := hist.ends[h := Pair(from, to)]);
    }

    /** Tombstone an edge; its payload is returned. */
    method TakeEdge(h: Handle) returns (value: E)
      requires Valid() && ContainsEdge(h)
      modifies this, inner
      ensures Valid() && h in old(hist.edgeLog) && value == old(hist.edgeLog)[h]
      ensures hist == old(hist).(edgeGone := old(hist).edgeGone + {h})
      ensures SameSlots(old(inner.S()), inner.S()) && inner.chains == old(inner.chains)
      ensures liveEdges == old(liveEdges) - 1 && liveNodes == old(liveNodes)
    {
      HandleMeaning(h);
      value := inner.edges[h.slot].value.item;
      KillEdge(h.slot);
    }

    /** Flip the version of a live edge slot. */
    method KillEdge(slot: nat)
      requires Valid() && slot < |inner.edges| && inner.edges[slot].value.version > 0
      modifies this, inner
      ensures Valid() && inner.nodes == old(inner.nodes) && |inner.edges| == |old(inner.edges)|
      ensures inner.edges == old(inner.edges)[slot := Negated(old(inner.edges)[slot])]
      ensures SameSlots(old(inner.S()), inner.S()) && inner.chains == old(inner.chains)
      ensures hist == old(hist).(edgeGone := old(hist).edgeGone + {Handle(old(inner.edges)[slot].value.version, slot)})
      ensures liveEdges == old(liveEdges) - 1 && liveNodes == old(liveNodes)
    {
      ghost var edges0, items := inner.edges, EdgeItems(inner.edges);
      var Versioned(version, item) := inner.edges[slot].value;
      ghost var h := Handle(version, slot);
      Retired(items, hist.edgeLog, hist.edgeGone, h);
      LiveBound(items, h);
      inner.SetEdge(slot, Versioned(-version, item));
      liveEdges := liveEdges - 1;
      assert EdgeItems(inner.edges) == items[slot := Versioned(-version, item)];
      EdgeShrinks(inner.nodes, edges0, inner.edges, hist.ends);
      hist := hist.(edgeGone := hist.edgeGone + {h});
    }

    /** Tombstone a node and every live edge at it. */
    method TakeNode(h: Handle) returns (value: N)
      requires Valid() && ContainsNode(h)
      modifies this, inner
      ensures Valid() && h in old(hist.nodeLog) && value == old(hist.nodeLog)[h]
      ensures hist == old(hist).(nodeGone := old(hist).nodeGone + {h},
                                 edgeGone := old(hist).edgeGone + EdgesOn(old(hist), {h}))
      ensures SameSlots(old(inner.S()), inner.S()) && inner.chains == old(inner.chains)
      ensures liveNodes == old(liveNodes) - 1
    {
      HandleMeaning(h);
      value := inner.nodes[h.slot].value.item;
      AroundIsOn(inner.nodes, inner.edges, hist, h);
      KillAround(h.slot);
      ghost var nodes0, items := inner.nodes, NodeItems(inner.nodes);
      Retired(items, hist.nodeLog, hist.nodeGone, h);
      LiveBound(items, h);
      inner.SetNode(h.slot, Versioned(-h.version, value));
      liveNodes := liveNodes - 1;
      assert NodeItems(inner.nodes) == items[h.slot := Versioned(-h.version, value)];
      NodeShrinks(nodes0, inner.nodes, inner.edges, hist.ends, h);
      hist := hist.(nodeGone := hist.nodeGone + {h});
    }

    /** Tombstone every live edge at a node slot. */
    method KillAround(v: nat)
      requires Valid() && v < |inner.nodes|
      modifies this, inner
      ensures Valid() && inner.nodes == old(inner.nodes) && liveNodes == old(liveNodes)
      ensures forall h :: !LiveAt(inner.S(), v, h)
      ensures SameSlots(old(inner.S()), inner.S()) && inner.chains == old(inner.chains)
      ensures hist == old(hist).(edgeGone := old(hist).edgeGone + LiveAround(old(inner.S()), old(hist).edgeLog, v))
    {
      ghost var s0, hist0 := inner.S(), hist;
      var incident := inner.EdgeIndicesOf(v);
      var i := 0;
      KillingStart(s0, hist0, incident);
      while i < |incident|
        invariant 0 <= i <= |incident| && Valid() && Killing(s0, inner.S(), hist0, hist, incident, i)
        invariant liveNodes == old(liveNodes) && SameSlots(s0, inner.S()) && inner.chains == old(inner.chains)
      {
        assert incident[i] in incident && incident[i] < |s0.edges|;
        ghost var s1, hist1 := inner.S(), hist;
        if inner.edges[incident[i]].value.version > 0 {
          KillEdge(incident[i]);
          SlotsThen(s0, s1, inner.S());
        }
        KillingNext(s0, s1, inner.S(), hist0, hist1, hist, incident, i);
        i := i + 1;
      }
      KillingDone(s0, inner.S(), hist0, hist, incident, v);
    }

    /** The edges, then the nodes, in the order given. */
    method TakeNodesEdges(nodeHandles: seq<Handle>, edgeHandles: seq<Handle>)
      returns (nodeValues: seq<N>, edgeValues: seq<E>)
      requires Valid() && NoDup(nodeHandles) && NoDup(edgeHandles)
      requires forall k :: 0 <= k < |nodeHandles| ==> ContainsNode(nodeHandles[k])
      requires forall k :: 0 <= k < |edgeHandles| ==> ContainsEdge(edgeHandles[k])
      modifies this, inner
      ensures Valid()
      ensures hist == old(hist).(nodeGone := old(hist).nodeGone + Elems(nodeHandles),
                                 edgeGone :=
                                   old(hist).edgeGone + Elems(edgeHandles) + EdgesOn(old(hist), Elems(nodeHandles)))
      ensures Looked(old(hist).nodeLog, nodeHandles, nodeValues) && Looked(old(hist).edgeLog, edgeHandles, edgeValues)
      ensures SameSlots(old(inner.S()), inner.S()) && inner.chains == old(inner.chains)
    {
      forall k | 0 <= k < |nodeHandles| ensures Held(hist.nodeLog, hist.nodeGone, nodeHandles[k]) {
        HandleMeaning(nodeHandles[k]);
      }
      forall k | 0 <= k < |edgeHandles| ensures Held(hist.edgeLog, hist.edgeGone, edgeHandles[k]) {
        HandleMeaning(edgeHandles[k]);
      }
      edgeValues := TakeEdges(edgeHandles);
      nodeValues := TakeNodes(nodeHandles);
    }

    method TakeEdges(handles: seq<Handle>) returns (values: seq<E>)
      requires Valid() && NoDup(handles)
      requires forall k :: 0 <= k < |handles| ==> Held(hist.edgeLog, hist.edgeGone, handles[k])
      modifies this, inner
      ensures Valid() && hist == old(hist).(edgeGone := old(hist).edgeGone + Elems(handles))
      ensures Looked(old(hist).edgeLog, handles, values)
      ensures SameSlots(old(inner.S()), inner.S()) && inner.chains == old(inner.chains)
    {
      values := [];
      var i := 0;
      while i < |handles|
        invariant 0 <= i <= |handles| && Valid()
        invariant hist == old(hist).(edgeGone := old(hist).edgeGone + Elems(handles[..i]))
        invariant Looked(old(hist).edgeLog, handles[..i], values)
        invariant SameSlots(old(inner.S()), inner.S()) && inner.chains == old(inner.chains)
      {
        StillThere(old(hist).edgeGone, handles, i);
        HandleMeaning(handles[i]);
        var value := TakeEdge(handles[i]);
        LookedMore(old(hist).edgeLog, handles, i, values, value);
        values := values + [value];
        i := i + 1;
      }
      assert handles[..i] == handles;
    }

    method TakeNodes(handles: seq<Handle>) returns (values: seq<N>)
      requires Valid() && NoDup(handles)
      requires forall k :: 0 <= k < |handles| ==> Held(hist.nodeLog, hist.nodeGone, handles[k])
      modifies this, inner
      ensures Valid()
      ensures hist == old(hist).(nodeGone := old(hist).nodeGone + Elems(handles),
                                 edgeGone := old(hist).edgeGone + EdgesOn(old(hist), Elems(handles)))
      ensures Looked(old(hist).nodeLog, handles, values)
      ensures SameSlots(old(inner.S()), inner.S()) && inner.chains == old(inner.chains)
    {
      values := [];
      var i := 0;
      assert old(hist).edgeGone + EdgesOn(old(hist), Elems(handles[..0])) == old(hist).edgeGone;
      while i < |handles|
        invariant 0 <= i <= |handles| && Valid()
        invariant hist == old(hist).(nodeGone := old(hist).nodeGone + Elems(handles[..i]),
                                     edgeGone := old(hist).edgeGone + EdgesOn(old(hist), Elems(handles[..i])))
        invariant Looked(old(hist).nodeLog, handles[..i], values)
        invariant SameSlots(old(inner.S()), inner.S()) && inner.chains == old(inner.chains)
      {
        StillThere(old(hist).nodeGone, handles, i);
        HandleMeaning(handles[i]);
        ghost var before := hist;
        var value := TakeNode(handles[i]);
        EdgesOnMore(old(hist), before, handles, i);
        LookedMore(old(hist).nodeLog, handles, i, values, value);
        values := values + [value];
        i := i + 1;
      }
      assert handles[..i] == handles;
    }

    /** Purge every tombstone: what is left is exactly the live subgraph. */
    method IntoInner() returns (ghost nm: map<nat, nat>, ghost em: map<nat, nat>)
      requires Valid()
      modifies inner
      ensures inner.Valid() && Survives(old(inner.S()), old(inner.chains), inner.S(), inner.chains, nm, em)
      ensures nm.Keys == Live(NodeItems(old(inner.nodes))) && em.Keys == Live(EdgeItems(old(inner.edges)))
    {
      var deadEdges := DeadEdges();
      var deadNodes := DeadNodes();
      ghost var s0, ch0 := inner.S(), inner.chains;
      ghost var id, em1 := PurgeEdges(deadEdges);
      ghost var s1, ch1, em2 := inner.S(), inner.chains, map[];
      var values, items;
      values, items, nm, em2 := inner.TakeNodesEdges(deadNodes, []);
      em := Purged(s0, ch0, s1, ch1, inner.S(), inner.chains, hist, deadNodes, deadEdges, id, em1, nm, em2);
    }

    method PurgeEdges(dead: seq<nat>) returns (ghost id: map<nat, nat>, ghost em: map<nat, nat>)
      requires inner.Valid() && NoDup(dead) && forall k :: 0 <= k < |dead| ==> dead[k] < |inner.edges|
      modifies inner
      ensures inner.Valid() && id == Identity(|old(inner.nodes)|) && |inner.nodes| == |old(inner.nodes)|
      ensures BatchRemoved(old(inner.S()), old(inner.chains), inner.S(), inner.chains, [], dead, id, em)
    {
      ghost var s0, ch0 := inner.S(), inner.chains;
      var values, items;
      values, items, id, em := inner.TakeNodesEdges([], dead);
      SameNodeCount(s0, ch0, inner.S(), inner.chains, id, em);
    }

    method DeadEdges() returns (dead: seq<nat>)
      ensures forall k :: 0 <= k < |dead| ==> dead[k] < |inner.edges|
      ensures NoDup(dead) && forall e: nat :: e in dead <==> e < |inner.edges| && inner.edges[e].value.version <= 0
    {
      dead := [];
      for i := 0 to |inner.edges|
        invariant forall k :: 0 <= k < |dead| ==> dead[k] < i
        invariant NoDup(dead) && forall e: nat :: e in dead <==> e < i && inner.edges[e].value.version <= 0
      {
        if inner.edges[i].value.version <= 0 {
          assert forall k :: 0 <= k < |dead| ==> dead[k] in dead;
          dead := dead + [i];
        }
      }
    }

    method DeadNodes() returns (dead: seq<nat>)
      ensures forall k :: 0 <= k < |dead| ==> dead[k] < |inner.nodes|
      ensures NoDup(dead) && forall v: nat :: v in dead <==> v < |inner.nodes| && inner.nodes[v].value.version <= 0
    {
      dead := [];
      for i := 0 to |inner.nodes|
        invariant forall k :: 0 <= k < |dead| ==> dead[k] < i
        invariant NoDup(dead) && forall v: nat :: v in dead <==> v < i && inner.nodes[v].value.version <= 0
      {
        if inner.nodes[i].value.version <= 0 {
          assert forall k :: 0 <= k < |dead| ==> dead[k] in dead;
          dead := dead + [i];
        }
      }
    }
  }

  ghost predicate Looked<T>(log: map<Handle, T>, handles: seq<Handle>, values: seq<T>) {
    && |values| == |handles|
    && forall k :: 0 <= k < |handles| ==> handles[k] in log && values[k] == log[handles[k]]
  }

  ghost predicate Held<T>(log: map<Handle, T>, gone: set<Handle>, h: Handle) {
    h in log && h !in gone
  }

  lemma StillThere(gone: set<Handle>, handles: seq<Handle>, i: nat)
    requires NoDup(handles) && i < |handles|
    ensures handles[i] in gone + Elems(handles[..i]) ==> handles[i] in gone
    ensures Elems(handles[..i + 1]) == Elems(handles[..i]) + {handles[i]}
  {
    assert handles[..i + 1] == handles[..i] + [handles[i]];
  }

  lemma LookedMore<T>(log: map<Handle, T>, handles: seq<Handle>, i: nat, values: seq<T>, value: T)
    requires i < |handles| && Looked(log, handles[..i], values) && handles[i] in log && value == log[handles[i]]
    ensures Looked(log, handles[..i + 1], values + [value])
  {
    var hs := handles[..i + 1];
    forall k | 0 <= k < |hs| ensures hs[k] in log && (values + [value])[k] == log[hs[k]] {
      assert k < i ==> handles[..i][k] in log;
    }
  }

  /** After the dead edges are gone no dead node has an edge, so the second batch takes no more. */
  lemma Purged<N, E>(s0: Store<Versioned<N>, Versioned<E>>, ch0: Chains, s1: Store<Versioned<N>, Versioned<E>>,
                     ch1: Chains, s2: Store<Versioned<N>, Versioned<E>>, ch2: Chains, hist: History<N, E>,
                     deadNodes: seq<nat>, deadEdges: seq<nat>, id: map<nat, nat>, em1: map<nat, nat>, nm: map<nat, nat>,
                     em2: map<nat, nat>)
    returns (em: map<nat, nat>)
    requires Tells(s0.nodes, s0.edges, hist)
    requires forall e: nat :: e in deadEdges <==> e < |s0.edges| && s0.edges[e].value.version <= 0
    requires forall v: nat :: v in deadNodes <==> v < |s0.nodes| && s0.nodes[v].value.version <= 0
    requires BatchRemoved(s0, ch0, s1, ch1, [], deadEdges, id, em1) && id == Identity(|s0.nodes|)
    requires BatchRemoved(s1, ch1, s2, ch2, deadNodes, [], nm, em2) && |s1.nodes| == |s0.nodes|
    ensures Survives(s0, ch0, s2, ch2, nm, em)
    ensures nm.Keys == Live(NodeItems(s0.nodes)) && em.Keys == Live(EdgeItems(s0.edges))
  {
    FirstBatch(s0, deadEdges, em1);
    SecondBatch(s0, ch0, s1, ch1, s2, ch2, hist, deadNodes, id, em1, nm, em2);
    SurvivesThen(s0, ch0, s1, ch1, s2, ch2, id, em1, nm, em2);
    em := Then(em1, em2);
    ThenKeys(em1, em2);
  }

  lemma SameNodeCount<N, E>(s0: Store<N, E>, ch0: Chains, s1: Store<N, E>, ch1: Chains, id: map<nat, nat>,
                            em: map<nat, nat>)
    requires Survives(s0, ch0, s1, ch1, id, em) && id == Identity(|s0.nodes|)
    ensures |s1.nodes| == |s0.nodes|
  {
    assert |id| == |id.Keys|;
  }

  lemma FirstBatch<N, E>(s0: Store<Versioned<N>, Versioned<E>>, deadEdges: seq<nat>, em1: map<nat, nat>)
    requires forall e: nat :: e in deadEdges <==> e < |s0.edges| && s0.edges[e].value.version <= 0
    requires forall x: nat :: x in em1 <==> x < |s0.edges| && !Dying(s0, [], deadEdges, x)
    ensures em1.Keys == Live(EdgeItems(s0.edges))
  {
    forall x: nat ensures x in em1 <==> x in Live(EdgeItems(s0.edges)) {
      assert x < |s0.edges| ==> (Dying(s0, [], deadEdges, x) <==> x in deadEdges);
    }
  }

  lemma SecondBatch<N, E>(s0: Store<Versioned<N>, Versioned<E>>, ch0: Chains, s1: Store<Versioned<N>, Versioned<E>>,
                          ch1: Chains,
                          s2: Store<Versioned<N>, Versioned<E>>, ch2: Chains, hist: History<N, E>, deadNodes: seq<nat>,
                          id: map<nat, nat>, em1: map<nat, nat>, nm: map<nat, nat>, em2: map<nat, nat>)
    requires Tells(s0.nodes, s0.edges, hist) && em1.Keys == Live(EdgeItems(s0.edges))
    requires forall v: nat :: v in deadNodes <==> v < |s0.nodes| && s0.nodes[v].value.version <= 0
    requires Survives(s0, ch0, s1, ch1, id, em1) && id == Identity(|s0.nodes|)
    requires BatchRemoved(s1, ch1, s2, ch2, deadNodes, [], nm, em2) && |s1.nodes| == |s0.nodes|
    ensures em2.Keys == em1.Values && nm.Keys == Live(NodeItems(s0.nodes))
  {
    forall y: nat ensures y in em2 <==> y in em1.Values {
      if y in em1.Values {
        var x :| x in em1 && em1[x] == y;
        LiveEndsSurvive(s0, ch0, s1, ch1, hist, deadNodes, id, em1, x);
      } else if y < |s1.edges| {
        Onto(em1, |s1.edges|, y);
      }
    }
    forall v: nat ensures v in nm <==> v in Live(NodeItems(s0.nodes)) {
    }
  }

  lemma LiveEndsSurvive<N, E>(s0: Store<Versioned<N>, Versioned<E>>, ch0: Chains, s1: Store<Versioned<N>, Versioned<E>>,
                              ch1: Chains,
                              hist: History<N, E>, deadNodes: seq<nat>, id: map<nat, nat>, em1: map<nat, nat>, x: nat)
    requires Tells(s0.nodes, s0.edges, hist) && Survives(s0, ch0, s1, ch1, id, em1) && id == Identity(|s0.nodes|)
    requires forall v: nat :: v in deadNodes <==> v < |s0.nodes| && s0.nodes[v].value.version <= 0
    requires x in em1 && x < |s0.edges| && s0.edges[x].value.version > 0
    ensures !Dying(s1, deadNodes, [], em1[x]) && em1[x] < |s1.edges|
  {
    var h := Handle(s0.edges[x].value.version, x);
    assert Accepts(EdgeItems(s0.edges), h);
    assert EndsAt(s0.nodes, s0.edges, hist.ends, h);
    assert KeptEdge(s0, s1, id, em1, x);
    forall d: Dir ensures s1.edges[em1[x]].node.At(d) !in deadNodes {
      assert Accepts(NodeItems(s0.nodes), hist.ends[h].At(d));
    }
  }

  function Negated<E>(x: EdgeEntry<Versioned<E>>): EdgeEntry<Versioned<E>> {
    EdgeEntry(Versioned(-x.value.version, x.value.item), x.next, x.node)
  }

  // ----- ends of live edges -----

  ghost function FirstEnds<E>(edges: seq<EdgeEntry<Versioned<E>>>): (ends: Ends)
    ensures forall h :: h in ends <==> h.version == 1 && h.slot < |edges|
    ensures forall h :: h in ends ==>
              ends[h] == Pair(Handle(1, edges[h.slot].node.out), Handle(1, edges[h.slot].node.inn))
  {
    map e: nat | e < |edges| :: Handle(1, e) := Pair(Handle(1, edges[e].node.out), Handle(1, edges[e].node.inn))
  }

  lemma FirstEndsOk<N, E>(s: Store<Versioned<N>, Versioned<E>>, ch: Chains)
    requires WellFormed(s, ch)
    requires forall i :: 0 <= i < |s.nodes| ==> s.nodes[i].value.version == 1
    requires forall e :: 0 <= e < |s.edges| ==> s.edges[e].value.version == 1
    ensures EndsOk(s.nodes, s.edges, FirstEnds(s.edges))
  {
    forall h | Accepts(EdgeItems(s.edges), h) ensures EndsAt(s.nodes, s.edges, FirstEnds(s.edges), h) {
      forall d: Dir ensures Accepts(NodeItems(s.nodes), FirstEnds(s.edges)[h].At(d)) {
        assert Placed(s, ch, d, h.slot);
      }
    }
  }

  lemma NodesGrow<N, E>(nodes: seq<NodeEntry<Versioned<N>>>, nodes': seq<NodeEntry<Versioned<N>>>,
                        edges: seq<EdgeEntry<Versioned<E>>>, ends: Ends)
    requires EndsOk(nodes, edges, ends)
    requires forall h :: Accepts(NodeItems(nodes), h) ==> Accepts(NodeItems(nodes'), h)
    ensures EndsOk(nodes', edges, ends)
  {
    forall h | Accepts(EdgeItems(edges), h) ensures EndsAt(nodes', edges, ends, h) {
      assert EndsAt(nodes, edges, ends, h);
      forall d: Dir ensures Accepts(NodeItems(nodes'), ends[h].At(d)) {
        assert Accepts(NodeItems(nodes), ends[h].At(d));
      }
    }
  }

  lemma EdgesSame<N, E>(nodes: seq<NodeEntry<Versioned<N>>>, nodes': seq<NodeEntry<Versioned<N>>>,
                        edges: seq<EdgeEntry<Versioned<E>>>, ends: Ends)
    requires EndsOk(nodes, edges, ends) && NodeItems(nodes) == NodeItems(nodes')
    ensures EndsOk(nodes', edges, ends)
  {
    NodesGrow(nodes, nodes', edges, ends);
  }

  lemma EdgeGrows<N, E>(nodes: seq<NodeEntry<Versioned<N>>>, edges: seq<EdgeEntry<Versioned<E>>>,
                        edges': seq<EdgeEntry<Versioned<E>>>, ends: Ends, h: Handle, from: Handle, to: Handle)
    requires EndsOk(nodes, edges, ends) && |edges| <= |edges'| && h.slot < |edges'|
    requires forall k :: Accepts(EdgeItems(edges'), k) ==>
               k == h || (Accepts(EdgeItems(edges), k) && edges'[k.slot].node == edges[k.slot].node)
    requires edges'[h.slot].node == Pair(from.slot, to.slot) && Accepts(NodeItems(nodes), from)
    requires Accepts(NodeItems(nodes), to)
    ensures EndsOk(nodes, edges', ends[h := Pair(from, to)])
  {
    forall k | Accepts(EdgeItems(edges'), k) ensures EndsAt(nodes, edges', ends[h := Pair(from, to)], k) {
      if k != h {
        assert EndsAt(nodes, edges, ends, k);
      }
    }
  }

  lemma EdgeShrinks<N, E>(nodes: seq<NodeEntry<Versioned<N>>>, edges: seq<EdgeEntry<Versioned<E>>>,
                          edges': seq<EdgeEntry<Versioned<E>>>, ends: Ends)
    requires EndsOk(nodes, edges, ends) && |edges| == |edges'|
    requires forall k :: Accepts(EdgeItems(edges'), k) ==>
               Accepts(EdgeItems(edges), k) && edges'[k.slot].node == edges[k.slot].node
    ensures EndsOk(nodes, edges', ends)
  {
    forall k | Accepts(EdgeItems(edges'), k) ensures EndsAt(nodes, edges', ends, k) {
      assert EndsAt(nodes, edges, ends, k);
    }
  }

  /** A node with no live edge may go. */
  lemma NodeShrinks<N, E>(nodes: seq<NodeEntry<Versioned<N>>>, nodes': seq<NodeEntry<Versioned<N>>>,
                          edges: seq<EdgeEntry<Versioned<E>>>, ends: Ends, h: Handle)
    requires EndsOk(nodes, edges, ends)
    requires forall k :: Accepts(NodeItems(nodes'), k) <==> Accepts(NodeItems(nodes), k) && k != h
    requires forall k :: !LiveAt(Store(nodes, edges), h.slot, k)
    ensures EndsOk(nodes', edges, ends)
  {
    forall k | Accepts(EdgeItems(edges), k) ensures EndsAt(nodes', edges, ends, k) {
      assert EndsAt(nodes, edges, ends, k);
      assert !LiveAt(Store(nodes, edges), h.slot, k);
      forall d: Dir ensures Accepts(NodeItems(nodes'), ends[k].At(d)) {
        assert Accepts(NodeItems(nodes), ends[k].At(d));
        assert edges[k.slot].node.At(d) == h.slot ==> Incident(Store(nodes, edges), k.slot, h.slot);
      }
    }
  }

  // ----- the sweep over a node's edges -----

  /** The first `i` incident edges are dead; no other edge has changed. */
  ghost predicate Killing<N, E>(s0: Store<Versioned<N>, Versioned<E>>, s: Store<Versioned<N>, Versioned<E>>,
                                hist0: History<N, E>, hist: History<N, E>, incident: seq<nat>, i: nat)
    requires i <= |incident|
  {
    && s.nodes == s0.nodes && |s.edges| == |s0.edges|
    && (forall e :: 0 <= e < |s.edges| ==> s.edges[e].node == s0.edges[e].node)
    && (forall e {:trigger e in incident[..i]} :: e in incident[..i] && e < |s.edges| ==> s.edges[e].value.version <= 0)
    && (forall e {:trigger s.edges[e]} :: 0 <= e < |s.edges| && e !in incident[..i] ==> s.edges[e] == s0.edges[e])
    && hist == hist0.(edgeGone := hist.edgeGone)
    && forall h {:trigger h in hist.edgeGone} :: h in hist.edgeGone <==>
         h in hist0.edgeGone || (Accepts(EdgeItems(s0.edges), h) && h.slot in incident[..i])
  }

  lemma KillingStart<N, E>(s0: Store<Versioned<N>, Versioned<E>>, hist0: History<N, E>, incident: seq<nat>)
    ensures Killing(s0, s0, hist0, hist0, incident, 0)
  {
  }

  lemma KillingNext<N, E>(s0: Store<Versioned<N>, Versioned<E>>, s1: Store<Versioned<N>, Versioned<E>>,
                          s2: Store<Versioned<N>, Versioned<E>>,
                          hist0: History<N, E>, hist1: History<N, E>, hist2: History<N, E>, incident: seq<nat>, i: nat)
    requires NoDup(incident) && i < |incident| && incident[i] < |s0.edges| && Killing(s0, s1, hist0, hist1, incident, i)
    requires var e := incident[i];
             if s1.edges[e].value.version > 0 then
               && s2 == Store(s1.nodes, s1.edges[e := Negated(s1.edges[e])])
               && hist2 == hist1.(edgeGone := hist1.edgeGone + {Handle(s1.edges[e].value.version, e)})
             else s2 == s1 && hist2 == hist1
    ensures Killing(s0, s2, hist0, hist2, incident, i + 1)
  {
    var e := incident[i];
    assert incident[..i + 1] == incident[..i] + [e];
    assert e !in incident[..i];
    assert s1.edges[e] == s0.edges[e];
  }

  lemma KillingDone<N, E>(s0: Store<Versioned<N>, Versioned<E>>, s: Store<Versioned<N>, Versioned<E>>,
                          hist0: History<N, E>, hist: History<N, E>, incident: seq<nat>, v: nat)
    requires Killing(s0, s, hist0, hist, incident, |incident|)
    requires Issued(EdgeItems(s0.edges), hist0.edgeLog, hist0.edgeGone)
    requires forall e: nat :: e in incident <==> e < |s0.edges| && Incident(s0, e, v)
    ensures forall h :: !LiveAt(s, v, h)
    ensures hist == hist0.(edgeGone := hist0.edgeGone + LiveAround(s0, hist0.edgeLog, v))
  {
    assert incident[..|incident|] == incident;
    forall h ensures !LiveAt(s, v, h) {
      assert LiveAt(s, v, h) ==> Incident(s, h.slot, v);
      assert Incident(s, h.slot, v) && h.slot < |s.edges| ==> h.slot in incident;
    }
    forall h ensures h in hist.edgeGone <==> h in hist0.edgeGone + LiveAround(s0, hist0.edgeLog, v) {
      if Accepts(EdgeItems(s0.edges), h) {
        assert h in hist0.edgeLog;
      }
    }
  }
}
