/** The nested-collection graph with its reverse index (`src/raw_graph/flat_adj_edge.rs`), over
    vectors at both layers. */
module FlatAdj {
  import opened Seqs
  import opened Vec

  /** Tail node (the one owning the edge) and position among its outgoing edges. */
  type EdgeIx = (nat, nat)

  datatype Out<E> = Out(value: E, target: nat)
  datatype Node<N, E> = Node(value: N, outgoing: seq<Out<E>>, incoming: multiset<EdgeIx>)

  type Nodes<N, E> = seq<Node<N, E>>

  predicate IsEdge<N, E>(nodes: Nodes<N, E>, e: EdgeIx) {
    e.0 < |nodes| && e.1 < |nodes[e.0].outgoing|
  }

  function Target<N, E>(nodes: Nodes<N, E>, e: EdgeIx): nat
    requires IsEdge(nodes, e)
  {
    nodes[e.0].outgoing[e.1].target
  }

  // ----- the reverse index agrees with a full scan -----

  /** How often a full scan for edges into `v` reports `e`. */
  ghost function Scanned<N, E>(nodes: Nodes<N, E>, v: nat, e: EdgeIx): nat {
    if IsEdge(nodes, e) && Target(nodes, e) == v then 1 else 0
  }

  ghost predicate IndexOk<N, E>(nodes: Nodes<N, E>) {
    && (forall e: EdgeIx {:trigger IsEdge(nodes, e)} :: IsEdge(nodes, e) ==> Target(nodes, e) < |nodes|)
    && forall v: nat, e: EdgeIx {:trigger nodes[v].incoming[e]} {:trigger Scanned(nodes, v, e)} ::
         v < |nodes| ==> nodes[v].incoming[e] == Scanned(nodes, v, e)
  }

  // ----- survivors -----

  /** `to` holds just the nodes of `from` in `nm` and the edges of `from` in `em`, at the places the
      two maps send them, with payloads and ends unchanged. */
  ghost predicate Moved<N, E>(from: Nodes<N, E>, to: Nodes<N, E>, nm: map<nat, nat>, em: map<EdgeIx, EdgeIx>) {
    && (forall x {:trigger NodeMoved(from, to, nm, x)} :: x in nm ==> NodeMoved(from, to, nm, x))
    && (forall y: nat {:trigger HasNode(nm, y)} :: y < |to| ==> HasNode(nm, y))
    && (forall x, y {:trigger nm[x], nm[y]} :: x in nm && y in nm && nm[x] == nm[y] ==> x == y)
    && (forall e {:trigger EdgeMoved(from, to, nm, em, e)} :: e in em ==> EdgeMoved(from, to, nm, em, e))
    && (forall d: EdgeIx {:trigger HasEdge(em, d)} :: IsEdge(to, d) ==> HasEdge(em, d))
    && (forall e, d {:trigger em[e], em[d]} :: e in em && d in em && em[e] == em[d] ==> e == d)
  }

  ghost predicate NodeMoved<N, E>(from: Nodes<N, E>, to: Nodes<N, E>, nm: map<nat, nat>, x: nat) {
    x in nm && x < |from| && nm[x] < |to| && to[nm[x]].value == from[x].value
  }

  ghost predicate HasNode(nm: map<nat, nat>, y: nat) {
    exists x :: x in nm && nm[x] == y
  }

  ghost predicate EdgeMoved<N, E>(from: Nodes<N, E>, to: Nodes<N, E>, nm: map<nat, nat>, em: map<EdgeIx, EdgeIx>,
                                  e: EdgeIx)
  {
    && e in em && IsEdge(from, e) && IsEdge(to, em[e])
    && e.0 in nm && em[e].0 == nm[e.0]
    && to[em[e].0].outgoing[em[e].1].value == from[e.0].outgoing[e.1].value
    && Target(from, e) in nm && Target(to, em[e]) == nm[Target(from, e)]
  }

  ghost predicate HasEdge(em: map<EdgeIx, EdgeIx>, d: EdgeIx) {
    exists e :: e in em && em[e] == d
  }

  lemma MovedThen<N, E>(a: Nodes<N, E>, b: Nodes<N, E>, c: Nodes<N, E>, nm: map<nat, nat>, em: map<EdgeIx, EdgeIx>,
                        nm': map<nat, nat>, em': map<EdgeIx, EdgeIx>)
    requires Moved(a, b, nm, em) && Moved(b, c, nm', em')
    ensures Moved(a, c, Then(nm, nm'), Then(em, em'))
  {
    var n2, e2 := Then(nm, nm'), Then(em, em');
    forall x | x in n2 ensures NodeMoved(a, c, n2, x) {
      assert NodeMoved(a, b, nm, x) && NodeMoved(b, c, nm', nm[x]);
    }
    forall y: nat | y < |c| ensures HasNode(n2, y) {
      assert HasNode(nm', y);
      var z :| z in nm' && nm'[z] == y;
      assert NodeMoved(b, c, nm', z);
      assert HasNode(nm, z);
      var x :| x in nm && nm[x] == z;
      assert x in n2 && n2[x] == y;
    }
    forall e | e in e2 ensures EdgeMoved(a, c, n2, e2, e) {
      assert EdgeMoved(a, b, nm, em, e) && EdgeMoved(b, c, nm', em', em[e]);
    }
    forall d: EdgeIx | IsEdge(c, d) ensures HasEdge(e2, d) {
      assert HasEdge(em', d);
      var z :| z in em' && em'[z] == d;
      assert EdgeMoved(b, c, nm', em', z);
      assert HasEdge(em, z);
      var e :| e in em && em[e] == z;
      assert e in e2 && e2[e] == d;
    }
    forall x, y | x in n2 && y in n2 && n2[x] == n2[y] ensures x == y {
      assert nm[x] == nm[y];
    }
    forall e, d | e in e2 && d in e2 && e2[e] == e2[d] ensures e == d {
      assert em[e] == em[d];
    }
  }

  ghost function EdgeSet<N, E>(nodes: Nodes<N, E>): set<EdgeIx> {
    set h: nat, k: nat | h < |nodes| && k < |nodes[h].outgoing| :: (h, k)
  }

  lemma EdgeSetIff<N, E>(nodes: Nodes<N, E>, e: EdgeIx)
    ensures e in EdgeSet(nodes) <==> IsEdge(nodes, e)
  {
    if IsEdge(nodes, e) {
      assert (e.0, e.1) in EdgeSet(nodes);
    }
  }

  ghost function Same(n: nat): (m: map<nat, nat>)
    ensures m.Keys == Below(n) && forall x :: x in m ==> m[x] == x
  {
    map x | x in Below(n) :: x
  }

  ghost function SameEdges<N, E>(nodes: Nodes<N, E>): (m: map<EdgeIx, EdgeIx>)
    ensures m.Keys == EdgeSet(nodes) && forall e :: e in m ==> m[e] == e
  {
    map e | e in EdgeSet(nodes) :: e
  }

  lemma MovedRefl<N, E>(nodes: Nodes<N, E>)
    requires IndexOk(nodes)
    ensures Moved(nodes, nodes, Same(|nodes|), SameEdges(nodes))
  {
    var nm, em := Same(|nodes|), SameEdges(nodes);
    forall y: nat | y < |nodes| ensures HasNode(nm, y) {
      assert y in nm && nm[y] == y;
    }
    forall e | e in em ensures EdgeMoved(nodes, nodes, nm, em, e) {
      EdgeSetIff(nodes, e);
    }
    forall d: EdgeIx | IsEdge(nodes, d) ensures HasEdge(em, d) {
      EdgeSetIff(nodes, d);
      assert em[d] == d;
    }
  }

  // ----- removing an edge -----

  /** Where removal of edge `e` sends the others: the last edge of the same tail takes its place. */
  ghost function EdgeShift<N, E>(nodes: Nodes<N, E>, e: EdgeIx): (m: map<EdgeIx, EdgeIx>)
    requires IsEdge(nodes, e)
    ensures m.Keys == EdgeSet(nodes) - {e}
    ensures forall d :: d in m ==> m[d] == if d == (e.0, |nodes[e.0].outgoing| - 1) then e else d
  {
    map d | d in EdgeSet(nodes) && d != e :: if d == (e.0, |nodes[e.0].outgoing| - 1) then e else d
  }

  /** Nodes after the outgoing edge is swap-removed and the reverse index told of it. */
  ghost predicate EdgeTaken<N, E>(nodes: Nodes<N, E>, e: EdgeIx, nodes': Nodes<N, E>)
    requires IsEdge(nodes, e)
  {
    && |nodes'| == |nodes|
    && (forall h: nat {:trigger nodes'[h]} :: h < |nodes| ==>
          nodes'[h].value == nodes[h].value
          && nodes'[h].outgoing == if h == e.0 then SwapRemove(nodes[h].outgoing, e.1) else nodes[h].outgoing)
    && (forall h: nat, d: EdgeIx {:trigger nodes'[h].incoming[d]} :: h < |nodes| ==>
          nodes'[h].incoming[d] == Reindexed(nodes, e, h, d))
  }

  /** What the reverse index of `h` should say of `d` after edge `e` is gone. */
  ghost function Reindexed<N, E>(nodes: Nodes<N, E>, e: EdgeIx, h: nat, d: EdgeIx): nat
    requires IsEdge(nodes, e) && h < |nodes|
  {
    var last := (e.0, |nodes[e.0].outgoing| - 1);
    if d == last then 0 else if d == e then nodes[h].incoming[last] else nodes[h].incoming[d]
  }

  lemma EdgeTakenFacts<N, E>(nodes: Nodes<N, E>, e: EdgeIx, nodes': Nodes<N, E>)
    requires IndexOk(nodes) && IsEdge(nodes, e) && EdgeTaken(nodes, e, nodes')
    ensures forall d: EdgeIx {:trigger IsEdge(nodes', d)} ::
              IsEdge(nodes', d) <==> IsEdge(nodes, d) && d != (e.0, |nodes[e.0].outgoing| - 1)
    ensures forall d: EdgeIx {:trigger IsEdge(nodes', d)} :: IsEdge(nodes', d) ==>
              nodes'[d.0].outgoing[d.1] == if d == e then nodes[e.0].outgoing[|nodes[e.0].outgoing| - 1]
              else nodes[d.0].outgoing[d.1]
  {
  }

  lemma EdgeTakenIndex<N, E>(nodes: Nodes<N, E>, e: EdgeIx, nodes': Nodes<N, E>)
    requires IndexOk(nodes) && IsEdge(nodes, e) && EdgeTaken(nodes, e, nodes')
    ensures IndexOk(nodes')
  {
    EdgeTakenFacts(nodes, e, nodes');
    var last := (e.0, |nodes[e.0].outgoing| - 1);
    assert IsEdge(nodes, last);
    forall v: nat, d: EdgeIx | v < |nodes'| ensures nodes'[v].incoming[d] == Scanned(nodes', v, d) {
      assert nodes[v].incoming[last] == Scanned(nodes, v, last) && nodes[v].incoming[d] == Scanned(nodes, v, d);
    }
    forall d: EdgeIx | IsEdge(nodes', d) ensures Target(nodes', d) < |nodes'| {
      assert IsEdge(nodes, d);
    }
  }

  lemma EdgeTakenOne<N, E>(nodes: Nodes<N, E>, e: EdgeIx, nodes': Nodes<N, E>, d: EdgeIx)
    requires IndexOk(nodes) && IsEdge(nodes, e) && EdgeTaken(nodes, e, nodes') && d in EdgeSet(nodes) && d != e
    ensures EdgeMoved(nodes, nodes', Same(|nodes|), EdgeShift(nodes, e), d)
  {
    EdgeTakenFacts(nodes, e, nodes');
    EdgeSetIff(nodes, d);
    assert IsEdge(nodes', EdgeShift(nodes, e)[d]);
  }

  lemma EdgeTakenMoved<N, E>(nodes: Nodes<N, E>, e: EdgeIx, nodes': Nodes<N, E>)
    requires IndexOk(nodes) && IsEdge(nodes, e) && EdgeTaken(nodes, e, nodes')
    ensures Moved(nodes, nodes', Same(|nodes|), EdgeShift(nodes, e))
  {
    EdgeTakenFacts(nodes, e, nodes');
    var nm, em := Same(|nodes|), EdgeShift(nodes, e);
    var last := (e.0, |nodes[e.0].outgoing| - 1);
    forall y: nat | y < |nodes'| ensures HasNode(nm, y) {
      assert nm[y] == y;
    }
    forall d | d in em ensures EdgeMoved(nodes, nodes', nm, em, d) {
      EdgeTakenOne(nodes, e, nodes', d);
    }
    forall d: EdgeIx | IsEdge(nodes', d) ensures HasEdge(em, d) {
      EdgeSetIff(nodes, d);
      EdgeSetIff(nodes, last);
      var o := if d == e then last else d;
      assert o in em && em[o] == d;
    }
  }

  // ----- descending order -----

  /** The order of edge indices: by tail, then by position. */
  predicate Less(a: EdgeIx, b: EdgeIx) {
    a.0 < b.0 || (a.0 == b.0 && a.1 < b.1)
  }

  function InsertDown(x: EdgeIx, s: seq<EdgeIx>): (r: seq<EdgeIx>)
    ensures forall y :: y in r <==> y == x || y in s
  {
    if s == [] then [x] else if !Less(x, s[0]) then [x] + s else [s[0]] + InsertDown(x, s[1..])
  }

  /** `sort_unstable_by(|a, b| b.cmp(a))`. */
  function SortDown(s: seq<EdgeIx>): (r: seq<EdgeIx>)
    ensures forall y :: y in r <==> y in s
  {
    if s == [] then [] else InsertDown(s[0], SortDown(s[1..]))
  }

  /** `dedup`: of equal neighbours the first stays. */
  function Dedup(s: seq<EdgeIx>): (r: seq<EdgeIx>)
    ensures forall y :: y in r <==> y in s
  {
    if |s| <= 1 then s
    else if s[0] == s[1] then Dedup(s[1..])
    else [s[0]] + Dedup(s[1..])
  }

  ghost predicate Down(s: seq<EdgeIx>) {
    forall i, j :: 0 <= i < j < |s| ==> !Less(s[i], s[j])
  }

  ghost predicate StrictlyDown(s: seq<EdgeIx>) {
    forall i, j :: 0 <= i < j < |s| ==> Less(s[j], s[i])
  }

  lemma {:induction false} InsertIsDown(x: EdgeIx, s: seq<EdgeIx>)
    requires Down(s)
    ensures Down(InsertDown(x, s))
    ensures StrictlyDown(s) && x !in s ==> StrictlyDown(InsertDown(x, s))
  {
    if s != [] && Less(x, s[0]) {
      InsertIsDown(x, s[1..]);
      var t := InsertDown(x, s[1..]);
      forall j | 0 <= j < |t| ensures !Less(s[0], t[j]) && (StrictlyDown(s) && x !in s ==> Less(t[j], s[0])) {
        assert t[j] in t;
      }
    }
  }

  lemma {:induction false} SortIsDown(s: seq<EdgeIx>)
    ensures Down(SortDown(s)) && (NoDup(s) ==> StrictlyDown(SortDown(s)))
  {
    if s != [] {
      SortIsDown(s[1..]);
      InsertIsDown(s[0], SortDown(s[1..]));
      if NoDup(s) {
        assert s[0] !in s[1..];
      }
    }
  }

  lemma {:induction false} DedupIsStrict(s: seq<EdgeIx>)
    requires Down(s)
    ensures StrictlyDown(Dedup(s))
  {
    if |s| > 1 {
      DedupIsStrict(s[1..]);
      if s[0] != s[1] {
        var t := Dedup(s[1..]);
        forall j | 0 <= j < |t| ensures Less(t[j], s[0]) {
          assert t[j] in s[1..];
          var k :| 0 <= k < |s[1..]| && s[1..][k] == t[j];
          assert !Less(s[0], s[k + 1]) && !Less(s[0], s[1]) && (k > 0 ==> !Less(s[1], s[k + 1]));
        }
      }
    }
  }

  // ----- removing edges in descending order -----

  ghost predicate AllEdges<N, E>(nodes: Nodes<N, E>, s: seq<EdgeIx>) {
    forall e :: e in s ==> IsEdge(nodes, e)
  }

  /** The first `i` edges of the list are gone; those that sort below them have not moved. */
  ghost predicate TakenDownTo<N, E>(nodes0: Nodes<N, E>, nodes: Nodes<N, E>, sorted: seq<EdgeIx>, i: nat,
                                    em: map<EdgeIx, EdgeIx>)
    requires i <= |sorted|
  {
    && IndexOk(nodes) && |nodes| == |nodes0| && Moved(nodes0, nodes, Same(|nodes0|), em)
    && em.Keys == EdgeSet(nodes0) - Elems(sorted[..i])
    && forall e {:trigger em[e]} :: e in em && (i == 0 || Less(e, sorted[i - 1])) ==> em[e] == e
  }

  lemma TakenNext<N, E>(nodes0: Nodes<N, E>, nodes: Nodes<N, E>, sorted: seq<EdgeIx>, i: nat, em: map<EdgeIx, EdgeIx>)
    requires StrictlyDown(sorted) && AllEdges(nodes0, sorted) && i < |sorted|
    requires TakenDownTo(nodes0, nodes, sorted, i, em)
    ensures sorted[i] in em && em[sorted[i]] == sorted[i] && IsEdge(nodes0, sorted[i]) && IsEdge(nodes, sorted[i])
    ensures nodes[sorted[i].0].outgoing[sorted[i].1].value == nodes0[sorted[i].0].outgoing[sorted[i].1].value
  {
    var e := sorted[i];
    assert e in sorted;
    EdgeSetIff(nodes0, e);
    assert e !in sorted[..i];
    assert EdgeMoved(nodes0, nodes, Same(|nodes0|), em, e);
  }

  /** `values` are the payloads of the first edges of the list. */
  ghost predicate ReadOff<N, E>(nodes: Nodes<N, E>, sorted: seq<EdgeIx>, values: seq<E>) {
    && |values| <= |sorted|
    && forall k {:trigger values[k]} :: 0 <= k < |values| ==>
         IsEdge(nodes, sorted[k]) && values[k] == nodes[sorted[k].0].outgoing[sorted[k].1].value
  }

  lemma ReadMore<N, E>(nodes: Nodes<N, E>, sorted: seq<EdgeIx>, values: seq<E>, value: E)
    requires ReadOff(nodes, sorted, values) && |values| < |sorted|
    requires var e := sorted[|values|]; IsEdge(nodes, e) && value == nodes[e.0].outgoing[e.1].value
    ensures ReadOff(nodes, sorted, values + [value])
  {
    var r := values + [value];
    forall k | 0 <= k < |r| ensures IsEdge(nodes, sorted[k]) && r[k] == nodes[sorted[k].0].outgoing[sorted[k].1].value {
      assert k < |values| ==> r[k] == values[k];
    }
  }

  /** As many edges are gone as payloads have been read. */
  ghost predicate TakingDown<N, E>(nodes0: Nodes<N, E>, nodes: Nodes<N, E>, sorted: seq<EdgeIx>, values: seq<E>,
                                   em: map<EdgeIx, EdgeIx>)
  {
    ReadOff(nodes0, sorted, values) && TakenDownTo(nodes0, nodes, sorted, |values|, em)
  }

  lemma TakenNone<N, E>(nodes: Nodes<N, E>, sorted: seq<EdgeIx>)
    requires IndexOk(nodes)
    ensures TakingDown(nodes, nodes, sorted, [], SameEdges(nodes))
  {
    MovedRefl(nodes);
    assert Elems(sorted[..0]) == {};
  }

  lemma TakenKeys<N, E>(nodes0: Nodes<N, E>, nodes: Nodes<N, E>, sorted: seq<EdgeIx>, i: nat, em: map<EdgeIx, EdgeIx>)
    requires i < |sorted| && TakenDownTo(nodes0, nodes, sorted, i, em)
    requires sorted[i] in em && em[sorted[i]] == sorted[i] && IsEdge(nodes, sorted[i])
    ensures Then(em, EdgeShift(nodes, sorted[i])).Keys == EdgeSet(nodes0) - Elems(sorted[..i + 1])
  {
    var e := sorted[i];
    assert sorted[..i + 1] == sorted[..i] + [e];
    assert Elems(sorted[..i + 1]) == Elems(sorted[..i]) + {e};
    forall d | d in em ensures em[d] in EdgeShift(nodes, e) <==> d != e {
      assert EdgeMoved(nodes0, nodes, Same(|nodes0|), em, d);
      EdgeSetIff(nodes, em[d]);
      assert em[d] == em[e] ==> d == e;
    }
  }

  lemma TakenStep<N, E>(nodes0: Nodes<N, E>, nodes: Nodes<N, E>, sorted: seq<EdgeIx>, i: nat, em: map<EdgeIx, EdgeIx>,
                        nodes': Nodes<N, E>)
    requires StrictlyDown(sorted) && AllEdges(nodes0, sorted) && i < |sorted|
    requires TakenDownTo(nodes0, nodes, sorted, i, em)
    requires IsEdge(nodes, sorted[i]) && EdgeTaken(nodes, sorted[i], nodes')
    ensures TakenDownTo(nodes0, nodes', sorted, i + 1, Then(em, EdgeShift(nodes, sorted[i])))
  {
    TakenNext(nodes0, nodes, sorted, i, em);
    TakenMoved(nodes0, nodes, sorted[i], em, nodes');
    TakenKeys(nodes0, nodes, sorted, i, em);
    TakenLow(nodes0, nodes, sorted, i, em);
  }

  lemma TakenMoved<N, E>(nodes0: Nodes<N, E>, nodes: Nodes<N, E>, e: EdgeIx, em: map<EdgeIx, EdgeIx>,
                         nodes': Nodes<N, E>)
    requires IndexOk(nodes) && |nodes| == |nodes0| && Moved(nodes0, nodes, Same(|nodes0|), em)
    requires IsEdge(nodes, e) && EdgeTaken(nodes, e, nodes')
    ensures IndexOk(nodes') && |nodes'| == |nodes0|
    ensures Moved(nodes0, nodes', Same(|nodes0|), Then(em, EdgeShift(nodes, e)))
  {
    EdgeTakenIndex(nodes, e, nodes');
    EdgeTakenMoved(nodes, e, nodes');
    MovedThen(nodes0, nodes, nodes', Same(|nodes0|), em, Same(|nodes|), EdgeShift(nodes, e));
    assert Then(Same(|nodes0|), Same(|nodes|)) == Same(|nodes0|);
  }

  lemma TakenLow<N, E>(nodes0: Nodes<N, E>, nodes: Nodes<N, E>, sorted: seq<EdgeIx>, i: nat, em: map<EdgeIx, EdgeIx>)
    requires StrictlyDown(sorted) && i < |sorted| && TakenDownTo(nodes0, nodes, sorted, i, em)
    requires IsEdge(nodes, sorted[i])
    ensures var em' := Then(em, EdgeShift(nodes, sorted[i]));
            forall d {:trigger em'[d]} :: d in em' && Less(d, sorted[i]) ==> em'[d] == d
  {
    var e := sorted[i];
    var em' := Then(em, EdgeShift(nodes, e));
    forall d | d in em' && Less(d, e) ensures em'[d] == d {
      assert i > 0 ==> Less(e, sorted[i - 1]);
      assert em[d] == d;
    }
  }

  // ----- dropping a node no edge touches -----

  ghost predicate Untouched<N, E>(nodes: Nodes<N, E>, v: nat) {
    && v < |nodes| && nodes[v].outgoing == []
    && forall e: EdgeIx {:trigger IsEdge(nodes, e)} :: IsEdge(nodes, e) ==> Target(nodes, e) != v
  }

  function Retarget(t: nat, from: nat, to: nat): nat {
    if t == from then to else t
  }

  /** `v` swap-removed, and every mention of the node that took its place rewritten. */
  ghost predicate NodeDropped<N, E>(nodes: Nodes<N, E>, v: nat, nodes': Nodes<N, E>)
    requires v < |nodes|
  {
    && |nodes'| == |nodes| - 1
    && forall h: nat {:trigger nodes'[h]} :: h < |nodes'| ==>
         Rewritten(nodes[if h == v then |nodes| - 1 else h], |nodes| - 1, v, nodes'[h])
  }

  /** A node with edges from or to `last` attributed to `v` instead. */
  ghost predicate Rewritten<N, E>(o: Node<N, E>, last: nat, v: nat, n: Node<N, E>) {
    && n.value == o.value && |n.outgoing| == |o.outgoing|
    && (forall k: nat {:trigger n.outgoing[k]} :: k < |o.outgoing| ==>
          n.outgoing[k] == Out(o.outgoing[k].value, Retarget(o.outgoing[k].target, last, v)))
    && forall d: EdgeIx {:trigger n.incoming[d]} ::
         n.incoming[d] == if last == v then o.incoming[d] else Renamed(o.incoming, last, v, d)
  }

  ghost function Renamed(m: multiset<EdgeIx>, last: nat, v: nat, d: EdgeIx): nat {
    if d.0 == last then 0 else if d.0 == v then m[d] + m[(last, d.1)] else m[d]
  }

  ghost function NodeShiftEdges<N, E>(nodes: Nodes<N, E>, v: nat): (m: map<EdgeIx, EdgeIx>)
    requires v < |nodes|
    ensures m.Keys == EdgeSet(nodes) && forall e :: e in m ==> m[e] == (Retarget(e.0, |nodes| - 1, v), e.1)
  {
    map e | e in EdgeSet(nodes) :: (Retarget(e.0, |nodes| - 1, v), e.1)
  }

  lemma NodeDroppedEdges<N, E>(nodes: Nodes<N, E>, v: nat, nodes': Nodes<N, E>, d: EdgeIx)
    requires IndexOk(nodes) && Untouched(nodes, v) && NodeDropped(nodes, v, nodes')
    ensures var o := (if d.0 == v then |nodes| - 1 else d.0, d.1);
            && (IsEdge(nodes', d) <==> d.0 < |nodes'| && IsEdge(nodes, o))
            && (IsEdge(nodes', d) ==>
                  && Target(nodes', d) == Retarget(Target(nodes, o), |nodes| - 1, v)
                  && nodes'[d.0].outgoing[d.1].value == nodes[o.0].outgoing[o.1].value)
  {
    if d.0 < |nodes'| {
      var n := nodes'[d.0];
      assert Rewritten(nodes[if d.0 == v then |nodes| - 1 else d.0], |nodes| - 1, v, n);
      if d.1 < |n.outgoing| {
        assert n.outgoing[d.1].target == Target(nodes', d);
      }
    }
  }

  lemma NodeDroppedIndex<N, E>(nodes: Nodes<N, E>, v: nat, nodes': Nodes<N, E>)
    requires IndexOk(nodes) && Untouched(nodes, v) && NodeDropped(nodes, v, nodes')
    ensures IndexOk(nodes')
  {
    forall d: EdgeIx | IsEdge(nodes', d) ensures Target(nodes', d) < |nodes'| {
      NodeDroppedEdges(nodes, v, nodes', d);
      assert IsEdge(nodes, (if d.0 == v then |nodes| - 1 else d.0, d.1));
    }
    forall h: nat, d: EdgeIx | h < |nodes'| ensures nodes'[h].incoming[d] == Scanned(nodes', h, d) {
      NodeDroppedScan(nodes, v, nodes', h, d);
    }
  }

  lemma NodeDroppedScan<N, E>(nodes: Nodes<N, E>, v: nat, nodes': Nodes<N, E>, h: nat, d: EdgeIx)
    requires IndexOk(nodes) && Untouched(nodes, v) && NodeDropped(nodes, v, nodes') && h < |nodes'|
    ensures nodes'[h].incoming[d] == Scanned(nodes', h, d)
  {
    var last := |nodes| - 1;
    var o := (if d.0 == v then last else d.0, d.1);
    var y := if h == v then last else h;
    NodeDroppedEdges(nodes, v, nodes', d);
    assert nodes'[h].incoming[d] == if last == v then nodes[y].incoming[d] else Renamed(nodes[y].incoming, last, v, d);
    assert nodes[y].incoming[d] == Scanned(nodes, y, d)
           && nodes[y].incoming[(last, d.1)] == Scanned(nodes, y, (last, d.1));
    if IsEdge(nodes, o) {
      assert Target(nodes, o) != v;
    }
  }

  lemma NodeDroppedMoved<N, E>(nodes: Nodes<N, E>, v: nat, nodes': Nodes<N, E>)
    requires IndexOk(nodes) && Untouched(nodes, v) && NodeDropped(nodes, v, nodes')
    ensures Moved(nodes, nodes', SwapMap(|nodes|, v), NodeShiftEdges(nodes, v))
  {
    var nm, em := SwapMap(|nodes|, v), NodeShiftEdges(nodes, v);
    NodeDroppedNodes(nodes, v, nodes');
    forall e | e in em ensures EdgeMoved(nodes, nodes', nm, em, e) {
      NodeDroppedEdge(nodes, v, nodes', e);
    }
    forall d: EdgeIx | IsEdge(nodes', d) ensures HasEdge(em, d) {
      NodeDroppedOnto(nodes, v, nodes', d);
    }
    forall e, d | e in em && d in em && em[e] == em[d] ensures e == d {
      EdgeSetIff(nodes, e);
      EdgeSetIff(nodes, d);
    }
  }

  lemma NodeDroppedNodes<N, E>(nodes: Nodes<N, E>, v: nat, nodes': Nodes<N, E>)
    requires v < |nodes| && NodeDropped(nodes, v, nodes')
    ensures var nm := SwapMap(|nodes|, v);
            && (forall x {:trigger NodeMoved(nodes, nodes', nm, x)} :: x in nm ==> NodeMoved(nodes, nodes', nm, x))
            && (forall y: nat {:trigger HasNode(nm, y)} :: y < |nodes'| ==> HasNode(nm, y))
  {
    var nm, last := SwapMap(|nodes|, v), |nodes| - 1;
    forall x | x in nm ensures NodeMoved(nodes, nodes', nm, x) {
      assert Rewritten(nodes[if nm[x] == v then last else nm[x]], last, v, nodes'[nm[x]]);
    }
    forall y: nat | y < |nodes'| ensures HasNode(nm, y) {
      var x := if y == v then last else y;
      assert x in nm && nm[x] == y;
    }
  }

  lemma NodeDroppedEdge<N, E>(nodes: Nodes<N, E>, v: nat, nodes': Nodes<N, E>, e: EdgeIx)
    requires IndexOk(nodes) && Untouched(nodes, v) && NodeDropped(nodes, v, nodes') && e in NodeShiftEdges(nodes, v)
    ensures EdgeMoved(nodes, nodes', SwapMap(|nodes|, v), NodeShiftEdges(nodes, v), e)
  {
    EdgeSetIff(nodes, e);
    assert e.0 != v && Target(nodes, e) != v;
    var d := (Retarget(e.0, |nodes| - 1, v), e.1);
    NodeDroppedEdges(nodes, v, nodes', d);
    assert (if d.0 == v then |nodes| - 1 else d.0, d.1) == e;
  }

  lemma NodeDroppedOnto<N, E>(nodes: Nodes<N, E>, v: nat, nodes': Nodes<N, E>, d: EdgeIx)
    requires IndexOk(nodes) && Untouched(nodes, v) && NodeDropped(nodes, v, nodes') && IsEdge(nodes', d)
    ensures HasEdge(NodeShiftEdges(nodes, v), d)
  {
    NodeDroppedEdges(nodes, v, nodes', d);
    var o := (if d.0 == v then |nodes| - 1 else d.0, d.1);
    EdgeSetIff(nodes, o);
    assert o in NodeShiftEdges(nodes, v) && NodeShiftEdges(nodes, v)[o] == d;
  }

  /** Edges of `nodes` with neither end at `v`. */
  ghost predicate Away<N, E>(nodes: Nodes<N, E>, v: nat, e: EdgeIx) {
    IsEdge(nodes, e) && e.0 != v && Target(nodes, e) != v
  }

  // ----- the graph -----

  ghost predicate TargetsOk<N, E>(nodes: Nodes<N, E>) {
    forall e: EdgeIx {:trigger IsEdge(nodes, e)} :: IsEdge(nodes, e) ==> Target(nodes, e) < |nodes|
  }

  function WithIncoming<N, E>(nodes: Nodes<N, E>, v: nat, incoming: multiset<EdgeIx>): (r: Nodes<N, E>)
    requires v < |nodes|
    ensures |r| == |nodes|
    ensures forall h :: 0 <= h < |nodes| ==> r[h] == if h == v then nodes[v].(incoming := incoming) else nodes[h]
  {
    nodes[v := nodes[v].(incoming := incoming)]
  }

  function WithoutOut<N, E>(nodes: Nodes<N, E>, e: EdgeIx): (r: Nodes<N, E>)
    requires IsEdge(nodes, e)
    ensures |r| == |nodes|
    ensures forall h :: 0 <= h < |nodes| ==>
              r[h] == if h == e.0 then nodes[h].(outgoing := SwapRemove(nodes[h].outgoing, e.1)) else nodes[h]
  {
    nodes[e.0 := nodes[e.0].(outgoing := SwapRemove(nodes[e.0].outgoing, e.1))]
  }

  ghost function LastOf<N, E>(nodes: Nodes<N, E>, e: EdgeIx): (last: EdgeIx)
    requires IsEdge(nodes, e)
    ensures IsEdge(nodes, last)
  {
    (e.0, |nodes[e.0].outgoing| - 1)
  }

  /** Nodes after one edge is unlinked: its reverse entry dropped, the relocated edge's renamed. */
  ghost function Unlinked<N, E>(nodes: Nodes<N, E>, e: EdgeIx): (r: Nodes<N, E>)
    requires IsEdge(nodes, e) && TargetsOk(nodes)
    ensures |r| == |nodes|
  {
    var last := LastOf(nodes, e);
    var t, u := Target(nodes, e), Target(nodes, last);
    var n1 := WithoutOut(nodes, e);
    var n2 := WithIncoming(n1, t, n1[t].incoming - multiset{e});
    if e != last && last in n2[u].incoming
    then WithIncoming(n2, u, n2[u].incoming - multiset{last} + multiset{e})
    else n2
  }

  lemma UnlinkedOutgoing<N, E>(nodes: Nodes<N, E>, e: EdgeIx, h: nat)
    requires IsEdge(nodes, e) && TargetsOk(nodes) && h < |nodes|
    ensures var n := Unlinked(nodes, e)[h];
            && n.value == nodes[h].value
            && n.outgoing == if h == e.0 then SwapRemove(nodes[h].outgoing, e.1) else nodes[h].outgoing
  {
  }

  /** One reverse entry set through the unlinking of `e`: at its target if `t`, at the target of the
      relocated edge if `u`. */
  lemma EntryUnlinked(inc: multiset<EdgeIx>, e: EdgeIx, last: EdgeIx, t: bool, u: bool, d: EdgeIx)
    requires inc[e] == (if t then 1 else 0) && inc[last] == (if u then 1 else 0)
    ensures var inc2 := if t then inc - multiset{e} else inc;
            var inc3 := if e != last && u then inc2 - multiset{last} + multiset{e} else inc2;
            inc3[d] == if d == last then 0 else if d == e then inc[last] else inc[d]
  {
  }

  lemma UnlinkedIncoming<N, E>(nodes: Nodes<N, E>, e: EdgeIx, h: nat, d: EdgeIx)
    requires IsEdge(nodes, e) && TargetsOk(nodes) && h < |nodes|
    requires var last := LastOf(nodes, e);
             && nodes[h].incoming[e] == Scanned(nodes, h, e) && nodes[h].incoming[last] == Scanned(nodes, h, last)
             && nodes[Target(nodes, last)].incoming[last] == 1
    ensures Unlinked(nodes, e)[h].incoming[d] == Reindexed(nodes, e, h, d)
  {
    var last := LastOf(nodes, e);
    var t, u := Target(nodes, e), Target(nodes, last);
    var n1 := WithoutOut(nodes, e);
    var n2 := WithIncoming(n1, t, n1[t].incoming - multiset{e});
    assert n2[h].incoming == if h == t then nodes[h].incoming - multiset{e} else nodes[h].incoming;
    assert n2[u].incoming == if u == t then nodes[u].incoming - multiset{e} else nodes[u].incoming;
    EntryUnlinked(nodes[h].incoming, e, last, h == t, h == u, d);
  }

  lemma UnlinkedTaken<N, E>(nodes: Nodes<N, E>, e: EdgeIx)
    requires IndexOk(nodes) && IsEdge(nodes, e)
    ensures EdgeTaken(nodes, e, Unlinked(nodes, e))
  {
    var nodes' := Unlinked(nodes, e);
    forall h: nat, d: EdgeIx | h < |nodes| ensures nodes'[h].incoming[d] == Reindexed(nodes, e, h, d) {
      var last := LastOf(nodes, e);
      assert nodes[Target(nodes, last)].incoming[last] == Scanned(nodes, Target(nodes, last), last);
      assert nodes[h].incoming[e] == Scanned(nodes, h, e) && nodes[h].incoming[last] == Scanned(nodes, h, last);
      UnlinkedIncoming(nodes, e, h, d);
    }
    forall h: nat | h < |nodes|
      ensures nodes'[h].value == nodes[h].value
              && nodes'[h].outgoing == if h == e.0 then SwapRemove(nodes[h].outgoing, e.1) else nodes[h].outgoing
    {
      UnlinkedOutgoing(nodes, e, h);
    }
    assert |nodes'| == |nodes|;
  }

  /** By tail, and below the same tail by place. */
  ghost predicate InOrder(s: seq<EdgeIx>) {
    forall i, j :: 0 <= i < j < |s| ==> s[i].0 < s[j].0 || (s[i].0 == s[j].0 && s[i].1 < s[j].1)
  }

  class FlatAdjEdgeGraph<N, E> {
    var nodes: Nodes<N, E>

    ghost predicate Valid()
      reads this
    {
      IndexOk(nodes)
    }

    constructor ()
      ensures Valid() && nodes == []
    {
      nodes := [];
    }

    // The reverse index of one node.

    method RecordInsert(at: nat, e: EdgeIx)
      requires at < |nodes|
      modifies this
      ensures nodes == WithIncoming(old(nodes), at, old(nodes)[at].incoming + multiset{e})
    {
      nodes := WithIncoming(nodes, at, nodes[at].incoming + multiset{e});
    }

    method RecordRemove(at: nat, e: EdgeIx)
      requires at < |nodes|
      modifies this
      ensures nodes == WithIncoming(old(nodes), at, old(nodes)[at].incoming - multiset{e})
    {
      nodes := WithIncoming(nodes, at, nodes[at].incoming - multiset{e});
    }

    /** `collect_incoming` with the index kept: its entries in whatever order. */
    method CollectIncoming(v: nat) returns (s: seq<EdgeIx>)
      requires v < |nodes|
      ensures multiset(s) == nodes[v].incoming
    {
      s := [];
      var rest := nodes[v].incoming;
      while rest != multiset{}
        invariant multiset(s) + rest == nodes[v].incoming
        decreases |rest|
      {
        var e :| e in rest;
        rest := rest - multiset{e};
        s := s + [e];
      }
    }

    /** `collect_incoming` without an index: a scan of every node's outgoing edges. */
    method ScanIncoming(v: nat) returns (s: seq<EdgeIx>)
      ensures NoDup(s) && forall e: EdgeIx :: e in s <==> IsEdge(nodes, e) && Target(nodes, e) == v
      ensures InOrder(s)
    {
      s := [];
      for h := 0 to |nodes|
        invariant NoDup(s) && InOrder(s)
        invariant forall e: EdgeIx :: e in s <==> e.0 < h && IsEdge(nodes, e) && Target(nodes, e) == v
      {
        for k := 0 to |nodes[h].outgoing|
          invariant NoDup(s) && InOrder(s)
          invariant forall e: EdgeIx :: e in s <==>
                      IsEdge(nodes, e) && Target(nodes, e) == v && (e.0 < h || (e.0 == h && e.1 < k))
        {
          if nodes[h].outgoing[k].target == v {
            assert forall i :: 0 <= i < |s| ==> s[i] in s;
            s := s + [(h, k)];
          }
        }
      }
    }

    /** Both ways of collecting report the same edges, each once. */
    method IncomingAgree(v: nat) returns (fast: seq<EdgeIx>, slow: seq<EdgeIx>)
      requires Valid() && v < |nodes|
      ensures multiset(fast) == multiset(slow) == nodes[v].incoming
    {
      fast := CollectIncoming(v);
      slow := ScanIncoming(v);
      forall e: EdgeIx ensures multiset(slow)[e] == nodes[v].incoming[e] {
        CountOnce(slow, e);
        assert nodes[v].incoming[e] == Scanned(nodes, v, e);
      }
      assert multiset(slow) == nodes[v].incoming;
    }

    method InsertNode(value: N) returns (v: nat)
      requires Valid()
      modifies this
      ensures Valid() && v == |old(nodes)| && nodes == old(nodes) + [Node(value, [], multiset{})]
    {
      v := |nodes|;
      ghost var nodes0 := nodes;
      nodes := nodes + [Node(value, [], multiset{})];
      NodeAdded(nodes0, value);
    }

    method InsertEdge(value: E, tail: nat, head: nat) returns (e: EdgeIx)
      requires Valid() && tail < |nodes| && head < |nodes|
      modifies this
      ensures Valid() && e == (tail, |old(nodes)[tail].outgoing|) && |nodes| == |old(nodes)|
      ensures forall h: nat :: h < |nodes| ==>
                nodes[h].value == old(nodes)[h].value
                && nodes[h].outgoing == if h == tail then old(nodes)[h].outgoing + [Out(value, head)]
                   else old(nodes)[h].outgoing
    {
      ghost var nodes0 := nodes;
      e := (tail, |nodes[tail].outgoing|);
      nodes := nodes[tail := nodes[tail].(outgoing := nodes[tail].outgoing + [Out(value, head)])];
      RecordInsert(head, e);
      EdgeAdded(nodes0, e, value, head, nodes);
    }

    method TakeEdge(e: EdgeIx) returns (value: E)
      requires Valid() && IsEdge(nodes, e)
      modifies this
      ensures Valid() && value == old(nodes)[e.0].outgoing[e.1].value
      ensures EdgeTaken(old(nodes), e, nodes) && Moved(old(nodes), nodes, Same(|old(nodes)|), EdgeShift(old(nodes), e))
    {
      value := Unlink(e);
      UnlinkedTaken(old(nodes), e);
      EdgeTakenIndex(old(nodes), e, nodes);
      EdgeTakenMoved(old(nodes), e, nodes);
    }

    method Unlink(e: EdgeIx) returns (value: E)
      requires IsEdge(nodes, e) && TargetsOk(nodes)
      modifies this
      ensures value == old(nodes)[e.0].outgoing[e.1].value && nodes == Unlinked(old(nodes), e)
    {
      var (tail, k) := e;
      var Out(v, target) := nodes[tail].outgoing[k];
      value := v;
      var swapped := Relocated(|nodes[tail].outgoing|, k);
      ghost var last := LastOf(nodes, e);
      assert swapped.Some? <==> e != last;
      nodes := WithoutOut(nodes, e);
      RecordRemove(target, e);
      if swapped.Some? {
        var old' := (tail, swapped.value);
        var relocatedTarget := nodes[tail].outgoing[k].target;
        assert old' == last && relocatedTarget == Target(old(nodes), last);
        if old' in nodes[relocatedTarget].incoming {
          RecordRemove(relocatedTarget, old');
          RecordInsert(relocatedTarget, e);
        }
      }
    }

    /** Remove the next edge of the list. */
    method TakeEdgeAt(sorted: seq<EdgeIx>, i: nat, ghost nodes0: Nodes<N, E>, ghost em: map<EdgeIx, EdgeIx>)
      returns (value: E, ghost em': map<EdgeIx, EdgeIx>)
      requires Valid() && StrictlyDown(sorted) && AllEdges(nodes0, sorted) && i < |sorted|
      requires TakenDownTo(nodes0, nodes, sorted, i, em)
      modifies this
      ensures Valid() && TakenDownTo(nodes0, nodes, sorted, i + 1, em')
      ensures IsEdge(nodes0, sorted[i]) && value == nodes0[sorted[i].0].outgoing[sorted[i].1].value
    {
      TakenNext(nodes0, nodes, sorted, i, em);
      ghost var nodes' := nodes;
      value := TakeEdge(sorted[i]);
      TakenStep(nodes0, nodes', sorted, i, em, nodes);
      em' := Then(em, EdgeShift(nodes', sorted[i]));
    }

    /** Remove edges listed in descending order. */
    method TakeDescending(sorted: seq<EdgeIx>) returns (values: seq<E>, ghost em: map<EdgeIx, EdgeIx>)
      requires Valid() && StrictlyDown(sorted) && AllEdges(nodes, sorted)
      modifies this
      ensures Valid() && TakenDownTo(old(nodes), nodes, sorted, |sorted|, em)
      ensures |values| == |sorted| && ReadOff(old(nodes), sorted, values)
    {
      ghost var n0 := nodes;
      values, em := [], SameEdges(nodes);
      TakenNone(n0, sorted);
      while |values| < |sorted|
        invariant TakingDown(n0, nodes, sorted, values, em)
        decreases |sorted| - |values|
      {
        var value;
        value, em := TakeEdgeAt(sorted, |values|, n0, em);
        ReadMore(n0, sorted, values, value);
        values := values + [value];
      }
    }

    /** Remove a node with every edge that touches it.  `em` says where the other edges went; the
        last node takes the place of the removed one. */
    method TakeNode(v: nat) returns (value: N, ghost em: map<EdgeIx, EdgeIx>)
      requires Valid() && v < |nodes|
      modifies this
      ensures Valid() && value == old(nodes)[v].value
      ensures Moved(old(nodes), nodes, SwapMap(|old(nodes)|, v), em)
      ensures forall e: EdgeIx :: e in em <==> Away(old(nodes), v, e)
    {
      ghost var n0 := nodes;
      var snapshot := CollectIncoming(v);
      SnapshotFacts(nodes, v, snapshot);
      var sorted := NotFrom(SortDown(snapshot), v);
      NotFromDown(SortDown(snapshot), v);
      var values;
      ghost var em1, em2;
      values, em1 := TakeDescending(sorted);
      ghost var n1 := nodes;
      var outgoing := SortDown(Positions(v, |nodes[v].outgoing|));
      SortIsDown(Positions(v, |nodes[v].outgoing|));
      values, em2 := TakeDescending(outgoing);
      ghost var n2 := nodes;
      TakenAway(n0, n1, n2, v, sorted, outgoing, em1, em2);
      value := Drop(v);
      NodeDroppedIndex(n2, v, nodes);
      NodeDroppedMoved(n2, v, nodes);
      em := Then(Then(em1, em2), NodeShiftEdges(n2, v));
      AwayMoved(n0, n2, nodes, v, Then(em1, em2));
    }

    /** Swap-remove the entry of `v` and rewrite every mention of the node that moved. */
    method Drop(v: nat) returns (value: N)
      requires v < |nodes|
      modifies this
      ensures NodeDropped(old(nodes), v, nodes) && value == old(nodes)[v].value
    {
      value := nodes[v].value;
      var swapped := Relocated(|nodes|, v);
      nodes := SwapRemove(nodes, v);
      if swapped.Some? {
        ghost var n1 := nodes;
        var h := 0;
        while h < |nodes|
          invariant 0 <= h <= |nodes| == |n1|
          invariant forall x: nat {:trigger nodes[x]} :: x < h ==> Rewritten(n1[x], swapped.value, v, nodes[x])
          invariant forall x: nat {:trigger nodes[x]} :: h <= x < |n1| ==> nodes[x] == n1[x]
        {
          var outgoing := RetargetAll(nodes[h].outgoing, swapped.value, v);
          var entries := CollectIncoming(h);
          var incoming := RenameEntries(nodes[h].incoming, entries, swapped.value, v);
          nodes := nodes[h := nodes[h].(outgoing := outgoing, incoming := incoming)];
          h := h + 1;
        }
      }
    }

    /** Edges in descending order without repeats, then nodes in descending order. */
    method TakeNodesEdges(nodeIndices: seq<nat>, edgeIndices: seq<EdgeIx>)
      returns (nodeValues: seq<N>, edgeValues: seq<E>, ghost nm: map<nat, nat>, ghost em: map<EdgeIx, EdgeIx>)
      requires Valid() && NoDup(nodeIndices) && (forall v :: v in nodeIndices ==> v < |nodes|)
      requires AllEdges(nodes, edgeIndices)
      modifies this
      ensures Valid() && Moved(old(nodes), nodes, nm, em)
      ensures nm.Keys == Below(|old(nodes)|) - Elems(nodeIndices)
      ensures forall e: EdgeIx :: e in em <==> Spared(old(nodes), nodeIndices, edgeIndices, e)
      ensures EdgePayloads(old(nodes), Dedup(SortDown(edgeIndices)), edgeValues)
      ensures NodePayloads(old(nodes), SortDescending(nodeIndices, Itself), nodeValues)
    {
      SortIsDown(edgeIndices);
      DedupIsStrict(SortDown(edgeIndices));
      var edges := Dedup(SortDown(edgeIndices));
      var sorted := SortDescending(nodeIndices, Itself);
      ghost var em1;
      edgeValues, em1 := TakeDescending(edges);
      StrictIndices(nodeIndices, sorted);
      BatchStart(old(nodes), nodes, edges, sorted, em1);
      nodeValues, nm, em := TakeNodesDown(sorted, old(nodes), edges, em1);
      assert sorted[..|sorted|] == sorted;
      BatchDone(old(nodes), nodes, nodeIndices, edgeIndices, edges, sorted, nm, em);
    }

    /** The nodes of a descending list, after the edges of `edges` have gone from `n0`. */
    method TakeNodesDown(sorted: seq<nat>, ghost n0: Nodes<N, E>, ghost edges: seq<EdgeIx>,
                         ghost em0: map<EdgeIx, EdgeIx>)
      returns (values: seq<N>, ghost nm: map<nat, nat>, ghost em: map<EdgeIx, EdgeIx>)
      requires (forall j, k :: 0 <= j < k < |sorted| ==> sorted[j] > sorted[k]) && forall v :: v in sorted ==> v < |n0|
      requires BatchAt(n0, nodes, edges, sorted, 0, Same(|n0|), em0, [])
      modifies this
      ensures BatchAt(n0, nodes, edges, sorted, |sorted|, nm, em, values)
    {
      values, nm, em := [], Same(|n0|), em0;
      var i := 0;
      ghost var now := nodes;
      while i < |sorted|
        invariant 0 <= i <= |sorted| && now == nodes
        invariant BatchAt(n0, now, edges, sorted, i, nm, em, values)
      {
        values, nm, em := TakeNext(sorted, i, n0, edges, nm, em, values);
        i := i + 1;
        now := nodes;
      }
    }

    method TakeNext(sorted: seq<nat>, i: nat, ghost n0: Nodes<N, E>, ghost edges: seq<EdgeIx>, ghost nm0: map<nat, nat>,
                    ghost em0: map<EdgeIx, EdgeIx>, values0: seq<N>)
      returns (values: seq<N>, ghost nm: map<nat, nat>, ghost em: map<EdgeIx, EdgeIx>)
      requires i < |sorted| && BatchAt(n0, nodes, edges, sorted, i, nm0, em0, values0)
      requires (forall j, k :: 0 <= j < k < |sorted| ==> sorted[j] > sorted[k]) && forall v :: v in sorted ==> v < |n0|
      modifies this
      ensures BatchAt(n0, nodes, edges, sorted, i + 1, nm, em, values)
    {
      ghost var n1 := nodes;
      BatchNext(n0, n1, edges, sorted, i, nm0, em0);
      ghost var away;
      var value;
      value, away := TakeNode(sorted[i]);
      BatchStep(n0, n1, nodes, edges, sorted, i, nm0, em0, away);
      PayloadNext(n0, sorted, i, values0, value);
      values, nm, em := values0 + [value], Then(nm0, SwapMap(|n1|, sorted[i])), Then(em0, away);
    }
  }

  ghost predicate BatchAt<N, E>(n0: Nodes<N, E>, nodes: Nodes<N, E>, edges: seq<EdgeIx>, sorted: seq<nat>, i: nat,
                                nm: map<nat, nat>, em: map<EdgeIx, EdgeIx>, values: seq<N>)
    requires i <= |sorted|
  {
    InBatch(n0, nodes, edges, sorted, i, nm, em) && NodePayloads(n0, sorted[..i], values)
  }

  lemma PayloadNext<N, E>(n0: Nodes<N, E>, sorted: seq<nat>, i: nat, values: seq<N>, value: N)
    requires i < |sorted| && NodePayloads(n0, sorted[..i], values) && sorted[i] < |n0| && value == n0[sorted[i]].value
    ensures NodePayloads(n0, sorted[..i + 1], values + [value])
  {
    forall k | 0 <= k < i + 1
      ensures sorted[..i + 1][k] < |n0| && (values + [value])[k] == n0[sorted[..i + 1][k]].value
    {
      if k < i {
        assert sorted[..i][k] == sorted[..i + 1][k];
      }
    }
  }

  lemma BatchDone<N, E>(n0: Nodes<N, E>, nodes: Nodes<N, E>, nodeIndices: seq<nat>, edgeIndices: seq<EdgeIx>,
                        edges: seq<EdgeIx>, sorted: seq<nat>, nm: map<nat, nat>, em: map<EdgeIx, EdgeIx>)
    requires InBatch(n0, nodes, edges, sorted, |sorted|, nm, em)
    requires (forall v :: v in sorted <==> v in nodeIndices) && forall e :: e in edges <==> e in edgeIndices
    ensures nm.Keys == Below(|n0|) - Elems(nodeIndices)
    ensures forall e: EdgeIx :: e in em <==> Spared(n0, nodeIndices, edgeIndices, e)
  {
    assert sorted[..|sorted|] == sorted;
    assert Elems(sorted) == Elems(nodeIndices);
    forall e: EdgeIx ensures e in em <==> Spared(n0, nodeIndices, edgeIndices, e) {
      assert e in em <==> Spared(n0, sorted, edges, e);
    }
  }

  lemma {:induction false} CountOnce<T>(s: seq<T>, x: T)
    requires NoDup(s)
    ensures multiset(s)[x] == if x in s then 1 else 0
  {
    if s != [] {
      var t := s[..|s| - 1];
      CountOnce(t, x);
      assert s == t + [s[|s| - 1]];
      assert s[|s| - 1] !in t;
    }
  }

  lemma NodeAdded<N, E>(nodes: Nodes<N, E>, value: N)
    requires IndexOk(nodes)
    ensures IndexOk(nodes + [Node(value, [], multiset{})])
  {
    var nodes' := nodes + [Node(value, [], multiset{})];
    forall e: EdgeIx ensures IsEdge(nodes', e) <==> IsEdge(nodes, e) {
    }
    forall v: nat, e: EdgeIx | v < |nodes'| ensures nodes'[v].incoming[e] == Scanned(nodes', v, e) {
      if v < |nodes| {
        assert nodes[v].incoming[e] == Scanned(nodes, v, e);
      } else if IsEdge(nodes', e) {
        assert IsEdge(nodes, e);
      }
    }
  }

  lemma EdgeAdded<N, E>(nodes: Nodes<N, E>, e: EdgeIx, value: E, head: nat, nodes': Nodes<N, E>)
    requires IndexOk(nodes) && e.0 < |nodes| && head < |nodes| && e.1 == |nodes[e.0].outgoing| && |nodes'| == |nodes|
    requires forall h: nat {:trigger nodes'[h]} :: h < |nodes| ==>
               nodes'[h].outgoing == (if h == e.0 then nodes[h].outgoing + [Out(value, head)] else nodes[h].outgoing)
               && nodes'[h].incoming == if h == head then nodes[h].incoming + multiset{e} else nodes[h].incoming
    ensures IndexOk(nodes')
  {
    forall d: EdgeIx | IsEdge(nodes', d) ensures Target(nodes', d) < |nodes'| {
      EdgeAddedTarget(nodes, e, value, head, nodes', d);
    }
    forall v: nat, d: EdgeIx | v < |nodes'| ensures nodes'[v].incoming[d] == Scanned(nodes', v, d) {
      EdgeAddedTarget(nodes, e, value, head, nodes', d);
      assert nodes[v].incoming[d] == Scanned(nodes, v, d);
      assert nodes'[v].incoming == if v == head then nodes[v].incoming + multiset{e} else nodes[v].incoming;
    }
  }

  lemma EdgeAddedTarget<N, E>(nodes: Nodes<N, E>, e: EdgeIx, value: E, head: nat, nodes': Nodes<N, E>, d: EdgeIx)
    requires e.0 < |nodes| && e.1 == |nodes[e.0].outgoing| && |nodes'| == |nodes|
    requires forall h: nat {:trigger nodes'[h]} :: h < |nodes| ==>
               nodes'[h].outgoing == if h == e.0 then nodes[h].outgoing + [Out(value, head)] else nodes[h].outgoing
    ensures IsEdge(nodes', d) <==> IsEdge(nodes, d) || d == e
    ensures IsEdge(nodes', d) ==> Target(nodes', d) == if d == e then head else Target(nodes, d)
  {
  }

  // ----- parts of node removal -----

  function Positions(v: nat, n: nat): (r: seq<EdgeIx>)
    ensures NoDup(r) && forall e: EdgeIx :: e in r <==> e.0 == v && e.1 < n
  {
    var r: seq<EdgeIx> := seq(n, k requires 0 <= k < n => (v, k));
    assert forall k: nat :: k < n ==> r[k] == (v, k);
    r
  }

  function NotFrom(s: seq<EdgeIx>, v: nat): (r: seq<EdgeIx>)
    ensures forall e :: e in r <==> e in s && e.0 != v
  {
    if s == [] then [] else (if s[0].0 != v then [s[0]] else []) + NotFrom(s[1..], v)
  }

  lemma {:induction false} NotFromDown(s: seq<EdgeIx>, v: nat)
    requires StrictlyDown(s)
    ensures StrictlyDown(NotFrom(s, v))
  {
    if s != [] {
      NotFromDown(s[1..], v);
      var t := NotFrom(s[1..], v);
      forall j | 0 <= j < |t| ensures Less(t[j], s[0]) {
        assert t[j] in s[1..];
      }
    }
  }

  lemma TakeOne<T>(s: seq<T>, i: nat)
    requires i < |s|
    ensures multiset(s[..i + 1]) == multiset(s[..i]) + multiset{s[i]}
    ensures forall x :: multiset(s[..i + 1])[x] <= multiset(s)[x]
  {
    assert s[..i + 1] == s[..i] + [s[i]];
    assert s == s[..i + 1] + s[i + 1..];
  }

  lemma {:induction false} CountsNoDup<T(!new)>(s: seq<T>)
    requires forall x :: multiset(s)[x] <= 1
    ensures NoDup(s)
  {
    if s != [] {
      var t := s[1..];
      assert s == [s[0]] + t;
      assert forall x :: multiset(t)[x] <= multiset(s)[x];
      CountsNoDup(t);
      assert multiset(s)[s[0]] == 1 + multiset(t)[s[0]];
      assert s[0] !in t;
      forall i, j | 0 <= i < j < |s| ensures s[i] != s[j] {
        assert s[j] == t[j - 1];
        if i > 0 {
          assert s[i] == t[i - 1];
        }
      }
    }
  }

  lemma SnapshotFacts<N, E>(nodes: Nodes<N, E>, v: nat, s: seq<EdgeIx>)
    requires IndexOk(nodes) && v < |nodes| && multiset(s) == nodes[v].incoming
    ensures StrictlyDown(SortDown(s)) && forall e: EdgeIx :: e in s <==> IsEdge(nodes, e) && Target(nodes, e) == v
  {
    forall e: EdgeIx ensures multiset(s)[e] == Scanned(nodes, v, e) {
      assert nodes[v].incoming[e] == Scanned(nodes, v, e);
    }
    CountsNoDup(s);
    SortIsDown(s);
    forall e: EdgeIx ensures e in s <==> IsEdge(nodes, e) && Target(nodes, e) == v {
      assert e in s <==> e in multiset(s);
    }
  }

  method RetargetAll<E>(outgoing: seq<Out<E>>, from: nat, to: nat) returns (r: seq<Out<E>>)
    ensures |r| == |outgoing|
    ensures forall k :: 0 <= k < |r| ==> r[k] == Out(outgoing[k].value, Retarget(outgoing[k].target, from, to))
  {
    r := outgoing;
    for k := 0 to |outgoing|
      invariant |r| == |outgoing|
      invariant forall j :: 0 <= j < k ==> r[j] == Out(outgoing[j].value, Retarget(outgoing[j].target, from, to))
      invariant forall j :: k <= j < |r| ==> r[j] == outgoing[j]
    {
      if r[k].target == from {
        r := r[k := Out(r[k].value, to)];
      }
    }
  }

  /** After both sweeps nothing touches `v`, and what is left is exactly the edges away from it. */
  lemma TakenAway<N, E>(n0: Nodes<N, E>, n1: Nodes<N, E>, n2: Nodes<N, E>, v: nat, sorted: seq<EdgeIx>,
                        outgoing: seq<EdgeIx>, em1: map<EdgeIx, EdgeIx>, em2: map<EdgeIx, EdgeIx>)
    requires v < |n0| && forall e: EdgeIx :: e in sorted <==> IsEdge(n0, e) && Target(n0, e) == v && e.0 != v
    requires TakenDownTo(n0, n1, sorted, |sorted|, em1)
    requires forall e: EdgeIx :: e in outgoing <==> e.0 == v && e.1 < |n1[v].outgoing|
    requires TakenDownTo(n1, n2, outgoing, |outgoing|, em2)
    ensures Untouched(n2, v) && n2[v].value == n0[v].value && |n2| == |n0|
    ensures Moved(n0, n2, Same(|n0|), Then(em1, em2))
    ensures forall e: EdgeIx :: e in Then(em1, em2) <==> Away(n0, v, e)
  {
    assert sorted[..|sorted|] == sorted && outgoing[..|outgoing|] == outgoing;
    MovedThen(n0, n1, n2, Same(|n0|), em1, Same(|n1|), em2);
    assert Then(Same(|n0|), Same(|n1|)) == Same(|n0|);
    var em := Then(em1, em2);
    assert NodeMoved(n0, n2, Same(|n0|), v);
    forall e: EdgeIx ensures e in em <==> Away(n0, v, e) {
      EdgeSetIff(n0, e);
      if e in em1 {
        assert EdgeMoved(n0, n1, Same(|n0|), em1, e);
        EdgeSetIff(n1, em1[e]);
      }
    }
    forall d: EdgeIx | IsEdge(n2, d) ensures Target(n2, d) != v && d.0 != v {
      assert HasEdge(em, d);
      var e :| e in em && em[e] == d;
      assert EdgeMoved(n0, n2, Same(|n0|), em, e);
    }
    var first: EdgeIx := (v, 0);
    assert n2[v].outgoing != [] ==> IsEdge(n2, first);
  }

  lemma AwayMoved<N, E>(n0: Nodes<N, E>, n2: Nodes<N, E>, n3: Nodes<N, E>, v: nat, em: map<EdgeIx, EdgeIx>)
    requires v < |n0| == |n2| && Moved(n0, n2, Same(|n0|), em)
    requires Moved(n2, n3, SwapMap(|n2|, v), NodeShiftEdges(n2, v))
    ensures Moved(n0, n3, SwapMap(|n0|, v), Then(em, NodeShiftEdges(n2, v)))
    ensures Then(em, NodeShiftEdges(n2, v)).Keys == em.Keys
  {
    MovedThen(n0, n2, n3, Same(|n0|), em, SwapMap(|n2|, v), NodeShiftEdges(n2, v));
    SameThenSwap(|n0|, v);
    forall e | e in em ensures em[e] in NodeShiftEdges(n2, v) {
      assert EdgeMoved(n0, n2, Same(|n0|), em, e);
      EdgeSetIff(n2, em[e]);
    }
  }

  lemma SameThenSwap(n: nat, v: nat)
    requires v < n
    ensures Then(Same(n), SwapMap(n, v)) == SwapMap(n, v)
  {
    assert Then(Same(n), SwapMap(n, v)).Keys == SwapMap(n, v).Keys;
  }

  /** Entries for edges of `from` become entries for the same edges of `to`: the old ones are taken
      out, then the new ones put in. */
  method RenameEntries(incoming: multiset<EdgeIx>, entries: seq<EdgeIx>, from: nat, to: nat)
    returns (r: multiset<EdgeIx>)
    requires multiset(entries) == incoming && from != to
    ensures forall d: EdgeIx {:trigger r[d]} :: r[d] == Renamed(incoming, from, to, d)
  {
    r := incoming;
    var i := 0;
    while i < |entries|
      invariant 0 <= i <= |entries|
      invariant forall d: EdgeIx {:trigger r[d]} ::
                  r[d] + (if d.0 == from then multiset(entries[..i])[d] else 0) == incoming[d]
    {
      TakeOne(entries, i);
      if entries[i].0 == from {
        r := r - multiset{entries[i]};
      }
      i := i + 1;
    }
    assert entries[..i] == entries;
    i := 0;
    while i < |entries|
      invariant 0 <= i <= |entries|
      invariant forall d: EdgeIx {:trigger r[d]} ::
                  r[d] == if d.0 == from then 0
                          else if d.0 == to then incoming[d] + multiset(entries[..i])[(from, d.1)] else incoming[d]
    {
      TakeOne(entries, i);
      if entries[i].0 == from {
        r := r + multiset{(to, entries[i].1)};
      }
      i := i + 1;
    }
    assert entries[..i] == entries;
  }

  // ----- parts of batch removal -----

  /** Neither the edge nor an end of it is to go. */
  ghost predicate Spared<N, E>(nodes: Nodes<N, E>, victims: seq<nat>, edges: seq<EdgeIx>, e: EdgeIx) {
    IsEdge(nodes, e) && e !in edges && e.0 !in victims && Target(nodes, e) !in victims
  }

  ghost predicate EdgePayloads<N, E>(nodes: Nodes<N, E>, edges: seq<EdgeIx>, values: seq<E>) {
    && |values| == |edges|
    && forall i {:trigger edges[i]} :: 0 <= i < |edges| ==>
         IsEdge(nodes, edges[i]) && values[i] == nodes[edges[i].0].outgoing[edges[i].1].value
  }

  ghost predicate NodePayloads<N, E>(nodes: Nodes<N, E>, victims: seq<nat>, values: seq<N>) {
    && |values| == |victims|
    && forall i {:trigger victims[i]} :: 0 <= i < |victims| ==>
         victims[i] < |nodes| && values[i] == nodes[victims[i]].value
  }

  /** The first `i` nodes of the descending list are gone; nodes below them have not moved. */
  ghost predicate InBatch<N, E>(n0: Nodes<N, E>, nodes: Nodes<N, E>, edges: seq<EdgeIx>, sorted: seq<nat>, i: nat,
                                nm: map<nat, nat>, em: map<EdgeIx, EdgeIx>)
    requires i <= |sorted|
  {
    && IndexOk(nodes) && Moved(n0, nodes, nm, em)
    && nm.Keys == Below(|n0|) - Elems(sorted[..i])
    && (forall x {:trigger nm[x]} :: x in nm && (i == 0 || x < sorted[i - 1]) ==> nm[x] == x)
    && forall e: EdgeIx {:trigger e in em} :: e in em <==> Spared(n0, sorted[..i], edges, e)
  }

  lemma BatchStart<N, E>(n0: Nodes<N, E>, nodes: Nodes<N, E>, edges: seq<EdgeIx>, sorted: seq<nat>,
                         em: map<EdgeIx, EdgeIx>)
    requires TakenDownTo(n0, nodes, edges, |edges|, em)
    ensures InBatch(n0, nodes, edges, sorted, 0, Same(|n0|), em)
  {
    assert edges[..|edges|] == edges;
    forall e: EdgeIx ensures e in em <==> Spared(n0, [], edges, e) {
      EdgeSetIff(n0, e);
    }
    assert sorted[..0] == [];
  }

  lemma BatchNext<N, E>(n0: Nodes<N, E>, nodes: Nodes<N, E>, edges: seq<EdgeIx>, sorted: seq<nat>, i: nat,
                        nm: map<nat, nat>, em: map<EdgeIx, EdgeIx>)
    requires i < |sorted| && InBatch(n0, nodes, edges, sorted, i, nm, em)
    requires (forall j, k :: 0 <= j < k < |sorted| ==> sorted[j] > sorted[k]) && forall v :: v in sorted ==> v < |n0|
    ensures sorted[i] in nm && nm[sorted[i]] == sorted[i] && sorted[i] < |nodes| && sorted[i] < |n0|
    ensures nodes[sorted[i]].value == n0[sorted[i]].value
  {
    var v := sorted[i];
    assert v in sorted && v !in sorted[..i];
    assert NodeMoved(n0, nodes, nm, v);
  }

  lemma BatchStep<N, E>(n0: Nodes<N, E>, n1: Nodes<N, E>, n2: Nodes<N, E>, edges: seq<EdgeIx>, sorted: seq<nat>, i: nat,
                        nm: map<nat, nat>, em: map<EdgeIx, EdgeIx>, away: map<EdgeIx, EdgeIx>)
    requires i < |sorted| && InBatch(n0, n1, edges, sorted, i, nm, em)
    requires forall j, k :: 0 <= j < k < |sorted| ==> sorted[j] > sorted[k]
    requires sorted[i] in nm && nm[sorted[i]] == sorted[i] && sorted[i] < |n1|
    requires IndexOk(n2) && Moved(n1, n2, SwapMap(|n1|, sorted[i]), away)
    requires forall e: EdgeIx :: e in away <==> Away(n1, sorted[i], e)
    ensures InBatch(n0, n2, edges, sorted, i + 1, Then(nm, SwapMap(|n1|, sorted[i])), Then(em, away))
  {
    MovedThen(n0, n1, n2, nm, em, SwapMap(|n1|, sorted[i]), away);
    BatchKeys(n0, n1, nm, em, sorted[i]);
    BatchNodes(|n0|, |n1|, sorted, i, nm);
    BatchEdges(n0, n1, edges, sorted, i, nm, em, away);
  }

  lemma BatchNodes(n0: nat, n1: nat, sorted: seq<nat>, i: nat, nm: map<nat, nat>)
    requires i < |sorted| && sorted[i] < n1 && forall j, k :: 0 <= j < k < |sorted| ==> sorted[j] > sorted[k]
    requires nm.Keys == Below(n0) - Elems(sorted[..i])
    requires forall x {:trigger nm[x]} :: x in nm && (i == 0 || x < sorted[i - 1]) ==> nm[x] == x
    requires Then(nm, SwapMap(n1, sorted[i])).Keys == nm.Keys - {sorted[i]}
    ensures var nm' := Then(nm, SwapMap(n1, sorted[i]));
            && nm'.Keys == Below(n0) - Elems(sorted[..i + 1])
            && forall x {:trigger nm'[x]} :: x in nm' && x < sorted[i] ==> nm'[x] == x
  {
    var v := sorted[i];
    var nm' := Then(nm, SwapMap(n1, v));
    PrefixElems(sorted, i);
    assert i > 0 ==> sorted[i - 1] > v;
    forall x | x in nm' && x < v ensures nm'[x] == x {
      assert x in nm && nm[x] == x;
    }
  }

  lemma BatchEdges<N, E>(n0: Nodes<N, E>, n1: Nodes<N, E>, edges: seq<EdgeIx>, sorted: seq<nat>, i: nat,
                         nm: map<nat, nat>, em: map<EdgeIx, EdgeIx>, away: map<EdgeIx, EdgeIx>)
    requires i < |sorted| && InBatch(n0, n1, edges, sorted, i, nm, em)
    requires sorted[i] in nm && nm[sorted[i]] == sorted[i]
    requires forall d: EdgeIx :: d in away <==> Away(n1, sorted[i], d)
    ensures forall e: EdgeIx {:trigger e in Then(em, away)} :: e in Then(em, away) <==>
              Spared(n0, sorted[..i + 1], edges, e)
  {
    assert sorted[..i + 1] == sorted[..i] + [sorted[i]];
    forall e: EdgeIx ensures e in Then(em, away) <==> Spared(n0, sorted[..i + 1], edges, e) {
      BatchEdge(n0, n1, nm, em, sorted[i], away, e);
      assert e in em <==> Spared(n0, sorted[..i], edges, e);
    }
  }

  lemma BatchKeys<N, E>(n0: Nodes<N, E>, n1: Nodes<N, E>, nm: map<nat, nat>, em: map<EdgeIx, EdgeIx>, v: nat)
    requires Moved(n0, n1, nm, em) && v in nm && nm[v] == v && v < |n1|
    ensures Then(nm, SwapMap(|n1|, v)).Keys == nm.Keys - {v}
  {
    forall x | x in nm ensures nm[x] in SwapMap(|n1|, v) <==> x != v {
      assert NodeMoved(n0, n1, nm, x);
      assert nm[x] == nm[v] ==> x == v;
    }
  }

  lemma BatchEdge<N, E>(n0: Nodes<N, E>, n1: Nodes<N, E>, nm: map<nat, nat>, em: map<EdgeIx, EdgeIx>, v: nat,
                        away: map<EdgeIx, EdgeIx>, e: EdgeIx)
    requires Moved(n0, n1, nm, em) && v in nm && nm[v] == v
    requires forall d: EdgeIx :: d in away <==> Away(n1, v, d)
    ensures e in Then(em, away) <==> e in em && IsEdge(n0, e) && e.0 != v && Target(n0, e) != v
  {
    if e in em {
      assert EdgeMoved(n0, n1, nm, em, e);
      assert nm[e.0] == nm[v] ==> e.0 == v;
      assert nm[Target(n0, e)] == nm[v] ==> Target(n0, e) == v;
      assert e in Then(em, away) <==> em[e] in away;
    }
  }
}
