/** The undirected depth-first search with low points behind `src/algo/bridges.rs`: what its
    numbers, low points and tree edges say at every step. */
module LowPoint {
  import opened Seqs
  import opened Vec
  import opened Graphs
  import opened Undirected
  import opened DepthFirst

  // ----- incidence lists -----

  ghost function NoLoops(g: Digraph): set<nat> {
    set e: nat | e < |g.ends| && g.ends[e].0 != g.ends[e].1
  }

  /** `edge_indices_of` without loops. */
  ghost function EdgesAt(g: Digraph, v: nat): seq<nat>
    requires g.Valid() && v < g.n
  {
    Filter(g.outs[v] + Filter(g.ins[v], NotFrom(g, v)), NoLoops(g))
  }

  /** `l` has the listed edges in their order, each with its end other than `v`. */
  ghost predicate FarEnds(g: Digraph, v: nat, edges: seq<nat>, l: seq<(nat, nat)>) {
    && |l| == |edges|
    && forall k {:trigger l[k]} :: 0 <= k < |l| ==> l[k].0 == edges[k] && Joins(g, l[k].0, v, l[k].1)
  }

  lemma FarEndsNext(g: Digraph, v: nat, edges: seq<nat>, e: nat, w: nat, l: seq<(nat, nat)>)
    requires FarEnds(g, v, edges, l) && Joins(g, e, v, w)
    ensures FarEnds(g, v, edges + [e], l + [(e, w)])
  {
  }

  lemma FarEndsAll(g: Digraph, v: nat, edges: seq<nat>, l: seq<(nat, nat)>)
    requires NoDup(edges) && FarEnds(g, v, Filter(edges, NoLoops(g)), l)
    requires forall e: nat :: e < |g.ends| && (g.ends[e].0 == v || g.ends[e].1 == v) ==> e in edges
    ensures IsIncidence(g, v, l)
  {
    var kept := Filter(edges, NoLoops(g));
    FilterNoDup(edges, NoLoops(g));
    FilterMember(edges, NoLoops(g));
    forall f: nat, y: nat | Joins(g, f, v, y) ensures (f, y) in l {
      assert f in kept;
      var k :| 0 <= k < |kept| && kept[k] == f;
      assert l[k].0 == f && Joins(g, f, v, l[k].1);
    }
    forall a, b | 0 <= a < b < |l| ensures l[a] != l[b] {
      assert l[a].0 == kept[a] && l[b].0 == kept[b];
    }
  }

  /** `collect_undirected_neighbors`. */
  method CollectUndirectedNeighbors(g: Digraph, node: nat) returns (neighbors: seq<(nat, nat)>)
    requires g.Valid() && node < g.n
    ensures IsIncidence(g, node, neighbors)
    ensures FarEnds(g, node, EdgesAt(g, node), neighbors)
  {
    neighbors := [];
    var edges := EdgesOf(g, node);
    assert forall k :: 0 <= k < |edges| ==> edges[k] in edges;
    var i := 0;
    while i < |edges|
      invariant 0 <= i <= |edges| && FarEnds(g, node, Filter(edges[..i], NoLoops(g)), neighbors)
    {
      var e := edges[i];
      var (tail, head) := g.ends[e];
      FilterSnoc(edges[..i], e, NoLoops(g));
      assert edges[..i + 1] == edges[..i] + [e];
      if tail != head {
        FarEndsNext(g, node, Filter(edges[..i], NoLoops(g)), e, if tail != node then tail else head, neighbors);
      }
      if tail != node {
        neighbors := neighbors + [(e, tail)];
      }
      if head != node {
        neighbors := neighbors + [(e, head)];
      }
      i := i + 1;
    }
    assert edges[..i] == edges;
    FarEndsAll(g, node, edges, neighbors);
  }

  // ----- the search state -----

  datatype Frame = Frame(node: nat, parentEdge: Option<nat>, neighbors: seq<(nat, nat)>, idx: nat)

  datatype Search = Search(disc: map<nat, nat>, low: map<nat, nat>, timer: nat, stack: seq<Frame>) {
    ghost function Num(v: nat): nat { if v in disc then disc[v] else 0 }
    ghost function Low(v: nat): nat { if v in low then low[v] else 0 }
    ghost function At(i: nat): nat
      requires i < |stack|
    {
      stack[i].node
    }
  }

  /** What the search refuses to look back along: the edge it came by, or any edge to the node it
      came from. */
  datatype Mode = ByEdge | ByNode

  ghost predicate Skipped(st: Search, mode: Mode, i: nat, f: nat, x: nat, y: nat)
    requires i < |st.stack|
  {
    match mode
    case ByEdge => st.stack[i].parentEdge == Some(f)
    case ByNode => i > 0 && x == st.At(i) && y == st.At(i - 1)
  }

  ghost predicate OnStack(st: Search, x: nat) {
    exists i: nat :: i < |st.stack| && st.At(i) == x
  }

  ghost predicate Finished(st: Search, x: nat) {
    x in st.disc && !OnStack(st, x)
  }

  ghost predicate FrameOk(g: Digraph, st: Search, i: nat)
    requires i < |st.stack|
  {
    && st.At(i) in st.disc && IsIncidence(g, st.At(i), st.stack[i].neighbors)
    && st.stack[i].idx <= |st.stack[i].neighbors|
  }

  /** Frame `i` was entered from the one below by a tree edge. */
  ghost predicate Entered(g: Digraph, st: Search, tr: set<nat>, i: nat)
    requires i < |st.stack|
  {
    if i == 0 then st.stack[i].parentEdge == None
    else st.stack[i].parentEdge.Some? && st.stack[i].parentEdge.value in tr
         && Joins(g, st.stack[i].parentEdge.value, st.At(i - 1), st.At(i))
  }

  ghost predicate Shape(g: Digraph, st: Search, tr: set<nat>) {
    && g.Valid() && st.disc.Keys == st.low.Keys
    && (forall v :: v in st.disc ==> v < g.n && st.disc[v] < st.timer)
    && (forall f, x: nat, y: nat {:trigger Joins(g, f, x, y)} :: f in tr && Joins(g, f, x, y) ==> x in st.disc)
    && (forall f :: f in tr ==> f < |g.ends|)
    && (forall i: nat {:trigger FrameOk(g, st, i)} :: i < |st.stack| ==> FrameOk(g, st, i))
    && (forall i: nat {:trigger Entered(g, st, tr, i)} :: i < |st.stack| ==> Entered(g, st, tr, i))
    && (forall i: nat, j: nat {:trigger st.At(i), st.At(j)} :: i < j < |st.stack| ==>
          st.Num(st.At(i)) < st.Num(st.At(j)))
  }

  ghost predicate Taken(st: Search, i: nat, f: nat, x: nat, y: nat)
    requires i < |st.stack|
  {
    st.At(i) == x && st.stack[i].idx <= |st.stack[i].neighbors| ==> (f, y) in st.stack[i].neighbors[..st.stack[i].idx]
  }

  /** The edge has been looked at from `x`. */
  ghost predicate Processed(g: Digraph, st: Search, f: nat, x: nat, y: nat) {
    && Joins(g, f, x, y) && x in st.disc
    && forall i: nat {:trigger Taken(st, i, f, x, y)} :: i < |st.stack| ==> Taken(st, i, f, x, y)
  }

  /** `x` is numbered from frame `i` on and before the next frame. */
  ghost predicate InSegment(st: Search, i: nat, x: nat) {
    && i < |st.stack| && x in st.disc && st.Num(st.At(i)) <= st.Num(x)
    && (i + 1 < |st.stack| ==> st.Num(x) < st.Num(st.At(i + 1)))
  }

  /** An edge looked at from segment `i` that goes below the segment bounds its low point. */
  ghost predicate EdgeCovered(st: Search, mode: Mode, i: nat, f: nat, x: nat, y: nat) {
    i < |st.stack| && (st.Num(y) < st.Num(st.At(i)) && !Skipped(st, mode, i, f, x, y) ==> st.Low(st.At(i)) <= st.Num(y))
  }

  ghost predicate BelowFrame(st: Search, k: nat, y: nat) {
    k < |st.stack| && st.Num(y) < st.Num(st.At(k))
  }

  ghost predicate Covered(g: Digraph, st: Search, mode: Mode) {
    && (forall f, x, y {:trigger Processed(g, st, f, x, y)} :: Processed(g, st, f, x, y) ==> y in st.disc)
    && (forall i: nat, f, x, y {:trigger EdgeCovered(st, mode, i, f, x, y)} ::
          InSegment(st, i, x) && Processed(g, st, f, x, y) ==> EdgeCovered(st, mode, i, f, x, y))
    && (forall k: nat, f, x, y {:trigger BelowFrame(st, k, y), Joins(g, f, x, y)} ::
          k < |st.stack| && Finished(st, x) && BelowFrame(st, k, x) && Joins(g, f, x, y) ==> BelowFrame(st, k, y))
  }

  // ----- connection by tree edges -----

  ghost predicate TreeLink(g: Digraph, st: Search, tr: set<nat>, lo: nat, hi: nat, x: nat, y: nat) {
    && x in st.disc && y in st.disc && lo <= st.Num(x) < hi && lo <= st.Num(y) < hi
    && exists f :: f in tr && Joins(g, f, x, y)
  }

  /** Tree edges between nodes numbered from `lo` up to `hi`. */
  ghost function TreeRel(g: Digraph, st: Search, tr: set<nat>, lo: nat, hi: nat): Rel {
    set x, y | x in st.disc && y in st.disc && TreeLink(g, st, tr, lo, hi, x, y) :: (x, y)
  }

  ghost predicate Connects(g: Digraph, st: Search, tr: set<nat>, i: nat, hi: nat, x: nat) {
    i < |st.stack| && Reach(TreeRel(g, st, tr, st.Num(st.At(i)), hi), st.At(i), x)
  }

  /** Tree edges connect frame `i` to every node numbered from it on and below `hi`. */
  ghost predicate Spans(g: Digraph, st: Search, tr: set<nat>, i: nat, hi: nat) {
    && i < |st.stack|
    && forall x {:trigger Connects(g, st, tr, i, hi, x)} ::
         x in st.disc && st.Num(st.At(i)) <= st.Num(x) < hi ==> Connects(g, st, tr, i, hi, x)
  }

  /** Edge `f` takes node `x`, numbered from frame `i` on, below the frame to `y`, whose number is
      the low point. */
  ghost predicate LowAt(g: Digraph, st: Search, mode: Mode, i: nat, f: nat, x: nat, y: nat) {
    && i < |st.stack| && Joins(g, f, x, y) && x in st.disc && y in st.disc
    && st.Num(st.At(i)) <= st.Num(x) && st.Num(y) == st.Low(st.At(i)) && !Skipped(st, mode, i, f, x, y)
  }

  ghost predicate LowReached(g: Digraph, st: Search, mode: Mode, i: nat) {
    && i < |st.stack| && st.Low(st.At(i)) <= st.Num(st.At(i))
    && (st.Low(st.At(i)) < st.Num(st.At(i)) ==> exists f: nat, x: nat, y: nat :: LowAt(g, st, mode, i, f, x, y))
  }

  ghost predicate Linked(g: Digraph, st: Search, tr: set<nat>, mode: Mode) {
    && (forall i: nat {:trigger Spans(g, st, tr, i, st.timer)} :: i < |st.stack| ==> Spans(g, st, tr, i, st.timer))
    && (forall j: nat {:trigger Spans(g, st, tr, 0, st.Num(st.At(j)))} :: 1 <= j < |st.stack| ==>
          Spans(g, st, tr, 0, st.Num(st.At(j))))
    && (forall i: nat {:trigger LowReached(g, st, mode, i)} :: i < |st.stack| ==> LowReached(g, st, mode, i))
  }

  ghost predicate Inv(g: Digraph, st: Search, tr: set<nat>, mode: Mode) {
    Shape(g, st, tr) && Covered(g, st, mode) && Linked(g, st, tr, mode)
  }

  // ----- steps -----

  ghost predicate Next(st: Search, f: nat, y: nat) {
    && |st.stack| > 0
    && var t := st.stack[|st.stack| - 1];
       t.idx < |t.neighbors| && t.neighbors[t.idx] == (f, y)
  }

  ghost predicate Exhausted(st: Search) {
    && |st.stack| > 0
    && var t := st.stack[|st.stack| - 1];
       t.idx >= |t.neighbors|
  }

  function Advance(st: Search): Search
    requires |st.stack| > 0
  {
    var t := |st.stack| - 1;
    st.(stack := st.stack[t := st.stack[t].(idx := st.stack[t].idx + 1)])
  }

  /** Numbered neighbour: the low point falls to its number if that is smaller. */
  function Back(st: Search, y: nat): Search
    requires |st.stack| > 0 && st.stack[|st.stack| - 1].node in st.low && y in st.disc
  {
    var u := st.stack[|st.stack| - 1].node;
    Advance(st).(low := st.low[u := if st.low[u] <= st.disc[y] then st.low[u] else st.disc[y]])
  }

  function Number(st: Search, v: nat, via: Option<nat>, neighbors: seq<(nat, nat)>): Search {
    Search(st.disc[v := st.timer], st.low[v := st.timer], st.timer + 1, st.stack + [Frame(v, via, neighbors, 0)])
  }

  /** Finished node: its frame goes and its parent takes the smaller low point. */
  function Pop(st: Search): Search
    requires |st.stack| > 0 && st.stack[|st.stack| - 1].node in st.low
    requires |st.stack| > 1 ==> st.stack[|st.stack| - 2].node in st.low
  {
    var t := |st.stack| - 1;
    var l := st.low[st.stack[t].node];
    if t == 0 then st.(stack := st.stack[..t])
    else
      var p := st.stack[t - 1].node;
      st.(stack := st.stack[..t], low := st.low[p := if st.low[p] <= l then st.low[p] else l])
  }

  lemma TopJoins(g: Digraph, st: Search, tr: set<nat>, f: nat, y: nat)
    requires Shape(g, st, tr) && Next(st, f, y)
    ensures Joins(g, f, st.At(|st.stack| - 1), y) && y < g.n && st.At(|st.stack| - 1) in st.disc
  {
    assert FrameOk(g, st, |st.stack| - 1);
  }

  lemma AdvanceProcessed(g: Digraph, st: Search, tr: set<nat>, f0: nat, y0: nat, f: nat, x: nat, y: nat)
    requires Shape(g, st, tr) && Next(st, f0, y0) && Processed(g, Advance(st), f, x, y)
    ensures Processed(g, st, f, x, y) || (x == st.At(|st.stack| - 1) && f == f0 && y == y0)
  {
    var t := |st.stack| - 1;
    var fr := st.stack[t];
    assert FrameOk(g, st, t);
    var st' := Advance(st);
    assert fr.neighbors[..fr.idx + 1] == fr.neighbors[..fr.idx] + [(f0, y0)];
    if !(x == fr.node && f == f0 && y == y0) {
      forall i: nat | i < |st.stack| ensures Taken(st, i, f, x, y) {
        assert Taken(st', i, f, x, y);
      }
    }
  }

  /** States that differ only in how far the top frame has got and in its low point. */
  ghost predicate Nudged(st: Search, st': Search) {
    && |st.stack| > 0 && |st'.stack| == |st.stack| && st'.disc == st.disc && st'.timer == st.timer
    && (forall i: nat :: i < |st.stack| ==> st'.stack[i].(idx := 0) == st.stack[i].(idx := 0))
    && (forall x: nat :: x != st.At(|st.stack| - 1) ==> st'.Low(x) == st.Low(x))
  }

  lemma NudgedSpans(g: Digraph, st: Search, st': Search, tr: set<nat>, i: nat, hi: nat)
    requires Nudged(st, st') && Spans(g, st, tr, i, hi)
    ensures Spans(g, st', tr, i, hi)
  {
    SameTree(g, st, st', tr, st.Num(st.At(i)), hi);
    forall x | x in st'.disc && st'.Num(st'.At(i)) <= st'.Num(x) < hi ensures Connects(g, st', tr, i, hi, x) {
      assert Connects(g, st, tr, i, hi, x);
    }
  }

  lemma SameTree(g: Digraph, st: Search, st': Search, tr: set<nat>, lo: nat, hi: nat)
    requires st'.disc == st.disc
    ensures TreeRel(g, st', tr, lo, hi) == TreeRel(g, st, tr, lo, hi)
  {
    forall x, y ensures TreeLink(g, st', tr, lo, hi, x, y) == TreeLink(g, st, tr, lo, hi, x, y) {
    }
  }

  lemma SkipNumbered(g: Digraph, st: Search, tr: set<nat>, mode: Mode, f: nat, y: nat)
    requires Shape(g, st, tr) && Next(st, f, y) && Skipped(st, mode, |st.stack| - 1, f, st.At(|st.stack| - 1), y)
    ensures y in st.disc && |st.stack| > 1 && y == st.At(|st.stack| - 2)
  {
    var t := |st.stack| - 1;
    TopJoins(g, st, tr, f, y);
    assert Entered(g, st, tr, t);
    assert t > 0 ==> FrameOk(g, st, t - 1);
  }

  /** The next neighbour is numbered already: skipped, or counted towards the low point. */
  ghost predicate Looked(g: Digraph, st: Search, mode: Mode, f: nat, y: nat, st': Search) {
    && Next(st, f, y) && y in st.disc && Nudged(st, st') && st'.low.Keys == st.low.Keys
       && st'.stack == Advance(st).stack
    && var u := st.At(|st.stack| - 1);
       if Skipped(st, mode, |st.stack| - 1, f, u, y) then st'.Low(u) == st.Low(u)
       else st'.Low(u) == if st.Low(u) <= st.Num(y) then st.Low(u) else st.Num(y)
  }

  lemma LookStep(g: Digraph, st: Search, tr: set<nat>, mode: Mode, f: nat, y: nat, st': Search)
    requires Inv(g, st, tr, mode) && Looked(g, st, mode, f, y, st')
    ensures Inv(g, st', tr, mode)
  {
    LookShape(g, st, tr, mode, f, y, st');
    LookCovered(g, st, tr, mode, f, y, st');
    LookLinked(g, st, tr, mode, f, y, st');
  }

  lemma NudgedSame(st: Search, st': Search, mode: Mode)
    requires Nudged(st, st')
    ensures forall i: nat :: i < |st.stack| ==> st'.At(i) == st.At(i)
    ensures forall x: nat :: st'.Num(x) == st.Num(x)
    ensures forall x: nat :: OnStack(st', x) == OnStack(st, x)
    ensures forall i: nat, f: nat, x: nat, y: nat :: i < |st.stack| ==>
              Skipped(st', mode, i, f, x, y) == Skipped(st, mode, i, f, x, y)
  {
    assert forall i: nat :: i < |st.stack| ==> st'.stack[i].parentEdge == st.stack[i].(idx := 0).parentEdge;
    assert forall i: nat :: i < |st.stack| ==> st'.At(i) == st.stack[i].(idx := 0).node;
  }

  lemma LookShape(g: Digraph, st: Search, tr: set<nat>, mode: Mode, f: nat, y: nat, st': Search)
    requires Shape(g, st, tr) && Looked(g, st, mode, f, y, st')
    ensures Shape(g, st', tr)
  {
    NudgedSame(st, st', mode);
    forall i: nat | i < |st'.stack| ensures FrameOk(g, st', i) && Entered(g, st', tr, i) {
      assert FrameOk(g, st, i) && Entered(g, st, tr, i);
      assert i > 0 ==> st'.At(i - 1) == st.At(i - 1);
    }
    forall i: nat, j: nat | i < j < |st'.stack| ensures st'.Num(st'.At(i)) < st'.Num(st'.At(j)) {
      assert st.Num(st.At(i)) < st.Num(st.At(j));
    }
  }

  lemma LookProcessed(g: Digraph, st: Search, tr: set<nat>, mode: Mode, f0: nat, y0: nat, st': Search, f: nat, x: nat,
                      y: nat)
    requires Shape(g, st, tr) && Looked(g, st, mode, f0, y0, st') && Processed(g, st', f, x, y)
    ensures Processed(g, st, f, x, y) || (x == st.At(|st.stack| - 1) && f == f0 && y == y0)
  {
    forall i: nat | i < |st.stack| ensures Taken(Advance(st), i, f, x, y) {
      assert Taken(st', i, f, x, y);
    }
    AdvanceProcessed(g, st, tr, f0, y0, f, x, y);
  }

  lemma LookCovered(g: Digraph, st: Search, tr: set<nat>, mode: Mode, f0: nat, y0: nat, st': Search)
    requires Inv(g, st, tr, mode) && Looked(g, st, mode, f0, y0, st')
    ensures Covered(g, st', mode)
  {
    var t := |st.stack| - 1;
    NudgedSame(st, st', mode);
    forall f, x, y | Processed(g, st', f, x, y) ensures y in st'.disc {
      LookProcessed(g, st, tr, mode, f0, y0, st', f, x, y);
    }
    forall i: nat, f, x, y | InSegment(st', i, x) && Processed(g, st', f, x, y)
      ensures EdgeCovered(st', mode, i, f, x, y)
    {
      LookProcessed(g, st, tr, mode, f0, y0, st', f, x, y);
      assert i + 1 < |st.stack| ==> st'.At(i + 1) == st.At(i + 1);
      assert InSegment(st, i, x);
      assert i + 1 < t ==> st.Num(st.At(i + 1)) < st.Num(st.At(t));
      if Processed(g, st, f, x, y) {
        assert EdgeCovered(st, mode, i, f, x, y);
        assert i < t ==> st.Num(st.At(i)) < st.Num(st.At(t));
      }
    }
    forall k: nat, f, x, y | k < |st'.stack| && Finished(st', x) && BelowFrame(st', k, x) && Joins(g, f, x, y)
      ensures BelowFrame(st', k, y)
    {
      assert Finished(st, x) && BelowFrame(st, k, x);
      assert BelowFrame(st, k, y);
    }
  }

  lemma LookLinked(g: Digraph, st: Search, tr: set<nat>, mode: Mode, f0: nat, y0: nat, st': Search)
    requires Shape(g, st, tr) && Linked(g, st, tr, mode) && Looked(g, st, mode, f0, y0, st')
    ensures Linked(g, st', tr, mode)
  {
    var t := |st.stack| - 1;
    NudgedSame(st, st', mode);
    forall i: nat | i < |st'.stack| ensures Spans(g, st', tr, i, st'.timer) {
      NudgedSpans(g, st, st', tr, i, st.timer);
    }
    forall j: nat | 1 <= j < |st'.stack| ensures Spans(g, st', tr, 0, st'.Num(st'.At(j))) {
      NudgedSpans(g, st, st', tr, 0, st.Num(st.At(j)));
    }
    forall i: nat | i < |st'.stack| ensures LowReached(g, st', mode, i) {
      LookLow(g, st, tr, mode, f0, y0, st', i);
    }
  }

  lemma LookLow(g: Digraph, st: Search, tr: set<nat>, mode: Mode, f0: nat, y0: nat, st': Search, i: nat)
    requires Shape(g, st, tr) && Looked(g, st, mode, f0, y0, st') && i < |st.stack| && LowReached(g, st, mode, i)
    ensures LowReached(g, st', mode, i)
  {
    var t := |st.stack| - 1;
    NudgedSame(st, st', mode);
    if i < t {
      assert st.Num(st.At(i)) < st.Num(st.At(t));
    }
    if st'.Low(st.At(i)) < st.Num(st.At(i)) {
      if st'.Low(st.At(i)) == st.Low(st.At(i)) {
        var f: nat, x: nat, y: nat :| LowAt(g, st, mode, i, f, x, y);
        assert LowAt(g, st', mode, i, f, x, y);
      } else {
        TopJoins(g, st, tr, f0, y0);
        assert LowAt(g, st', mode, i, f0, st.At(t), y0);
      }
    }
  }

  // ----- a node is numbered -----

  ghost function Ready(st: Search): Search {
    if st.stack == [] then st else Advance(st)
  }

  /** `v` is about to be numbered: as a fresh root, or over the next edge of the top frame. */
  ghost predicate Fresh(g: Digraph, st: Search, v: nat, via: Option<nat>, neighbors: seq<(nat, nat)>) {
    && v !in st.disc && v < g.n && IsIncidence(g, v, neighbors)
    && (if st.stack == [] then via == None else via.Some? && Next(st, via.value, v))
  }

  ghost function Tree(tr: set<nat>, via: Option<nat>): set<nat> {
    if via.Some? then tr + {via.value} else tr
  }

  ghost predicate Grown(st: Search, v: nat, via: Option<nat>, st': Search) {
    && |st'.stack| == |st.stack| + 1 && (forall i: nat :: i < |st.stack| ==> st'.At(i) == st.At(i))
       && st'.At(|st.stack|) == v
    && (forall i: nat :: i < |st.stack| ==> st'.stack[i].parentEdge == st.stack[i].parentEdge && st.At(i) in st.disc)
    && st'.stack[|st.stack|].parentEdge == via
    && v !in st.disc && st'.disc == st.disc[v := st.timer] && st'.timer == st.timer + 1
    && (forall x: nat :: x in st.disc ==> st'.Num(x) == st.Num(x) < st.timer && st'.Low(x) == st.Low(x))
    && st'.Num(v) == st'.Low(v) == st.timer
  }

  lemma NumberGrown(g: Digraph, st: Search, tr: set<nat>, v: nat, via: Option<nat>, neighbors: seq<(nat, nat)>)
    requires Shape(g, st, tr) && Fresh(g, st, v, via, neighbors)
    ensures Grown(st, v, via, Number(Ready(st), v, via, neighbors))
  {
    forall i: nat | i < |st.stack| ensures st.At(i) in st.disc {
      assert FrameOk(g, st, i);
    }
  }

  lemma NumberStep(g: Digraph, st: Search, tr: set<nat>, mode: Mode, v: nat, via: Option<nat>,
                   neighbors: seq<(nat, nat)>)
    requires Inv(g, st, tr, mode) && Fresh(g, st, v, via, neighbors)
    ensures Inv(g, Number(Ready(st), v, via, neighbors), Tree(tr, via), mode)
  {
    NumberGrown(g, st, tr, v, via, neighbors);
    NumberShape(g, st, tr, v, via, neighbors);
    NumberCovered(g, st, tr, mode, v, via, neighbors);
    NumberLinked(g, st, tr, mode, v, via, neighbors);
  }

  lemma NumberShape(g: Digraph, st: Search, tr: set<nat>, v: nat, via: Option<nat>, neighbors: seq<(nat, nat)>)
    requires Shape(g, st, tr) && Fresh(g, st, v, via, neighbors)
    ensures Shape(g, Number(Ready(st), v, via, neighbors), Tree(tr, via))
  {
    var st' := Number(Ready(st), v, via, neighbors);
    var t := |st.stack|;
    NumberGrown(g, st, tr, v, via, neighbors);
    if via.Some? {
      TopJoins(g, st, tr, via.value, v);
    }
    forall i: nat | i < |st'.stack| ensures FrameOk(g, st', i) && Entered(g, st', Tree(tr, via), i) {
      if i < t {
        assert FrameOk(g, st, i) && Entered(g, st, tr, i);
        assert i > 0 ==> st'.At(i - 1) == st.At(i - 1);
      } else if i > 0 {
        assert st'.At(i - 1) == st.At(i - 1);
      }
    }
    forall i: nat, j: nat | i < j < |st'.stack| ensures st'.Num(st'.At(i)) < st'.Num(st'.At(j)) {
      if j < t {
        assert st.Num(st.At(i)) < st.Num(st.At(j));
      }
    }
  }

  lemma NumberProcessed(g: Digraph, st: Search, tr: set<nat>, v: nat, via: Option<nat>, neighbors: seq<(nat, nat)>,
                        f: nat, x: nat, y: nat)
    requires Shape(g, st, tr) && Fresh(g, st, v, via, neighbors)
    requires Processed(g, Number(Ready(st), v, via, neighbors), f, x, y)
    ensures x != v && (Processed(g, st, f, x, y) || (st.stack != [] && x == st.At(|st.stack| - 1) && y == v))
  {
    var st' := Number(Ready(st), v, via, neighbors);
    assert Taken(st', |st.stack|, f, x, y);
    forall i: nat | i < |st.stack| ensures Taken(Ready(st), i, f, x, y) {
      assert Taken(st', i, f, x, y);
    }
    if st.stack != [] {
      AdvanceProcessed(g, st, tr, via.value, v, f, x, y);
    }
  }

  lemma NumberCovered(g: Digraph, st: Search, tr: set<nat>, mode: Mode, v: nat, via: Option<nat>,
                      neighbors: seq<(nat, nat)>)
    requires Inv(g, st, tr, mode) && Fresh(g, st, v, via, neighbors)
    ensures Covered(g, Number(Ready(st), v, via, neighbors), mode)
  {
    var st' := Number(Ready(st), v, via, neighbors);
    NumberGrown(g, st, tr, v, via, neighbors);
    forall f, x, y | Processed(g, st', f, x, y) ensures y in st'.disc {
      NumberProcessed(g, st, tr, v, via, neighbors, f, x, y);
    }
    forall i: nat, f, x, y | InSegment(st', i, x) && Processed(g, st', f, x, y)
      ensures EdgeCovered(st', mode, i, f, x, y)
    {
      NumberProcessed(g, st, tr, v, via, neighbors, f, x, y);
      assert i < |st.stack|;
      assert i + 1 < |st.stack| ==> st'.At(i + 1) == st.At(i + 1);
      assert InSegment(st, i, x);
      if Processed(g, st, f, x, y) {
        assert EdgeCovered(st, mode, i, f, x, y);
        assert i > 0 ==> st'.At(i - 1) == st.At(i - 1);
      }
    }
    forall k: nat, f, x, y | k < |st'.stack| && Finished(st', x) && BelowFrame(st', k, x) && Joins(g, f, x, y)
      ensures BelowFrame(st', k, y)
    {
      NumberFinished(g, st, tr, mode, v, via, neighbors, k, f, x, y);
    }
  }

  lemma NumberFinished(g: Digraph, st: Search, tr: set<nat>, mode: Mode, v: nat, via: Option<nat>,
                       neighbors: seq<(nat, nat)>, k: nat, f: nat, x: nat, y: nat)
    requires Inv(g, st, tr, mode) && Fresh(g, st, v, via, neighbors)
    requires var st' := Number(Ready(st), v, via, neighbors);
             k < |st'.stack| && Finished(st', x) && BelowFrame(st', k, x) && Joins(g, f, x, y)
    ensures BelowFrame(Number(Ready(st), v, via, neighbors), k, y)
  {
    var st' := Number(Ready(st), v, via, neighbors);
    NumberGrown(g, st, tr, v, via, neighbors);
    assert x != v by {
      assert st'.At(|st.stack|) == v;
    }
    forall i: nat | i < |st.stack| ensures st.At(i) != x {
      assert st'.At(i) == st.At(i);
    }
    FinishedProcessed(g, st, f, x, y);
    if k < |st.stack| {
      assert st'.At(k) == st.At(k);
      assert BelowFrame(st, k, x);
      assert BelowFrame(st, k, y);
    }
  }

  lemma FinishedProcessed(g: Digraph, st: Search, f: nat, x: nat, y: nat)
    requires Finished(st, x) && Joins(g, f, x, y)
    ensures Processed(g, st, f, x, y)
  {
    forall i: nat | i < |st.stack| ensures Taken(st, i, f, x, y) {
      assert st.At(i) != x;
    }
  }

  lemma NumberLinked(g: Digraph, st: Search, tr: set<nat>, mode: Mode, v: nat, via: Option<nat>,
                     neighbors: seq<(nat, nat)>)
    requires Shape(g, st, tr) && Linked(g, st, tr, mode) && Fresh(g, st, v, via, neighbors)
    ensures Linked(g, Number(Ready(st), v, via, neighbors), Tree(tr, via), mode)
  {
    var st' := Number(Ready(st), v, via, neighbors);
    var t := |st.stack|;
    NumberGrown(g, st, tr, v, via, neighbors);
    forall i: nat | i < |st'.stack| ensures Spans(g, st', Tree(tr, via), i, st'.timer) {
      if i < t {
        assert Spans(g, st, tr, i, st.timer);
        GrownSpansNew(g, st, tr, v, via, st', i);
      } else {
        GrownSpansTop(g, st, tr, v, via, st');
      }
    }
    forall j: nat | 1 <= j < |st'.stack| ensures Spans(g, st', Tree(tr, via), 0, st'.Num(st'.At(j))) {
      if j < t {
        assert Spans(g, st, tr, 0, st.Num(st.At(j)));
        GrownSpans(g, st, tr, v, via, st', 0, st.Num(st.At(j)));
      } else {
        assert Spans(g, st, tr, 0, st.timer);
        GrownSpans(g, st, tr, v, via, st', 0, st.timer);
      }
    }
    forall i: nat | i < |st'.stack| ensures LowReached(g, st', mode, i) {
      if i < t {
        assert LowReached(g, st, mode, i);
        if st.Low(st.At(i)) < st.Num(st.At(i)) {
          var f: nat, x: nat, y: nat :| LowAt(g, st, mode, i, f, x, y);
          assert i > 0 ==> st'.At(i - 1) == st.At(i - 1);
          assert LowAt(g, st', mode, i, f, x, y);
        }
      }
    }
  }

  lemma GrownTree(g: Digraph, st: Search, tr: set<nat>, v: nat, via: Option<nat>, st': Search, lo: nat, hi: nat)
    requires Grown(st, v, via, st')
    ensures TreeRel(g, st, tr, lo, hi) <= TreeRel(g, st', Tree(tr, via), lo, hi)
  {
    forall x, y | (x, y) in TreeRel(g, st, tr, lo, hi) ensures (x, y) in TreeRel(g, st', Tree(tr, via), lo, hi) {
      assert TreeLink(g, st, tr, lo, hi, x, y);
      var f :| f in tr && Joins(g, f, x, y);
      assert f in Tree(tr, via);
      assert TreeLink(g, st', Tree(tr, via), lo, hi, x, y);
    }
  }

  lemma GrownSpans(g: Digraph, st: Search, tr: set<nat>, v: nat, via: Option<nat>, st': Search, i: nat, hi: nat)
    requires Grown(st, v, via, st') && Spans(g, st, tr, i, hi) && hi <= st.timer
    ensures Spans(g, st', Tree(tr, via), i, hi)
  {
    GrownTree(g, st, tr, v, via, st', st.Num(st.At(i)), hi);
    forall x | x in st'.disc && st'.Num(st'.At(i)) <= st'.Num(x) < hi
      ensures Connects(g, st', Tree(tr, via), i, hi, x)
    {
      assert Connects(g, st, tr, i, hi, x);
      ReachMono(TreeRel(g, st, tr, st.Num(st.At(i)), hi), TreeRel(g, st', Tree(tr, via), st.Num(st.At(i)), hi),
                st.At(i), x);
    }
  }

  lemma TreeWiden(g: Digraph, st: Search, tr: set<nat>, lo: nat, lo': nat, hi: nat, hi': nat)
    requires lo' <= lo && hi <= hi'
    ensures TreeRel(g, st, tr, lo, hi) <= TreeRel(g, st, tr, lo', hi')
  {
    forall x, y | (x, y) in TreeRel(g, st, tr, lo, hi) ensures (x, y) in TreeRel(g, st, tr, lo', hi') {
      assert TreeLink(g, st, tr, lo, hi, x, y);
      assert TreeLink(g, st, tr, lo', hi', x, y);
    }
  }

  lemma GrownSpansNew(g: Digraph, st: Search, tr: set<nat>, v: nat, via: Option<nat>, st': Search, i: nat)
    requires Shape(g, st, tr) && Spans(g, st, tr, i, st.timer)
    requires Grown(st, v, via, st') && i < |st.stack| && via.Some? && Next(st, via.value, v)
    ensures Spans(g, st', Tree(tr, via), i, st'.timer)
  {
    var t := |st.stack| - 1;
    var tr', lo := Tree(tr, via), st.Num(st.At(i));
    var r, r' := TreeRel(g, st', tr', lo, st.timer), TreeRel(g, st', tr', lo, st'.timer);
    GrownSpans(g, st, tr, v, via, st', i, st.timer);
    TreeWiden(g, st', tr', lo, lo, st.timer, st'.timer);
    TopJoins(g, st, tr, via.value, v);
    assert i < t ==> st.Num(st.At(i)) < st.Num(st.At(t));
    assert TreeLink(g, st', tr', lo, st'.timer, st.At(t), v);
    forall x | x in st'.disc && lo <= st'.Num(x) < st'.timer ensures Connects(g, st', tr', i, st'.timer, x) {
      var z := if x == v then st.At(t) else x;
      assert st'.At(t) == st.At(t);
      assert Connects(g, st', tr', i, st.timer, z);
      ReachMono(r, r', st.At(i), z);
      if x == v {
        ReachStep(r', st.At(i), z, v);
      }
    }
  }

  lemma GrownSpansTop(g: Digraph, st: Search, tr: set<nat>, v: nat, via: Option<nat>, st': Search)
    requires Grown(st, v, via, st')
    ensures Spans(g, st', Tree(tr, via), |st.stack|, st'.timer)
  {
    var t := |st.stack|;
    forall x | x in st'.disc && st'.Num(st'.At(t)) <= st'.Num(x) < st'.timer
      ensures Connects(g, st', Tree(tr, via), t, st'.timer, x)
    {
      assert x == v;
      ReachRefl(TreeRel(g, st', Tree(tr, via), st.timer, st'.timer), v);
    }
  }

  // ----- a node is finished -----

  ghost predicate Popped(st: Search, st': Search) {
    && |st.stack| > 0 && st'.stack == st.stack[..|st.stack| - 1] && st'.disc == st.disc && st'.timer == st.timer
    && st'.low.Keys == st.low.Keys
    && (forall i: nat :: i + 2 < |st.stack| ==> st'.Low(st.At(i)) == st.Low(st.At(i)))
    && (|st.stack| > 1 ==>
          var a, b := st.Low(st.At(|st.stack| - 2)), st.Low(st.At(|st.stack| - 1));
          st'.Low(st.At(|st.stack| - 2)) == if a <= b then a else b)
  }

  lemma PopFacts(g: Digraph, st: Search, tr: set<nat>)
    requires Shape(g, st, tr) && |st.stack| > 0
    ensures var t := |st.stack| - 1;
            && st.At(t) in st.low && (t > 0 ==> st.At(t - 1) in st.low)
            && Popped(st, Pop(st))
            && forall i: nat :: i < t ==> st.Num(st.At(i)) < st.Num(st.At(t))
  {
    var t := |st.stack| - 1;
    assert FrameOk(g, st, t);
    if t > 0 {
      assert FrameOk(g, st, t - 1);
    }
    forall i: nat | i < t - 1 ensures st.At(i) != st.At(t - 1) {
      assert st.Num(st.At(i)) < st.Num(st.At(t - 1));
    }
  }

  lemma PopSame(g: Digraph, st: Search, tr: set<nat>, mode: Mode, st': Search)
    requires Shape(g, st, tr) && Popped(st, st')
    ensures |st'.stack| == |st.stack| - 1 && forall i: nat :: i < |st'.stack| ==> st'.At(i) == st.At(i)
    ensures forall x: nat :: st'.Num(x) == st.Num(x)
    ensures forall x: nat :: OnStack(st, x) <==> OnStack(st', x) || x == st.At(|st.stack| - 1)
    ensures forall i: nat, f: nat, x: nat, y: nat :: i < |st'.stack| ==>
              Skipped(st', mode, i, f, x, y) == Skipped(st, mode, i, f, x, y)
  {
    var t := |st.stack| - 1;
    forall x: nat ensures OnStack(st, x) <==> OnStack(st', x) || x == st.At(t) {
      if i: nat :| i < |st.stack| && st.At(i) == x {
        assert i < t ==> st'.At(i) == x;
      }
      if i: nat :| i < |st'.stack| && st'.At(i) == x {
        assert st.At(i) == x;
      }
    }
    forall i: nat, f: nat, x: nat, y: nat | i < |st'.stack|
      ensures Skipped(st', mode, i, f, x, y) == Skipped(st, mode, i, f, x, y)
    {
      assert i > 0 ==> st'.At(i - 1) == st.At(i - 1);
    }
  }

  lemma PopStep(g: Digraph, st: Search, tr: set<nat>, mode: Mode, st': Search)
    requires Inv(g, st, tr, mode) && Exhausted(st) && Popped(st, st')
    ensures Inv(g, st', tr, mode)
  {
    PopShape(g, st, tr, st');
    PopCovered(g, st, tr, mode, st');
    PopLinked(g, st, tr, mode, st');
  }

  lemma PopShape(g: Digraph, st: Search, tr: set<nat>, st': Search)
    requires Shape(g, st, tr) && Popped(st, st')
    ensures Shape(g, st', tr)
  {
    PopSame(g, st, tr, ByEdge, st');
    forall i: nat | i < |st'.stack| ensures FrameOk(g, st', i) && Entered(g, st', tr, i) {
      assert FrameOk(g, st, i) && Entered(g, st, tr, i);
      assert i > 0 ==> st'.At(i - 1) == st.At(i - 1);
    }
    forall i: nat, j: nat | i < j < |st'.stack| ensures st'.Num(st'.At(i)) < st'.Num(st'.At(j)) {
      assert st.Num(st.At(i)) < st.Num(st.At(j));
    }
  }

  lemma PopProcessed(g: Digraph, st: Search, tr: set<nat>, st': Search, f: nat, x: nat, y: nat)
    requires Shape(g, st, tr) && Exhausted(st) && Popped(st, st') && Processed(g, st', f, x, y)
    ensures Processed(g, st, f, x, y)
  {
    var t := |st.stack| - 1;
    forall i: nat | i < |st.stack| ensures Taken(st, i, f, x, y) {
      if i < t {
        assert Taken(st', i, f, x, y);
      } else {
        assert FrameOk(g, st, t);
        assert st.stack[t].neighbors[..st.stack[t].idx] == st.stack[t].neighbors;
      }
    }
  }

  lemma PopCovered(g: Digraph, st: Search, tr: set<nat>, mode: Mode, st': Search)
    requires Inv(g, st, tr, mode) && Exhausted(st) && Popped(st, st')
    ensures Covered(g, st', mode)
  {
    var t := |st.stack| - 1;
    PopSame(g, st, tr, mode, st');
    PopFacts(g, st, tr);
    forall f, x, y | Processed(g, st', f, x, y) ensures y in st'.disc {
      PopProcessed(g, st, tr, st', f, x, y);
    }
    forall i: nat, f, x, y | InSegment(st', i, x) && Processed(g, st', f, x, y)
      ensures EdgeCovered(st', mode, i, f, x, y)
    {
      PopProcessed(g, st, tr, st', f, x, y);
      assert i + 1 < t ==> st'.At(i + 1) == st.At(i + 1);
      if i == t - 1 && st.Num(st.At(t)) <= st.Num(x) {
        PopEdgeCovered(g, st, tr, mode, st', f, x, y);
      } else {
        assert InSegment(st, i, x);
        assert EdgeCovered(st, mode, i, f, x, y);
      }
    }
    forall k: nat, f, x, y | k < |st'.stack| && Finished(st', x) && BelowFrame(st', k, x) && Joins(g, f, x, y)
      ensures BelowFrame(st', k, y)
    {
      assert x != st.At(t);
      assert Finished(st, x) && BelowFrame(st, k, x);
      assert BelowFrame(st, k, y);
    }
  }

  /** An edge from the finished subtree to below its parent was counted in the child's low point. */
  lemma PopEdgeCovered(g: Digraph, st: Search, tr: set<nat>, mode: Mode, st': Search, f: nat, x: nat, y: nat)
    requires Inv(g, st, tr, mode) && Popped(st, st') && |st.stack| > 1 && Processed(g, st, f, x, y)
    requires x in st.disc && st.Num(st.At(|st.stack| - 1)) <= st.Num(x)
    ensures EdgeCovered(st', mode, |st.stack| - 2, f, x, y)
  {
    var t := |st.stack| - 1;
    PopSame(g, st, tr, mode, st');
    assert InSegment(st, t, x);
    assert EdgeCovered(st, mode, t, f, x, y);
    assert Entered(g, st, tr, t);
    assert st.Num(st.At(t - 1)) < st.Num(st.At(t));
  }

  lemma PopLinked(g: Digraph, st: Search, tr: set<nat>, mode: Mode, st': Search)
    requires Shape(g, st, tr) && Linked(g, st, tr, mode) && Popped(st, st')
    ensures Linked(g, st', tr, mode)
  {
    PopSame(g, st, tr, mode, st');
    forall i: nat | i < |st'.stack| ensures Spans(g, st', tr, i, st'.timer) {
      assert Spans(g, st, tr, i, st.timer);
      PoppedSpans(g, st, st', tr, i, st.timer);
    }
    forall j: nat | 1 <= j < |st'.stack| ensures Spans(g, st', tr, 0, st'.Num(st'.At(j))) {
      assert Spans(g, st, tr, 0, st.Num(st.At(j)));
      PoppedSpans(g, st, st', tr, 0, st.Num(st.At(j)));
    }
    forall i: nat | i < |st'.stack| ensures LowReached(g, st', mode, i) {
      PopLow(g, st, tr, mode, st', i);
    }
  }

  lemma PoppedSpans(g: Digraph, st: Search, st': Search, tr: set<nat>, i: nat, hi: nat)
    requires Popped(st, st') && Spans(g, st, tr, i, hi) && i < |st'.stack|
    ensures Spans(g, st', tr, i, hi)
  {
    assert st'.At(i) == st.At(i);
    SameTree(g, st, st', tr, st.Num(st.At(i)), hi);
    forall x | x in st'.disc && st'.Num(st'.At(i)) <= st'.Num(x) < hi ensures Connects(g, st', tr, i, hi, x) {
      assert Connects(g, st, tr, i, hi, x);
    }
  }

  lemma PopLow(g: Digraph, st: Search, tr: set<nat>, mode: Mode, st': Search, i: nat)
    requires Shape(g, st, tr) && Linked(g, st, tr, mode) && Popped(st, st') && i < |st'.stack|
    ensures LowReached(g, st', mode, i)
  {
    var t := |st.stack| - 1;
    PopSame(g, st, tr, mode, st');
    assert LowReached(g, st, mode, i) && LowReached(g, st, mode, t);
    if st'.Low(st.At(i)) < st.Num(st.At(i)) {
      if st'.Low(st.At(i)) == st.Low(st.At(i)) {
        var f: nat, x: nat, y: nat :| LowAt(g, st, mode, i, f, x, y);
        assert LowAt(g, st', mode, i, f, x, y);
      } else {
        assert st.Num(st.At(i)) < st.Num(st.At(t));
        var f: nat, x: nat, y: nat :| LowAt(g, st, mode, t, f, x, y);
        assert Entered(g, st, tr, i);
        assert i > 0 ==> st.Num(st.At(i - 1)) < st.Num(st.At(i));
        assert LowAt(g, st', mode, i, f, x, y);
      }
    }
  }

  // ----- edges of the subtree on top -----

  /** Every edge at a node of the finished subtree has been looked at. */
  lemma SubtreeEdge(g: Digraph, st: Search, tr: set<nat>, mode: Mode, f: nat, x: nat, y: nat)
    requires Inv(g, st, tr, mode) && Exhausted(st) && Joins(g, f, x, y)
    requires x in st.disc && st.Num(st.At(|st.stack| - 1)) <= st.Num(x)
    ensures Processed(g, st, f, x, y) && y in st.disc && InSegment(st, |st.stack| - 1, x)
  {
    var t := |st.stack| - 1;
    forall i: nat | i < |st.stack| ensures Taken(st, i, f, x, y) {
      if i < t {
        assert st.Num(st.At(i)) < st.Num(st.At(t));
      } else {
        assert FrameOk(g, st, t);
        assert st.stack[t].neighbors[..st.stack[t].idx] == st.stack[t].neighbors;
      }
    }
  }

  /** An edge out of the top subtree ends at a node of the stack, no higher than the parent. */
  lemma OuterIsFrame(g: Digraph, st: Search, tr: set<nat>, mode: Mode, f: nat, x: nat, y: nat)
    requires Inv(g, st, tr, mode) && |st.stack| > 0 && Joins(g, f, x, y) && x in st.disc && y in st.disc
    requires st.Num(y) < st.Num(st.At(|st.stack| - 1)) <= st.Num(x)
    ensures |st.stack| > 1 && OnStack(st, y) && st.Num(y) <= st.Num(st.At(|st.stack| - 2))
    ensures st.Num(y) == st.Num(st.At(|st.stack| - 2)) ==> y == st.At(|st.stack| - 2)
  {
    var t := |st.stack| - 1;
    assert Joins(g, f, y, x);
    assert Finished(st, y) ==> BelowFrame(st, t, x);
    var i: nat :| i < |st.stack| && st.At(i) == y;
    if i < t - 1 {
      assert st.Num(st.At(i)) < st.Num(st.At(t - 1));
    }
  }

  /** An edge from the tree under way does not lead to an earlier component. */
  lemma LowAboveRoot(g: Digraph, st: Search, tr: set<nat>, mode: Mode, f: nat, x: nat, y: nat)
    requires Inv(g, st, tr, mode) && |st.stack| > 0 && Joins(g, f, x, y) && x in st.disc && y in st.disc
    requires st.Num(st.At(0)) <= st.Num(x)
    ensures st.Num(st.At(0)) <= st.Num(y)
  {
    if st.Num(y) < st.Num(st.At(0)) {
      EarlierApart(g, st, tr, mode, f, x, y);
    }
  }

  lemma EarlierApart(g: Digraph, st: Search, tr: set<nat>, mode: Mode, f: nat, x: nat, y: nat)
    requires Inv(g, st, tr, mode) && |st.stack| > 0 && Joins(g, f, x, y) && x in st.disc && y in st.disc
    requires st.Num(y) < st.Num(st.At(0))
    ensures BelowFrame(st, 0, x)
  {
    forall i: nat | i < |st.stack| ensures st.At(i) != y {
      assert i > 0 ==> st.Num(st.At(0)) < st.Num(st.At(i));
    }
    assert Finished(st, y) && BelowFrame(st, 0, y) && Joins(g, f, y, x);
  }

  lemma TreeSymmetric(g: Digraph, st: Search, tr: set<nat>, lo: nat, hi: nat)
    ensures Symmetric(TreeRel(g, st, tr, lo, hi))
  {
    forall x, y | (x, y) in TreeRel(g, st, tr, lo, hi) ensures (y, x) in TreeRel(g, st, tr, lo, hi) {
      assert TreeLink(g, st, tr, lo, hi, x, y);
      var f: nat :| f in tr && Joins(g, f, x, y);
      assert Joins(g, f, y, x);
      assert TreeLink(g, st, tr, lo, hi, y, x);
    }
  }

  // ----- progress -----

  /** Steps the search may still take on the frames it has open. */
  ghost function Work(stack: seq<Frame>): nat {
    if stack == [] then 0
    else var f := stack[|stack| - 1];
         Work(stack[..|stack| - 1]) + 1 + if f.idx < |f.neighbors| then |f.neighbors| - f.idx else 0
  }

  lemma WorkAdvance(st: Search)
    requires |st.stack| > 0 && st.stack[|st.stack| - 1].idx < |st.stack[|st.stack| - 1].neighbors|
    ensures Work(Advance(st).stack) < Work(st.stack)
  {
    assert Advance(st).stack[..|st.stack| - 1] == st.stack[..|st.stack| - 1];
  }

  lemma NumberedMore(g: Digraph, st: Search, tr: set<nat>, tr': set<nat>, v: nat, via: Option<nat>, st': Search)
    requires Shape(g, st', tr') && Grown(st, v, via, st')
    ensures |st'.disc| == |st.disc| + 1 <= g.n
  {
    assert st'.disc.Keys == st.disc.Keys + {v};
    SubsetCard(st'.disc.Keys, Below(g.n));
  }

  // ----- the order of the search -----

  ghost function Far(g: Digraph, v: nat, e: nat): nat {
    if e < |g.ends| && g.ends[e].0 != v then g.ends[e].0 else if e < |g.ends| then g.ends[e].1 else 0
  }

  /** The neighbors of every node, in the order in which `edge_indices_of` gives the edges to them. */
  ghost function FarLists(g: Digraph): (l: Lists)
    requires g.Valid()
    ensures |l| == g.n && forall v: nat :: v < g.n ==> l[v] == FarList(g, v)
  {
    seq(g.n, v requires 0 <= v < g.n => FarList(g, v))
  }

  ghost function FarList(g: Digraph, v: nat): (r: seq<nat>)
    requires g.Valid() && v < g.n
    ensures |r| == |EdgesAt(g, v)| && forall k :: 0 <= k < |r| ==> r[k] == Far(g, v, EdgesAt(g, v)[k])
  {
    var edges := EdgesAt(g, v);
    seq(|edges|, k requires 0 <= k < |edges| => Far(g, v, edges[k]))
  }

  ghost function Nodes(l: seq<(nat, nat)>): (r: seq<nat>)
    ensures |r| == |l| && forall k :: 0 <= k < |r| ==> r[k] == l[k].1
  {
    seq(|l|, k requires 0 <= k < |l| => l[k].1)
  }

  lemma FarListed(g: Digraph, v: nat, l: seq<(nat, nat)>)
    requires g.Valid() && v < g.n && FarEnds(g, v, EdgesAt(g, v), l)
    ensures Nodes(l) == FarLists(g)[v]
  {
    forall k | 0 <= k < |l| ensures Nodes(l)[k] == FarList(g, v)[k] {
      assert Joins(g, l[k].0, v, l[k].1);
    }
  }

  /** The recursive search of the whole graph, nodes and neighbors taken as the graph lists them. */
  ghost function Whole(g: Digraph): Visit
    requires g.Valid()
  {
    Explore(FarLists(g), Below(g.n), Numbers(g.n), {})
  }

  ghost function Untried(f: Frame): seq<nat> {
    if f.idx <= |f.neighbors| then Nodes(f.neighbors[f.idx..]) else []
  }

  ghost function Opens(stack: seq<Frame>): (r: seq<Open>)
    ensures |r| == |stack| && forall i :: 0 <= i < |r| ==> r[i] == Open(stack[i].node, Untried(stack[i]))
  {
    seq(|stack|, i requires 0 <= i < |stack| => Open(stack[i].node, Untried(stack[i])))
  }

  /** The search so far is the start of the recursive one; the nodes left are those finished. */
  ghost predicate Traced(g: Digraph, st: Search, cursor: nat, met: seq<nat>, left: seq<nat>) {
    && g.Valid() && cursor <= g.n
    && OnCourse(FarLists(g), Below(g.n), Numbers(g.n), met, left, Opens(st.stack), Numbers(g.n)[cursor..])
    && Elems(met) == st.disc.Keys && forall x: nat {:trigger Finished(st, x)} :: x in left <==> Finished(st, x)
  }

  lemma OpensMore(stack: seq<Frame>, f: Frame)
    ensures Opens(stack + [f]) == Opens(stack) + [Open(f.node, Untried(f))]
  {
  }

  lemma TracedBegins(g: Digraph)
    requires g.Valid()
    ensures Traced(g, Search(map[], map[], 0, []), 0, [], [])
  {
    CourseBegins(FarLists(g), Below(g.n), Numbers(g.n));
    assert Opens([]) == [] && Numbers(g.n)[0..] == Numbers(g.n);
  }

  lemma TracedSkips(g: Digraph, st: Search, c0: nat, cursor: nat, met: seq<nat>, left: seq<nat>)
    requires Traced(g, st, c0, met, left) && st.stack == [] && c0 <= cursor <= g.n
    requires forall v: nat :: c0 <= v < cursor ==> v in st.disc
    ensures Traced(g, st, cursor, met, left)
  {
    assert Opens(st.stack) == [];
    forall v: nat | c0 <= v < cursor ensures v in met {
      assert v in Elems(met);
    }
    RootsPassed(FarLists(g), Below(g.n), Numbers(g.n), met, left, g.n, c0, cursor);
  }

  lemma TracedRoot(g: Digraph, st: Search, cursor: nat, met: seq<nat>, left: seq<nat>, neighbors: seq<(nat, nat)>)
    requires Traced(g, st, cursor, met, left) && st.stack == [] && cursor < g.n && cursor !in st.disc
    requires FarEnds(g, cursor, EdgesAt(g, cursor), neighbors)
    ensures Traced(g, Number(st, cursor, None, neighbors), cursor + 1, met + [cursor], left)
  {
    assert Numbers(g.n)[cursor..][1..] == Numbers(g.n)[cursor + 1..] && cursor !in Elems(met);
    RootMet(FarLists(g), Below(g.n), Numbers(g.n), met, left, Numbers(g.n)[cursor..]);
    FarListed(g, cursor, neighbors);
    var st' := Number(st, cursor, None, neighbors);
    var f := Frame(cursor, None, neighbors, 0);
    assert neighbors[0..] == neighbors;
    OpensMore(st.stack, f);
    assert Opens(st.stack) == [] && Opens(st'.stack) == [Open(cursor, FarLists(g)[cursor])];
    FinishedNumber(st, st', cursor, None, neighbors);
    assert Elems(met + [cursor]) == Elems(met) + {cursor};
  }

  lemma FinishedNumber(st: Search, st': Search, v: nat, via: Option<nat>, neighbors: seq<(nat, nat)>)
    requires st' == Number(st, v, via, neighbors) && v !in st.disc
    ensures forall x: nat :: Finished(st', x) <==> Finished(st, x)
  {
    forall x: nat ensures Finished(st', x) <==> Finished(st, x) {
      if i: nat :| i < |st.stack| && st.At(i) == x {
        assert st'.At(i) == x;
      }
      if i: nat :| i < |st'.stack| && st'.At(i) == x {
        assert i < |st.stack| ==> st.At(i) == x;
      }
      assert st'.At(|st.stack|) == v;
    }
  }

  lemma FinishedAdvance(st: Search, st': Search)
    requires |st.stack| > 0 && st'.stack == Advance(st).stack && st'.disc == st.disc
    ensures forall x: nat :: Finished(st', x) <==> Finished(st, x)
  {
    forall x: nat ensures OnStack(st', x) <==> OnStack(st, x) {
      if i: nat :| i < |st.stack| && st.At(i) == x {
        assert st'.At(i) == x;
      }
      if i: nat :| i < |st'.stack| && st'.At(i) == x {
        assert st.At(i) == x;
      }
    }
  }

  /** The frames as the top one looks along its next edge. */
  lemma AdvancedOpens(st: Search, f: nat, y: nat)
    requires Next(st, f, y)
    ensures var t := |st.stack| - 1;
            var lower, top := Opens(st.stack[..t]), st.stack[t];
            var rest := Untried(top.(idx := top.idx + 1));
            && Opens(st.stack) == lower + [Open(top.node, [y] + rest)]
            && Opens(Advance(st).stack) == lower + [Open(top.node, rest)]
  {
    var t := |st.stack| - 1;
    var top := st.stack[t];
    assert st.stack == st.stack[..t] + [top];
    OpensMore(st.stack[..t], top);
    assert Advance(st).stack == st.stack[..t] + [top.(idx := top.idx + 1)];
    OpensMore(st.stack[..t], top.(idx := top.idx + 1));
    assert top.neighbors[top.idx..] == [(f, y)] + top.neighbors[top.idx + 1..];
    assert Nodes(top.neighbors[top.idx..]) == [y] + Nodes(top.neighbors[top.idx + 1..]);
  }

  lemma TracedLook(g: Digraph, st: Search, mode: Mode, f: nat, y: nat, st': Search, cursor: nat, met: seq<nat>,
                   left: seq<nat>)
    requires Traced(g, st, cursor, met, left) && Looked(g, st, mode, f, y, st')
    ensures Traced(g, st', cursor, met, left)
  {
    AdvancedOpens(st, f, y);
    FinishedAdvance(st, st');
    assert y in Elems(met);
    var frames, frames' := Opens(st.stack), Opens(st'.stack);
    assert frames[..|frames| - 1] == Opens(st.stack[..|st.stack| - 1]);
    NeighborPassed(FarLists(g), Below(g.n), Numbers(g.n), met, left, frames, Numbers(g.n)[cursor..], frames');
  }

  lemma TracedEnter(g: Digraph, st: Search, f: nat, y: nat, cursor: nat, met: seq<nat>, left: seq<nat>,
                    neighbors: seq<(nat, nat)>)
    requires Traced(g, st, cursor, met, left) && Next(st, f, y) && y < g.n && y !in st.disc
    requires FarEnds(g, y, EdgesAt(g, y), neighbors)
    ensures Traced(g, Number(Advance(st), y, Some(f), neighbors), cursor, met + [y], left)
  {
    AdvancedOpens(st, f, y);
    FarListed(g, y, neighbors);
    var st' := Number(Advance(st), y, Some(f), neighbors);
    assert y !in Elems(met) && neighbors[0..] == neighbors;
    OpensMore(Advance(st).stack, Frame(y, Some(f), neighbors, 0));
    var frames, frames' := Opens(st.stack), Opens(st'.stack);
    var lower, top := frames[..|frames| - 1], frames[|frames| - 1];
    assert lower == Opens(st.stack[..|st.stack| - 1]);
    assert frames' == lower + [top.(todo := top.todo[1..]), Open(y, FarLists(g)[y])];
    NeighborMet(FarLists(g), Below(g.n), Numbers(g.n), met, left, frames, Numbers(g.n)[cursor..], frames');
    FinishedAdvance(st, Advance(st));
    FinishedNumber(Advance(st), st', y, Some(f), neighbors);
    assert Elems(met + [y]) == Elems(met) + {y};
  }

  lemma TracedPop(g: Digraph, st: Search, tr: set<nat>, st': Search, cursor: nat, met: seq<nat>, left: seq<nat>)
    requires Traced(g, st, cursor, met, left) && Shape(g, st, tr) && Exhausted(st) && Popped(st, st')
    ensures Traced(g, st', cursor, met, left + [st.At(|st.stack| - 1)])
  {
    OpensLess(st);
    NodeLeft(FarLists(g), Below(g.n), Numbers(g.n), met, left, Opens(st.stack), Numbers(g.n)[cursor..]);
    FinishedPop(g, st, tr, st');
    LeftMore(st, st', left, st.At(|st.stack| - 1));
  }

  lemma OpensLess(st: Search)
    requires Exhausted(st)
    ensures var t := |st.stack| - 1;
            var frames := Opens(st.stack);
            frames[t] == Open(st.At(t), []) && frames[..t] == Opens(st.stack[..t])
  {
    var top := st.stack[|st.stack| - 1];
    assert Untried(top) == [];
  }

  lemma LeftMore(st: Search, st': Search, left: seq<nat>, u: nat)
    requires forall x: nat {:trigger Finished(st, x)} :: x in left <==> Finished(st, x)
    requires forall x: nat :: Finished(st', x) <==> Finished(st, x) || x == u
    ensures forall x: nat {:trigger Finished(st', x)} :: x in left + [u] <==> Finished(st', x)
  {
    forall x: nat ensures x in left + [u] <==> Finished(st', x) {
      assert x in left + [u] <==> x in left || x == u;
    }
  }

  lemma FinishedPop(g: Digraph, st: Search, tr: set<nat>, st': Search)
    requires Shape(g, st, tr) && Popped(st, st')
    ensures forall x: nat :: Finished(st', x) <==> Finished(st, x) || x == st.At(|st.stack| - 1)
  {
    var t := |st.stack| - 1;
    PopSame(g, st, tr, ByNode, st');
    assert FrameOk(g, st, t);
    forall i: nat | i < |st'.stack| ensures st'.At(i) != st.At(t) {
      assert st.Num(st.At(i)) < st.Num(st.At(t));
    }
  }

  /** The two top nodes have not been left. */
  lemma OpenFrames(g: Digraph, st: Search, tr: set<nat>, cursor: nat, met: seq<nat>, left: seq<nat>)
    requires Shape(g, st, tr) && |st.stack| > 0 && Traced(g, st, cursor, met, left)
    ensures var t := |st.stack| - 1;
            && st.At(t) !in left
            && (t > 0 ==> st.At(t - 1) !in left && st.At(t - 1) in met && st.stack[t].parentEdge.Some?
                          && Joins(g, st.stack[t].parentEdge.value, st.At(t), st.At(t - 1)))
  {
    var t := |st.stack| - 1;
    assert Entered(g, st, tr, t) && !Finished(st, st.At(t));
    if t > 0 {
      assert FrameOk(g, st, t - 1) && !Finished(st, st.At(t - 1)) && st.At(t - 1) in Elems(met);
    }
  }
}
