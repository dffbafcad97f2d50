/** Bridges of an undirected multigraph (`src/algo/bridges.rs`). */
module Bridges {
  import opened Seqs
  import opened Vec
  import opened Graphs
  import opened Undirected
  import opened LowPoint
  import opened DepthFirst

  // ----- what a bridge is -----

  /** The edges other than `e`. */
  ghost function Others(g: Digraph, e: nat): set<nat> {
    Edges(g) - {e}
  }

  /** Adjacency, in either direction, by the edges other than `e`. */
  ghost function Without(g: Digraph, e: nat): Rel {
    EdgeRel(g, Others(g, e))
  }

  /** Removing the edge disconnects its ends. */
  ghost predicate IsBridge(g: Digraph, e: nat) {
    e < |g.ends| && !Reach(Without(g, e), g.ends[e].0, g.ends[e].1)
  }

  lemma BridgeEnds(g: Digraph, e: nat, x: nat, y: nat)
    requires Joins(g, e, x, y)
    ensures IsBridge(g, e) <==> !Reach(Without(g, e), x, y)
  {
    EdgeRelSymmetric(g, Others(g, e));
    if Reach(Without(g, e), x, y) {
      ReachSym(Without(g, e), x, y);
    }
    if Reach(Without(g, e), y, x) {
      ReachSym(Without(g, e), y, x);
    }
  }

  /** Tree edges numbered from `lo` on avoid an edge with an end below `lo` or from `hi` on. */
  lemma TreeAvoids(g: Digraph, st: Search, tr: set<nat>, lo: nat, hi: nat, e: nat, z: nat, w: nat)
    requires Shape(g, st, tr) && Joins(g, e, z, w) && z in st.disc && !(lo <= st.Num(z) < hi)
    ensures TreeRel(g, st, tr, lo, hi) <= Without(g, e)
  {
    forall x, y | (x, y) in TreeRel(g, st, tr, lo, hi) ensures (x, y) in Without(g, e) {
      assert TreeLink(g, st, tr, lo, hi, x, y);
      var f: nat :| f in tr && Joins(g, f, x, y);
      assert f != e;
      assert EdgeLink(g, Others(g, e), x, y);
    }
  }

  // ----- the test on leaving a node -----

  /** Low point above the parent: the tree edge is all that leaves the subtree. */
  lemma HighLowIsBridge(g: Digraph, st: Search, tr: set<nat>)
    requires Inv(g, st, tr, ByEdge) && Exhausted(st) && |st.stack| > 1
    requires st.Low(st.At(|st.stack| - 1)) > st.Num(st.At(|st.stack| - 2))
    ensures st.stack[|st.stack| - 1].parentEdge.Some? && IsBridge(g, st.stack[|st.stack| - 1].parentEdge.value)
  {
    var t := |st.stack| - 1;
    var u, v := st.At(t - 1), st.At(t);
    assert Entered(g, st, tr, t) && FrameOk(g, st, t) && FrameOk(g, st, t - 1);
    assert st.Num(u) < st.Num(v);
    var pe := st.stack[t].parentEdge.value;
    var sub := set x | x in st.disc && st.Num(v) <= st.Num(x);
    forall x, y | (x, y) in Without(g, pe) && x in sub ensures y in sub {
      assert EdgeLink(g, Others(g, pe), x, y);
      var f: nat :| f != pe && Joins(g, f, x, y);
      SubtreeEdge(g, st, tr, ByEdge, f, x, y);
      if y !in sub {
        assert EdgeCovered(st, ByEdge, t, f, x, y);
        OuterIsFrame(g, st, tr, ByEdge, f, x, y);
        assert false;
      }
    }
    assert Closed(Without(g, pe), sub);
    if Reach(Without(g, pe), v, u) {
      ReachStays(Without(g, pe), sub, v, u);
    }
    assert Joins(g, pe, v, u);
    BridgeEnds(g, pe, v, u);
  }

  /** The subtree of the top frame holds together without its parent edge. */
  lemma BelowConnected(g: Digraph, st: Search, tr: set<nat>, x: nat)
    requires Inv(g, st, tr, ByEdge) && |st.stack| > 1 && st.stack[|st.stack| - 1].parentEdge.Some?
    requires x in st.disc && st.Num(st.At(|st.stack| - 1)) <= st.Num(x)
    ensures Reach(Without(g, st.stack[|st.stack| - 1].parentEdge.value), st.At(|st.stack| - 1), x)
  {
    var t := |st.stack| - 1;
    var u, v, pe := st.At(t - 1), st.At(t), st.stack[t].parentEdge.value;
    assert Entered(g, st, tr, t) && FrameOk(g, st, t - 1);
    assert st.Num(u) < st.Num(v) && Joins(g, pe, u, v);
    TreeAvoids(g, st, tr, st.Num(v), st.timer, pe, u, v);
    assert Spans(g, st, tr, t, st.timer) && Connects(g, st, tr, t, st.timer, x);
    ReachMono(TreeRel(g, st, tr, st.Num(v), st.timer), Without(g, pe), v, x);
  }

  /** So does the tree grown before it. */
  lemma AboveConnected(g: Digraph, st: Search, tr: set<nat>, y: nat)
    requires Inv(g, st, tr, ByEdge) && |st.stack| > 1 && st.stack[|st.stack| - 1].parentEdge.Some?
    requires y in st.disc && st.Num(st.At(0)) <= st.Num(y) < st.Num(st.At(|st.stack| - 1))
    ensures Reach(Without(g, st.stack[|st.stack| - 1].parentEdge.value), st.At(0), y)
  {
    var t := |st.stack| - 1;
    var u, v, pe := st.At(t - 1), st.At(t), st.stack[t].parentEdge.value;
    assert Entered(g, st, tr, t) && Joins(g, pe, v, u);
    TreeAvoids(g, st, tr, st.Num(st.At(0)), st.Num(v), pe, v, u);
    assert Spans(g, st, tr, 0, st.Num(st.At(t))) && Connects(g, st, tr, 0, st.Num(st.At(t)), y);
    ReachMono(TreeRel(g, st, tr, st.Num(st.At(0)), st.Num(v)), Without(g, pe), st.At(0), y);
  }

  /** Low point at or below the parent: a second way round. */
  lemma LowIsNoBridge(g: Digraph, st: Search, tr: set<nat>)
    requires Inv(g, st, tr, ByEdge) && |st.stack| > 1
    requires st.Low(st.At(|st.stack| - 1)) <= st.Num(st.At(|st.stack| - 2))
    ensures st.stack[|st.stack| - 1].parentEdge.Some? && !IsBridge(g, st.stack[|st.stack| - 1].parentEdge.value)
  {
    var t := |st.stack| - 1;
    var u, v := st.At(t - 1), st.At(t);
    assert Entered(g, st, tr, t) && FrameOk(g, st, t) && FrameOk(g, st, t - 1) && FrameOk(g, st, 0);
    assert st.Num(u) < st.Num(v) && (t - 1 > 0 ==> st.Num(st.At(0)) < st.Num(u));
    var pe := st.stack[t].parentEdge.value;
    var r := Without(g, pe);
    EdgeRelSymmetric(g, Others(g, pe));
    assert LowReached(g, st, ByEdge, t);
    var f: nat, x: nat, y: nat :| LowAt(g, st, ByEdge, t, f, x, y);
    LowAboveRoot(g, st, tr, ByEdge, f, x, y);
    BelowConnected(g, st, tr, x);
    AboveConnected(g, st, tr, y);
    AboveConnected(g, st, tr, u);
    ReachSym(r, st.At(0), y);
    assert EdgeLink(g, Others(g, pe), x, y);
    ReachStep(r, v, x, y);
    ReachTrans(r, v, y, st.At(0));
    ReachTrans(r, v, st.At(0), u);
    BridgeEnds(g, pe, v, u);
  }

  // ----- what has been yielded -----

  /** `e` is the tree edge of a frame still open. */
  ghost predicate Pending(st: Search, e: nat) {
    exists i: nat :: i < |st.stack| && st.stack[i].parentEdge == Some(e)
  }

  ghost predicate Old(st: Search, x: nat) {
    x in st.disc && (st.stack == [] || st.Num(x) < st.Num(st.At(0)))
  }

  ghost predicate TreeJoined(g: Digraph, st: Search, tr: set<nat>, x: nat, y: nat) {
    Reach(TreeRel(g, st, tr, 0, st.timer), x, y)
  }

  /** `out` holds, once each, the bridges among the tree edges left behind; ends of edges in
      completed components are joined by tree edges. */
  ghost predicate Reported(g: Digraph, st: Search, tr: set<nat>, out: seq<nat>) {
    && NoDup(out)
    && (forall e {:trigger e in out} :: e in out ==> IsBridge(g, e) && e in tr && !Pending(st, e))
    && (forall e {:trigger IsBridge(g, e)} :: e in tr && !Pending(st, e) && IsBridge(g, e) ==> e in out)
    && (forall f: nat, x: nat, y: nat {:trigger Joins(g, f, x, y)} :: Old(st, x) && Joins(g, f, x, y) ==>
          TreeJoined(g, st, tr, x, y))
  }

  lemma LookReported(g: Digraph, st: Search, tr: set<nat>, f: nat, y: nat, st': Search, out: seq<nat>)
    requires Looked(g, st, ByEdge, f, y, st') && Reported(g, st, tr, out)
    ensures Reported(g, st', tr, out)
  {
    NudgedSame(st, st', ByEdge);
    forall e: nat ensures Pending(st', e) == Pending(st, e) {
      NudgedPending(st, st', e);
    }
    SameTree(g, st, st', tr, 0, st.timer);
    forall f: nat, x: nat, y: nat | Old(st', x) && Joins(g, f, x, y) ensures TreeJoined(g, st', tr, x, y) {
      assert Old(st, x);
      assert TreeJoined(g, st, tr, x, y);
    }
  }

  lemma NudgedPending(st: Search, st': Search, e: nat)
    requires Nudged(st, st')
    ensures Pending(st', e) == Pending(st, e)
  {
    assert forall i: nat :: i < |st.stack| ==> st'.stack[i].parentEdge == st.stack[i].(idx := 0).parentEdge;
  }

  lemma NumberReported(g: Digraph, st: Search, tr: set<nat>, v: nat, via: Option<nat>, st': Search, out: seq<nat>)
    requires Shape(g, st, tr) && Grown(st, v, via, st') && Reported(g, st, tr, out)
    requires if st.stack == [] then via == None else via.Some? && Joins(g, via.value, st.At(|st.stack| - 1), v)
    ensures Reported(g, st', Tree(tr, via), out)
  {
    forall e: nat ensures Pending(st', e) <==> Pending(st, e) || via == Some(e) {
      GrownPending(st, v, via, st', e);
    }
    if via.Some? {
      assert Joins(g, via.value, v, st.At(|st.stack| - 1));
      assert via.value !in tr;
    }
    GrownTree(g, st, tr, v, via, st', 0, st.timer);
    TreeWiden(g, st', Tree(tr, via), 0, 0, st.timer, st'.timer);
    forall f: nat, x: nat, y: nat | Old(st', x) && Joins(g, f, x, y) ensures TreeJoined(g, st', Tree(tr, via), x, y) {
      assert st.stack != [] ==> st'.At(0) == st.At(0);
      assert Old(st, x);
      assert TreeJoined(g, st, tr, x, y);
      ReachMono(TreeRel(g, st, tr, 0, st.timer), TreeRel(g, st', Tree(tr, via), 0, st'.timer), x, y);
    }
  }

  lemma GrownPending(st: Search, v: nat, via: Option<nat>, st': Search, e: nat)
    requires Grown(st, v, via, st')
    ensures Pending(st', e) <==> Pending(st, e) || via == Some(e)
  {
    if i: nat :| i < |st.stack| && st.stack[i].parentEdge == Some(e) {
      assert st'.stack[i].parentEdge == Some(e);
    }
    if via == Some(e) {
      assert st'.stack[|st.stack|].parentEdge == Some(e);
    }
  }

  /** What leaving the top node yields. */
  ghost function Yield(st: Search): Option<nat>
    requires |st.stack| > 0
  {
    if |st.stack| > 1 && st.Low(st.At(|st.stack| - 1)) > st.Num(st.At(|st.stack| - 2))
    then st.stack[|st.stack| - 1].parentEdge
    else None
  }

  ghost function Append(out: seq<nat>, y: Option<nat>): seq<nat> {
    if y.Some? then out + [y.value] else out
  }

  lemma PopReported(g: Digraph, st: Search, tr: set<nat>, st': Search, out: seq<nat>)
    requires Inv(g, st, tr, ByEdge) && Exhausted(st) && Popped(st, st') && Reported(g, st, tr, out)
    ensures Reported(g, st', tr, Append(out, Yield(st)))
  {
    var t := |st.stack| - 1;
    var pe := st.stack[t].parentEdge;
    PopSame(g, st, tr, ByEdge, st');
    assert Entered(g, st, tr, t);
    forall e: nat ensures Pending(st, e) <==> Pending(st', e) || pe == Some(e) {
      PoppedPending(g, st, tr, st', e);
    }
    if t > 0 {
      EdgeOfTop(g, st, tr, st');
      if Yield(st).Some? {
        HighLowIsBridge(g, st, tr);
      } else {
        LowIsNoBridge(g, st, tr);
      }
    }
    var out' := Append(out, Yield(st));
    if Yield(st).Some? {
      assert Pending(st, pe.value) && pe.value !in out;
      assert forall i :: 0 <= i < |out| ==> out[i] in out;
    }
    assert NoDup(out');
    forall e | e in out' ensures IsBridge(g, e) && e in tr && !Pending(st', e) {
      assert e in out || Yield(st) == Some(e);
    }
    forall e | e in tr && !Pending(st', e) && IsBridge(g, e) ensures e in out' {
      assert e in out || pe == Some(e);
    }
    SameTree(g, st, st', tr, 0, st.timer);
    forall f: nat, x: nat, y: nat | Old(st', x) && Joins(g, f, x, y) ensures TreeJoined(g, st', tr, x, y) {
      PopJoined(g, st, tr, st', out, f, x, y);
    }
  }

  lemma PoppedPending(g: Digraph, st: Search, tr: set<nat>, st': Search, e: nat)
    requires Popped(st, st')
    ensures Pending(st, e) <==> Pending(st', e) || st.stack[|st.stack| - 1].parentEdge == Some(e)
  {
    if i: nat :| i < |st.stack| && st.stack[i].parentEdge == Some(e) {
      assert i < |st'.stack| ==> st'.stack[i].parentEdge == Some(e);
    }
    if i: nat :| i < |st'.stack| && st'.stack[i].parentEdge == Some(e) {
      assert st.stack[i].parentEdge == Some(e);
    }
  }

  /** The tree edge of the top frame belongs to no other. */
  lemma EdgeOfTop(g: Digraph, st: Search, tr: set<nat>, st': Search)
    requires Shape(g, st, tr) && Popped(st, st') && |st.stack| > 1
    ensures st.stack[|st.stack| - 1].parentEdge.Some? && !Pending(st', st.stack[|st.stack| - 1].parentEdge.value)
    ensures st.stack[|st.stack| - 1].parentEdge.value in tr && Pending(st, st.stack[|st.stack| - 1].parentEdge.value)
  {
    var t := |st.stack| - 1;
    assert Entered(g, st, tr, t);
    var pe := st.stack[t].parentEdge.value;
    forall i: nat | i < |st'.stack| ensures st'.stack[i].parentEdge != Some(pe) {
      assert Entered(g, st, tr, i);
      assert st.Num(st.At(i)) < st.Num(st.At(t));
      assert i > 0 ==> st.Num(st.At(i - 1)) < st.Num(st.At(t));
    }
    assert st.stack[t].parentEdge == Some(pe);
  }

  lemma PopJoined(g: Digraph, st: Search, tr: set<nat>, st': Search, out: seq<nat>, f: nat, x: nat, y: nat)
    requires Inv(g, st, tr, ByEdge) && Exhausted(st) && Popped(st, st') && Reported(g, st, tr, out)
    requires Old(st', x) && Joins(g, f, x, y)
    ensures TreeJoined(g, st, tr, x, y)
  {
    PopSame(g, st, tr, ByEdge, st');
    assert |st.stack| > 1 ==> st'.At(0) == st.At(0);
    if Old(st, x) {
    } else if |st.stack| == 1 {
      SubtreeEdge(g, st, tr, ByEdge, f, x, y);
      LowAboveRoot(g, st, tr, ByEdge, f, x, y);
      var r := TreeRel(g, st, tr, 0, st.timer);
      TreeWiden(g, st, tr, st.Num(st.At(0)), 0, st.timer, st.timer);
      TreeSymmetric(g, st, tr, 0, st.timer);
      assert Spans(g, st, tr, 0, st.timer);
      assert Connects(g, st, tr, 0, st.timer, x) && Connects(g, st, tr, 0, st.timer, y);
      ReachMono(TreeRel(g, st, tr, st.Num(st.At(0)), st.timer), r, st.At(0), x);
      ReachMono(TreeRel(g, st, tr, st.Num(st.At(0)), st.timer), r, st.At(0), y);
      ReachSym(r, st.At(0), x);
      ReachTrans(r, x, st.At(0), y);
    } else {
      assert false;
    }
  }

  /** With every node visited, nothing but tree edges can be a bridge. */
  lemma AllReported(g: Digraph, st: Search, tr: set<nat>, out: seq<nat>, e: nat)
    requires Shape(g, st, tr) && Reported(g, st, tr, out) && st.stack == [] && st.disc.Keys == Below(g.n)
    ensures e in out <==> IsBridge(g, e)
  {
    if IsBridge(g, e) {
      var (x, y) := g.ends[e];
      if x == y {
        ReachRefl(Without(g, e), x);
      }
      assert Joins(g, e, x, y);
      assert Old(st, x);
      assert TreeJoined(g, st, tr, x, y);
      if e !in tr {
        forall a, b | (a, b) in TreeRel(g, st, tr, 0, st.timer) ensures (a, b) in Without(g, e) {
          assert TreeLink(g, st, tr, 0, st.timer, a, b);
          var f: nat :| f in tr && Joins(g, f, a, b);
          assert EdgeLink(g, Others(g, e), a, b);
        }
        ReachMono(TreeRel(g, st, tr, 0, st.timer), Without(g, e), x, y);
      }
    }
  }

  // ----- the order of the search -----

  /** Edge `e` joins `x`, which has been left, to a node met that is left later or not yet. */
  ghost predicate Hangs(g: Digraph, search: Visit, e: nat, x: nat) {
    exists w: nat :: HangsFrom(g, search, e, x, w)
  }

  ghost predicate HangsFrom(g: Digraph, search: Visit, e: nat, x: nat, w: nat) {
    Joins(g, e, x, w) && x in search.left && w in search.met && (w in search.left ==> Before(search.left, x, w))
  }

  /** `lower[k]` is the end of the k-th edge that is left first; the edges stand in the order in which
      these are left. */
  ghost predicate AsLeft(g: Digraph, search: Visit, lower: seq<nat>, out: seq<nat>) {
    && |lower| == |out| && KeepsOrder(search.left, lower)
    && forall k {:trigger out[k]} :: 0 <= k < |out| ==> Hangs(g, search, out[k], lower[k])
  }

  lemma AsLeftMet(g: Digraph, met: seq<nat>, left: seq<nat>, lower: seq<nat>, out: seq<nat>, v: nat)
    requires AsLeft(g, Visit(met, left), lower, out)
    ensures AsLeft(g, Visit(met + [v], left), lower, out)
  {
    forall k | 0 <= k < |out| ensures Hangs(g, Visit(met + [v], left), out[k], lower[k]) {
      var w: nat :| HangsFrom(g, Visit(met, left), out[k], lower[k], w);
      assert HangsFrom(g, Visit(met + [v], left), out[k], lower[k], w);
    }
  }

  lemma AsLeftMore(g: Digraph, met: seq<nat>, left: seq<nat>, lower: seq<nat>, out: seq<nat>, v: nat)
    requires AsLeft(g, Visit(met, left), lower, out) && v !in left
    ensures AsLeft(g, Visit(met, left + [v]), lower, out)
  {
    KeepsOrderMore(left, v, lower);
    forall k | 0 <= k < |out| ensures Hangs(g, Visit(met, left + [v]), out[k], lower[k]) {
      var w: nat :| HangsFrom(g, Visit(met, left), out[k], lower[k], w);
      BeforeMore(left, v, lower[k], w);
      assert HangsFrom(g, Visit(met, left + [v]), out[k], lower[k], w);
    }
  }

  lemma BeforeMore(left: seq<nat>, v: nat, x: nat, w: nat)
    requires x in left && (w in left ==> Before(left, x, w))
    ensures w in left + [v] ==> Before(left + [v], x, w)
  {
    if w in left {
      BeforeGrows(left, [v], x, w);
    } else if w == v {
      var i :| 0 <= i < |left| && left[i] == x;
      assert (left + [v])[i] == x && (left + [v])[|left|] == w;
    }
  }

  /** The edge a node was entered by is yielded as the node is left. */
  lemma AsLeftNext(g: Digraph, met: seq<nat>, left: seq<nat>, lower: seq<nat>, out: seq<nat>, e: nat, v: nat, p: nat)
    requires AsLeft(g, Visit(met, left), lower, out) && v !in left
    requires Joins(g, e, v, p) && p in met && p !in left
    ensures AsLeft(g, Visit(met, left + [v]), lower + [v], out + [e])
  {
    var left', lower', out' := left + [v], lower + [v], out + [e];
    AsLeftMore(g, met, left, lower, out, v);
    assert left'[|left|] == v;
    assert HangsFrom(g, Visit(met, left'), e, v, p);
    forall k | 0 <= k < |out'| ensures Hangs(g, Visit(met, left'), out'[k], lower'[k]) {
      assert k < |out| ==> out'[k] == out[k] && lower'[k] == lower[k];
    }
    assert forall k :: 0 <= k < |lower| ==> Hangs(g, Visit(met, left), out[k], lower[k]);
    KeepsOrderNext(left, v, lower);
  }

  lemma PopAsLeft(g: Digraph, st: Search, tr: set<nat>, cursor: nat, met: seq<nat>, left: seq<nat>, lower: seq<nat>,
                  out: seq<nat>)
    requires Shape(g, st, tr) && |st.stack| > 0 && Traced(g, st, cursor, met, left)
    requires AsLeft(g, Visit(met, left), lower, out)
    ensures var v := st.At(|st.stack| - 1);
            AsLeft(g, Visit(met, left + [v]), if Yield(st).Some? then lower + [v] else lower, Append(out, Yield(st)))
  {
    var t := |st.stack| - 1;
    OpenFrames(g, st, tr, cursor, met, left);
    if Yield(st).Some? {
      AsLeftNext(g, met, left, lower, out, Yield(st).value, st.At(t), st.At(t - 1));
    } else {
      AsLeftMore(g, met, left, lower, out, st.At(t));
    }
  }

  /** All that is kept between steps. */
  ghost predicate Searched(g: Digraph, st: Search, tr: set<nat>, out: seq<nat>, cursor: nat, met: seq<nat>,
                           left: seq<nat>, lower: seq<nat>)
  {
    && Inv(g, st, tr, ByEdge) && Reported(g, st, tr, out)
    && Traced(g, st, cursor, met, left) && AsLeft(g, Visit(met, left), lower, out)
    && forall v: nat :: v < cursor ==> v in st.disc
  }

  /** The bridges in the order in which the recursive search leaves their lower ends. */
  ghost predicate BridgesAsLeft(g: Digraph, out: seq<nat>)
    requires g.Valid()
  {
    exists lower :: AsLeft(g, Whole(g), lower, out)
  }

  // ----- the iterator -----

  class Bridges {
    const graph: Digraph
    var disc: map<nat, nat>
    var low: map<nat, nat>
    var timer: nat
    var cursor: nat
    var stack: seq<Frame>
    ghost var tree: set<nat>
    ghost var yielded: seq<nat>
    ghost var met: seq<nat>
    ghost var left: seq<nat>
    ghost var lower: seq<nat>

    ghost function S(): Search
      reads this
    {
      Search(disc, low, timer, stack)
    }

    ghost predicate Valid()
      reads this
    {
      Searched(graph, S(), tree, yielded, cursor, met, left, lower)
    }

    ghost function Unnumbered(): nat
      reads this
    {
      if |disc| <= graph.n then graph.n - |disc| else 0
    }

    constructor (g: Digraph)
      requires g.Valid()
      ensures Valid() && graph == g && yielded == []
    {
      graph := g;
      disc, low, timer, cursor, stack := map[], map[], 0, 0, [];
      tree, yielded, met, left, lower := {}, [], [], [], [];
      new;
      TracedBegins(graph);
    }

    /** The next bridge, or nothing once every bridge has been yielded. */
    method Next() returns (bridge: Option<nat>)
      requires Valid()
      modifies this
      ensures Valid()
      ensures bridge.Some? ==> yielded == old(yielded) + [bridge.value] && IsBridge(graph, bridge.value)
      ensures bridge.None? ==> yielded == old(yielded) && forall e: nat :: e in yielded <==> IsBridge(graph, e)
      ensures graph.Valid() && BridgesAsLeft(graph, yielded)
    {
      var more := true;
      bridge := None;
      while more && bridge.None?
        invariant Valid()
        invariant yielded == if bridge.Some? then old(yielded) + [bridge.value] else old(yielded)
        invariant bridge.Some? ==> bridge.value in yielded
        invariant !more ==> bridge.None? && forall e: nat :: e in yielded <==> IsBridge(graph, e)
        decreases bridge.None?, more, Unnumbered(), Work(stack)
      {
        bridge, more := Turn();
      }
      AsLeftInAll(graph, S(), cursor, met, left, lower, yielded);
    }

    method Turn() returns (bridge: Option<nat>, more: bool)
      requires Valid()
      modifies this
      ensures Valid() && yielded == Append(old(yielded), bridge)
      ensures !more ==> bridge.None? && forall e: nat :: e in yielded <==> IsBridge(graph, e)
      ensures more ==>
                || Unnumbered() < old(Unnumbered())
                || (Unnumbered() == old(Unnumbered()) && Work(stack) < old(Work(stack)))
    {
      bridge, more := None, true;
      if stack == [] {
        more := NextRoot();
      } else if stack[|stack| - 1].idx < |stack[|stack| - 1].neighbors| {
        Descend();
      } else {
        bridge := Finish();
      }
    }

    /** Look along the next edge of the top node. */
    method Descend()
      requires Valid() && stack != [] && stack[|stack| - 1].idx < |stack[|stack| - 1].neighbors|
      modifies this
      ensures Valid() && yielded == old(yielded)
      ensures Unnumbered() < old(Unnumbered()) || (Unnumbered() == old(Unnumbered()) && Work(stack) < old(Work(stack)))
    {
      var top := stack[|stack| - 1];
      var (eix, neighbor) := top.neighbors[top.idx];
      TopJoins(graph, S(), tree, eix, neighbor);
      if top.parentEdge == Some(eix) || neighbor in disc {
        Look();
      } else {
        Enter();
      }
    }

    method Look()
      requires Valid() && stack != [] && stack[|stack| - 1].idx < |stack[|stack| - 1].neighbors|
      requires var top := stack[|stack| - 1];
               top.parentEdge == Some(top.neighbors[top.idx].0) || top.neighbors[top.idx].1 in disc
      modifies this
      ensures Valid() && yielded == old(yielded) && disc == old(disc) && Work(stack) < old(Work(stack))
    {
      ghost var st := S();
      var top := stack[|stack| - 1];
      var (eix, neighbor) := top.neighbors[top.idx];
      LookReady(graph, st, tree, eix, neighbor);
      Pass();
      LookAll(graph, st, tree, eix, neighbor, S(), yielded, cursor, met, left, lower);
    }

    /** Past the next edge of the top node; unless the node was entered by it its far end counts. */
    method Pass()
      requires stack != [] && stack[|stack| - 1].idx < |stack[|stack| - 1].neighbors|
      requires var top := stack[|stack| - 1]; top.neighbors[top.idx].1 in disc && top.node in low
      modifies this`stack, this`low
      ensures var (f, y) := old(stack[|stack| - 1].neighbors[stack[|stack| - 1].idx]);
              Looked(graph, old(S()), ByEdge, f, y, S())
    {
      var top := stack[|stack| - 1];
      var (eix, neighbor) := top.neighbors[top.idx];
      stack := stack[|stack| - 1 := top.(idx := top.idx + 1)];
      if top.parentEdge != Some(eix) {
        var nl := if low[top.node] <= disc[neighbor] then low[top.node] else disc[neighbor];
        low := low[top.node := nl];
      }
    }

    method Enter()
      requires Valid() && stack != [] && stack[|stack| - 1].idx < |stack[|stack| - 1].neighbors|
      requires stack[|stack| - 1].neighbors[stack[|stack| - 1].idx].1 !in disc
      modifies this
      ensures Valid() && yielded == old(yielded) && Unnumbered() < old(Unnumbered())
    {
      ghost var st := S();
      var top := stack[|stack| - 1];
      var (eix, neighbor) := top.neighbors[top.idx];
      TopJoins(graph, st, tree, eix, neighbor);
      var next := CollectUndirectedNeighbors(graph, neighbor);
      Follow(next);
      NumberAll(graph, st, tree, neighbor, Some(eix), next, yielded, cursor, cursor, met, left, lower);
      tree, met := tree + {eix}, met + [neighbor];
    }

    /** Enter the far end of the top node's next edge. */
    method Follow(next: seq<(nat, nat)>)
      requires stack != [] && stack[|stack| - 1].idx < |stack[|stack| - 1].neighbors|
      modifies this`stack, this`disc, this`low, this`timer
      ensures var top := old(stack[|stack| - 1]); var (f, v) := top.neighbors[top.idx];
              S() == Number(Ready(old(S())), v, Some(f), next)
    {
      var top := stack[|stack| - 1];
      var (eix, neighbor) := top.neighbors[top.idx];
      stack := stack[|stack| - 1 := top.(idx := top.idx + 1)];
      Begin(neighbor, Some(eix), next);
    }

    /** Number `v` and open its frame. */
    method Begin(v: nat, via: Option<nat>, neighbors: seq<(nat, nat)>)
      modifies this`disc, this`low, this`timer, this`stack
      ensures S() == Number(old(S()), v, via, neighbors)
    {
      disc := disc[v := timer];
      low := low[v := timer];
      timer := timer + 1;
      stack := stack + [Frame(v, via, neighbors, 0)];
    }

    /** Leave the top node and judge the edge it was entered by. */
    method Finish() returns (bridge: Option<nat>)
      requires Valid() && stack != [] && stack[|stack| - 1].idx >= |stack[|stack| - 1].neighbors|
      modifies this
      ensures Valid() && disc == old(disc) && Work(stack) < old(Work(stack))
      ensures yielded == Append(old(yielded), bridge)
    {
      ghost var st, v := S(), S().At(|stack| - 1);
      PopFacts(graph, st, tree);
      PopParent(graph, st, tree);
      bridge := Leave();
      PopAll(graph, st, tree, S(), yielded, cursor, met, left, lower);
      yielded, left := Append(yielded, bridge), left + [v];
      lower := if Yield(st).Some? then lower + [v] else lower;
    }

    method Leave() returns (bridge: Option<nat>)
      requires stack != [] && disc.Keys == low.Keys && stack[|stack| - 1].node in low
      requires |stack| > 1 ==> stack[|stack| - 2].node in low && stack[|stack| - 2].node != stack[|stack| - 1].node
                               && stack[|stack| - 1].parentEdge.Some?
      modifies this`stack, this`low
      ensures S() == Pop(old(S())) && bridge == Yield(old(S()))
    {
      var top := stack[|stack| - 1];
      var nodeLow := low[top.node];
      stack := stack[..|stack| - 1];
      bridge := None;
      if stack != [] {
        var parent := stack[|stack| - 1].node;
        low := low[parent := if low[parent] <= nodeLow then low[parent] else nodeLow];
        if nodeLow > disc[parent] {
          if top.parentEdge.Some? {
            bridge := top.parentEdge;
          }
        }
      }
    }

    method NextRoot() returns (more: bool)
      requires Valid() && stack == []
      modifies this
      ensures Valid() && yielded == old(yielded)
      ensures more ==> Unnumbered() < old(Unnumbered())
      ensures !more ==> forall e: nat :: e in yielded <==> IsBridge(graph, e)
    {
      ghost var c0 := cursor;
      Skip();
      TracedSkips(graph, S(), c0, cursor, met, left);
      more := cursor < graph.n;
      if more {
        StartRoot();
      } else {
        assert disc.Keys == Below(graph.n);
        forall e: nat ensures e in yielded <==> IsBridge(graph, e) {
          AllReported(graph, S(), tree, yielded, e);
        }
      }
    }

    method StartRoot()
      requires Valid() && stack == [] && cursor < graph.n && cursor !in disc
      modifies this
      ensures Valid() && yielded == old(yielded) && Unnumbered() < old(Unnumbered())
    {
      ghost var st := S();
      var neighbors := CollectUndirectedNeighbors(graph, cursor);
      Begin(cursor, None, neighbors);
      StartAll(graph, st, tree, neighbors, yielded, cursor, met, left, lower);
      assert S() == Number(st, cursor, None, neighbors);
      cursor, met := cursor + 1, met + [cursor];
      assert Searched(graph, S(), tree, yielded, cursor, met, left, lower);
    }

    /** Past the nodes already numbered. */
    method Skip()
      requires cursor <= graph.n
      modifies this`cursor
      ensures old(cursor) <= cursor <= graph.n && forall v: nat :: old(cursor) <= v < cursor ==> v in disc
      ensures cursor < graph.n ==> cursor !in disc
    {
      while cursor < graph.n && cursor in disc
        invariant old(cursor) <= cursor <= graph.n && forall v: nat :: old(cursor) <= v < cursor ==> v in disc
      {
        cursor := cursor + 1;
      }
    }
  }

  lemma LookReady(g: Digraph, st: Search, tr: set<nat>, eix: nat, neighbor: nat)
    requires Shape(g, st, tr) && Next(st, eix, neighbor)
    requires st.stack[|st.stack| - 1].parentEdge == Some(eix) || neighbor in st.disc
    ensures neighbor in st.disc && st.At(|st.stack| - 1) in st.low
  {
    TopJoins(g, st, tr, eix, neighbor);
    if st.stack[|st.stack| - 1].parentEdge == Some(eix) {
      SkipNumbered(g, st, tr, ByEdge, eix, neighbor);
    }
  }

  lemma LookAll(g: Digraph, st: Search, tr: set<nat>, f: nat, y: nat, st': Search, out: seq<nat>, cursor: nat,
                met: seq<nat>, left: seq<nat>, lower: seq<nat>)
    requires Searched(g, st, tr, out, cursor, met, left, lower) && Looked(g, st, ByEdge, f, y, st')
    ensures Searched(g, st', tr, out, cursor, met, left, lower) && Work(st'.stack) < Work(st.stack)
  {
    TracedLook(g, st, ByEdge, f, y, st', cursor, met, left);
    LookStep(g, st, tr, ByEdge, f, y, st');
    LookReported(g, st, tr, f, y, st', out);
    WorkAdvance(st);
  }

  lemma NumberAll(g: Digraph, st: Search, tr: set<nat>, v: nat, via: Option<nat>, neighbors: seq<(nat, nat)>,
                  out: seq<nat>, cursor: nat, cursor': nat, met: seq<nat>, left: seq<nat>, lower: seq<nat>)
    requires Searched(g, st, tr, out, cursor, met, left, lower) && Fresh(g, st, v, via, neighbors)
    requires FarEnds(g, v, EdgesAt(g, v), neighbors)
    requires if via.Some? then cursor' == cursor else v == cursor && cursor' == cursor + 1
    ensures var st' := Number(Ready(st), v, via, neighbors);
            && Searched(g, st', Tree(tr, via), out, cursor', met + [v], left, lower)
            && |st.disc| < |st'.disc| <= g.n
  {
    var st' := Number(Ready(st), v, via, neighbors);
    if via.Some? {
      TracedEnter(g, st, via.value, v, cursor, met, left, neighbors);
    } else {
      TracedRoot(g, st, cursor, met, left, neighbors);
    }
    AsLeftMet(g, met, left, lower, out, v);
    NumberStep(g, st, tr, ByEdge, v, via, neighbors);
    NumberGrown(g, st, tr, v, via, neighbors);
    if via.Some? {
      TopJoins(g, st, tr, via.value, v);
    }
    NumberReported(g, st, tr, v, via, st', out);
    NumberedMore(g, st, tr, Tree(tr, via), v, via, st');
  }

  lemma StartAll(g: Digraph, st: Search, tr: set<nat>, neighbors: seq<(nat, nat)>, out: seq<nat>, cursor: nat,
                 met: seq<nat>, left: seq<nat>, lower: seq<nat>)
    requires Searched(g, st, tr, out, cursor, met, left, lower)
    requires st.stack == [] && cursor < g.n && cursor !in st.disc
    requires IsIncidence(g, cursor, neighbors) && FarEnds(g, cursor, EdgesAt(g, cursor), neighbors)
    ensures var st' := Number(st, cursor, None, neighbors);
            && Searched(g, st', tr, out, cursor + 1, met + [cursor], left, lower)
            && |st.disc| < |st'.disc| <= g.n
  {
    NumberAll(g, st, tr, cursor, None, neighbors, out, cursor, cursor + 1, met, left, lower);
    assert Tree(tr, None) == tr && Ready(st) == st;
  }

  lemma PopParent(g: Digraph, st: Search, tr: set<nat>)
    requires Shape(g, st, tr) && |st.stack| > 0
    ensures st.At(|st.stack| - 1) in st.disc
    ensures |st.stack| > 1 ==> st.At(|st.stack| - 2) in st.disc && st.At(|st.stack| - 2) != st.At(|st.stack| - 1)
                               && st.stack[|st.stack| - 1].parentEdge.Some?
  {
    var t := |st.stack| - 1;
    assert FrameOk(g, st, t) && Entered(g, st, tr, t);
    if t > 0 {
      assert FrameOk(g, st, t - 1);
    }
  }

  lemma PopAll(g: Digraph, st: Search, tr: set<nat>, st': Search, out: seq<nat>, cursor: nat, met: seq<nat>,
               left: seq<nat>, lower: seq<nat>)
    requires Searched(g, st, tr, out, cursor, met, left, lower) && Exhausted(st) && Popped(st, st')
    ensures var v := st.At(|st.stack| - 1);
            Searched(g, st', tr, Append(out, Yield(st)), cursor, met, left + [v],
                     if Yield(st).Some? then lower + [v] else lower)
    ensures Work(st'.stack) < Work(st.stack)
  {
    TracedPop(g, st, tr, st', cursor, met, left);
    PopAsLeft(g, st, tr, cursor, met, left, lower, out);
    PopStep(g, st, tr, ByEdge, st');
    PopReported(g, st, tr, st', out);
  }

  /** What has been met and left so far is as in the whole search. */
  lemma AsLeftInAll(g: Digraph, st: Search, cursor: nat, met: seq<nat>, left: seq<nat>, lower: seq<nat>,
                    out: seq<nat>)
    requires Traced(g, st, cursor, met, left) && AsLeft(g, Visit(met, left), lower, out)
    ensures g.Valid() && BridgesAsLeft(g, out)
  {
    var roots := Numbers(g.n)[cursor..];
    var rest := Ahead(FarLists(g), Below(g.n), Opens(st.stack), roots, Elems(met));
    CourseFrom(FarLists(g), Below(g.n), Numbers(g.n), met, left, Opens(st.stack), roots);
    ExploreOnce(FarLists(g), Below(g.n), Numbers(g.n), {});
    AsLeftGrows(g, met, left, rest, lower, out);
    assert AsLeft(g, Whole(g), lower, out);
  }

  lemma AsLeftGrows(g: Digraph, met: seq<nat>, left: seq<nat>, rest: Visit, lower: seq<nat>, out: seq<nat>)
    requires AsLeft(g, Visit(met, left), lower, out) && NoDup(left + rest.left)
    ensures AsLeft(g, Visit(met + rest.met, left + rest.left), lower, out)
  {
    var all := Visit(met + rest.met, left + rest.left);
    forall i, j | 0 <= i < j < |lower| ensures Before(all.left, lower[i], lower[j]) {
      PairKeepsOrder(left, lower, i, j);
      BeforeGrows(left, rest.left, lower[i], lower[j]);
    }
    forall k | 0 <= k < |out| ensures Hangs(g, all, out[k], lower[k]) {
      var w: nat :| HangsFrom(g, Visit(met, left), out[k], lower[k], w);
      BeforeRest(left, rest.left, lower[k], w);
      assert HangsFrom(g, all, out[k], lower[k], w);
    }
  }

  lemma BeforeRest(left: seq<nat>, rest: seq<nat>, x: nat, w: nat)
    requires x in left && (w in left ==> Before(left, x, w))
    ensures w in left + rest ==> Before(left + rest, x, w)
  {
    if w in left {
      BeforeGrows(left, rest, x, w);
    } else if w in rest {
      var i :| 0 <= i < |left| && left[i] == x;
      var j :| 0 <= j < |rest| && rest[j] == w;
      assert (left + rest)[i] == x && (left + rest)[|left| + j] == w;
    }
  }

  /** The graph and the order of its lists leave no choice about the order of the bridges. */
  lemma BridgesOnce(g: Digraph, a: seq<nat>, b: seq<nat>)
    requires g.Valid() && NoDup(a) && NoDup(b) && (forall e: nat :: e in a <==> e in b)
    requires BridgesAsLeft(g, a) && BridgesAsLeft(g, b)
    ensures a == b
  {
    var la :| AsLeft(g, Whole(g), la, a);
    var lb :| AsLeft(g, Whole(g), lb, b);
    ExploreOnce(FarLists(g), Below(g.n), Numbers(g.n), {});
    forall x: nat ensures x in la <==> x in lb {
      if x in la {
        SharedLower(g, la, a, lb, b, x);
      }
      if x in lb {
        SharedLower(g, lb, b, la, a, x);
      }
    }
    OrderedOnce(Whole(g).left, la, lb);
    forall k | 0 <= k < |a| ensures a[k] == b[k] {
      SamePlace(g, la, a, b, k);
    }
  }

  lemma SamePlace(g: Digraph, lower: seq<nat>, a: seq<nat>, b: seq<nat>, k: nat)
    requires g.Valid() && AsLeft(g, Whole(g), lower, a) && AsLeft(g, Whole(g), lower, b) && NoDup(Whole(g).left)
    requires (forall e: nat :: e in a ==> e in b) && (forall y: nat :: y in Whole(g).met <==> y in Whole(g).left)
    requires k < |a|
    ensures a[k] == b[k]
  {
    assert a[k] in b;
    var j :| 0 <= j < |b| && b[j] == a[k];
    SameLower(g, a[k], lower[k], lower[j]);
    DistinctLower(g, lower, b, k, j);
  }

  lemma SharedLower(g: Digraph, la: seq<nat>, a: seq<nat>, lb: seq<nat>, b: seq<nat>, x: nat)
    requires g.Valid() && AsLeft(g, Whole(g), la, a) && AsLeft(g, Whole(g), lb, b) && NoDup(Whole(g).left)
    requires (forall e: nat :: e in a ==> e in b) && (forall y: nat :: y in Whole(g).met <==> y in Whole(g).left)
    requires x in la
    ensures x in lb
  {
    var k :| 0 <= k < |la| && la[k] == x;
    assert a[k] in b;
    var j :| 0 <= j < |b| && b[j] == a[k];
    SameLower(g, a[k], la[k], lb[j]);
  }

  lemma SameLower(g: Digraph, e: nat, x: nat, y: nat)
    requires g.Valid() && NoDup(Whole(g).left) && forall z: nat :: z in Whole(g).met <==> z in Whole(g).left
    requires Hangs(g, Whole(g), e, x) && Hangs(g, Whole(g), e, y)
    ensures x == y
  {
    var v: nat :| HangsFrom(g, Whole(g), e, x, v);
    NotBothWays(Whole(g).left, x, v);
    var w: nat :| HangsFrom(g, Whole(g), e, y, w);
  }

  lemma DistinctLower(g: Digraph, lower: seq<nat>, out: seq<nat>, i: nat, j: nat)
    requires g.Valid() && AsLeft(g, Whole(g), lower, out) && NoDup(Whole(g).left)
    requires i < |lower| && j < |lower| && lower[i] == lower[j]
    ensures i == j
  {
    if i < j {
      PairKeepsOrder(Whole(g).left, lower, i, j);
      NotBothWays(Whole(g).left, lower[i], lower[j]);
    } else if j < i {
      PairKeepsOrder(Whole(g).left, lower, j, i);
      NotBothWays(Whole(g).left, lower[j], lower[i]);
    }
  }

  /** The iterator run to its end. */
  method AllBridges(g: Digraph) returns (out: seq<nat>)
    requires g.Valid()
    ensures NoDup(out) && forall e: nat :: e in out <==> IsBridge(g, e)
    ensures BridgesAsLeft(g, out)
  {
    var it := new Bridges(g);
    out := [];
    assert AsLeft(g, Whole(g), [], out);
    var step: Option<nat> := Some(0);
    while step.Some?
      invariant it.Valid() && it.graph == g && fresh(it) && it.yielded == out && BridgesAsLeft(g, out)
      invariant step.None? ==> forall e: nat :: e in out <==> IsBridge(g, e)
      decreases |g.ends| - |out|, step.Some?
    {
      step := it.Next();
      if step.Some? {
        out := out + [step.value];
        YieldBound(g, it.S(), it.tree, out);
      }
    }
  }

  lemma YieldBound(g: Digraph, st: Search, tr: set<nat>, out: seq<nat>)
    requires Reported(g, st, tr, out)
    ensures |out| <= |g.ends|
  {
    ElemsCard(out);
    SubsetCard(Elems(out), Below(|g.ends|));
  }
}
