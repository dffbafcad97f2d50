/** Cut vertices of an undirected multigraph (`src/algo/bridges.rs`). */
module ArticulationPoints {
  import opened Seqs
  import opened Vec
  import opened Graphs
  import opened Undirected
  import opened LowPoint
  import opened DepthFirst

  // ----- what a cut vertex is -----

  ghost predicate Adjacent(g: Digraph, x: nat, y: nat) {
    EdgeLink(g, Edges(g), x, y)
  }

  ghost function Links(g: Digraph): Rel {
    EdgeRel(g, Edges(g))
  }

  /** Adjacency once `a` and its edges are gone. */
  ghost function Avoiding(g: Digraph, a: nat): Rel {
    set x, y | x in Below(g.n) && y in Below(g.n) && x != a && y != a && Adjacent(g, x, y) :: (x, y)
  }

  ghost predicate Separates(g: Digraph, a: nat, p: nat, q: nat) {
    p != a && q != a && Reach(Links(g), p, q) && !Reach(Avoiding(g, a), p, q)
  }

  /** Two other nodes are connected only through `a`. */
  ghost predicate IsCutVertex(g: Digraph, a: nat) {
    exists p: nat, q: nat :: Separates(g, a, p, q)
  }

  lemma AvoidingSymmetric(g: Digraph, a: nat)
    ensures Symmetric(Avoiding(g, a))
  {
    forall x, y | (x, y) in Avoiding(g, a) ensures (y, x) in Avoiding(g, a) {
      AdjacentSym(g, x, y);
    }
  }

  lemma AdjacentSym(g: Digraph, x: nat, y: nat)
    requires Adjacent(g, x, y)
    ensures Adjacent(g, y, x)
  {
    var f :| f in Edges(g) && Joins(g, f, x, y);
    assert Joins(g, f, y, x);
  }

  /** A path that starts away from `a` can be rerouted through `h` whenever it meets `a`, if `h`
      reaches all neighbours of `a` without it. */
  lemma {:induction false} Reroute(g: Digraph, a: nat, h: nat, path: seq<nat>)
    requires IsPath(Links(g), path) && path[0] != a
    requires forall y: nat :: Adjacent(g, a, y) ==> Reach(Avoiding(g, a), h, y)
    ensures var z := path[|path| - 1]; Reach(Avoiding(g, a), path[0], if z == a then h else z)
    decreases |path|
  {
    var r := Avoiding(g, a);
    var p := path[0];
    if |path| == 1 {
      ReachRefl(r, p);
    } else {
      var front := path[..|path| - 1];
      var w, z := path[|path| - 2], path[|path| - 1];
      Reroute(g, a, h, front);
      assert front[|front| - 1] == w && (w, z) in Links(g);
      if z == a {
        AdjacentSym(g, w, a);
        assert w != a;
        AvoidingSymmetric(g, a);
        ReachSym(r, h, w);
        ReachTrans(r, p, w, h);
      } else if w == a {
        ReachTrans(r, p, h, z);
      } else {
        ReachStep(r, p, w, z);
      }
    }
  }

  lemma HubMeansNoCut(g: Digraph, a: nat, h: nat)
    requires forall y: nat :: Adjacent(g, a, y) ==> Reach(Avoiding(g, a), h, y)
    ensures !IsCutVertex(g, a)
  {
    forall p: nat, q: nat ensures !Separates(g, a, p, q) {
      if p != a && q != a && Reach(Links(g), p, q) {
        var path :| PathFrom(Links(g), path, p, q);
        Reroute(g, a, h, path);
      }
    }
  }

  /** Tree edges in a range of numbers avoid any node outside it. */
  lemma TreeAvoids(g: Digraph, st: Search, tr: set<nat>, lo: nat, hi: nat, a: nat)
    requires Shape(g, st, tr) && a in st.disc && !(lo <= st.Num(a) < hi)
    ensures TreeRel(g, st, tr, lo, hi) <= Avoiding(g, a)
  {
    forall x, y | (x, y) in TreeRel(g, st, tr, lo, hi) ensures (x, y) in Avoiding(g, a) {
      assert TreeLink(g, st, tr, lo, hi, x, y);
      var f: nat :| f in tr && Joins(g, f, x, y);
      assert Adjacent(g, x, y);
    }
  }

  lemma SpansAvoids(g: Digraph, st: Search, tr: set<nat>, i: nat, hi: nat, a: nat, x: nat)
    requires Shape(g, st, tr) && Spans(g, st, tr, i, hi) && a in st.disc && !(st.Num(st.At(i)) <= st.Num(a) < hi)
    requires x in st.disc && st.Num(st.At(i)) <= st.Num(x) < hi
    ensures Reach(Avoiding(g, a), st.At(i), x)
  {
    assert Connects(g, st, tr, i, hi, x);
    TreeAvoids(g, st, tr, st.Num(st.At(i)), hi, a);
    ReachMono(TreeRel(g, st, tr, st.Num(st.At(i)), hi), Avoiding(g, a), st.At(i), x);
  }

  // ----- the invariant -----

  function Count(children: map<nat, nat>, v: nat): nat {
    if v in children then children[v] else 0
  }

  /** A node hanging below frame `i` keeps its connection to the root without the frame's node. */
  ghost predicate Anchored(g: Digraph, st: Search, i: nat, x: nat) {
    i < |st.stack| && Reach(Avoiding(g, st.At(i)), st.At(0), x)
  }

  ghost predicate BelowRoot(st: Search, x: nat) {
    InSegment(st, 0, x) && x != st.At(0)
  }

  /** Everything below the root hangs together without it. */
  ghost predicate Hub(g: Digraph, st: Search, h: nat) {
    && st.stack != []
    && forall x {:trigger BelowRoot(st, x)} :: BelowRoot(st, x) ==> Reach(Avoiding(g, st.At(0)), h, x)
  }

  /** The root's children so far, the one under way included. */
  ghost predicate RootOk(g: Digraph, st: Search, children: map<nat, nat>, out: seq<nat>) {
    st.stack != [] ==>
      var c := Count(children, st.At(0));
      if |st.stack| == 1 then
        && (c == 0 ==> forall x {:trigger BelowRoot(st, x)} :: !BelowRoot(st, x))
        && (c == 1 ==> exists h :: Hub(g, st, h))
        && (c >= 1 ==> exists x :: BelowRoot(st, x))
        && (c >= 2 ==> st.At(0) in out)
      else
        && c >= 1
        && (c == 1 ==> forall x {:trigger BelowRoot(st, x)} :: !BelowRoot(st, x))
        && (c >= 2 ==> exists x :: BelowRoot(st, x))
  }

  ghost predicate Judged(g: Digraph, st: Search, out: seq<nat>) {
    && NoDup(out)
    && (forall x {:trigger x in out} :: x in out ==> x in st.disc && IsCutVertex(g, x))
    && (forall x {:trigger IsCutVertex(g, x)} :: Finished(st, x) && IsCutVertex(g, x) ==> x in out)
    && (forall i: nat, x: nat {:trigger Anchored(g, st, i, x)} ::
          1 <= i && InSegment(st, i, x) && x != st.At(i) && st.At(i) !in out ==> Anchored(g, st, i, x))
  }

  ghost predicate ParentOk(st: Search, parent: map<nat, Option<nat>>, i: nat)
    requires i < |st.stack|
  {
    st.At(i) in parent && parent[st.At(i)] == if i == 0 then None else Some(st.At(i - 1))
  }

  ghost predicate ParentsOk(st: Search, parent: map<nat, Option<nat>>) {
    forall i: nat {:trigger ParentOk(st, parent, i)} :: i < |st.stack| ==> ParentOk(st, parent, i)
  }

  ghost predicate CutInv(g: Digraph, st: Search, tr: set<nat>, children: map<nat, nat>, parent: map<nat, Option<nat>>,
                         out: seq<nat>)
  {
    && Inv(g, st, tr, ByNode) && RootOk(g, st, children, out) && Judged(g, st, out) && ParentsOk(st, parent)
    && children.Keys <= st.disc.Keys
  }

  // ----- looking at a numbered neighbour -----

  lemma LookCut(g: Digraph, st: Search, tr: set<nat>, children: map<nat, nat>, parent: map<nat, Option<nat>>,
                out: seq<nat>, f: nat, y: nat, st': Search)
    requires CutInv(g, st, tr, children, parent, out) && Looked(g, st, ByNode, f, y, st')
    ensures CutInv(g, st', tr, children, parent, out)
  {
    LookStep(g, st, tr, ByNode, f, y, st');
    NudgedSame(st, st', ByNode);
    forall i: nat, x: nat ensures InSegment(st', i, x) == InSegment(st, i, x) {
      assert i + 1 < |st.stack| ==> st'.At(i + 1) == st.At(i + 1);
    }
    forall x: nat ensures BelowRoot(st', x) == BelowRoot(st, x) {
      assert st'.At(0) == st.At(0);
    }
    assert RootOk(g, st', children, out) by {
      if h :| Hub(g, st, h) {
        assert Hub(g, st', h);
      }
    }
    forall i: nat, x: nat | 1 <= i && InSegment(st', i, x) && x != st'.At(i) && st'.At(i) !in out
      ensures Anchored(g, st', i, x)
    {
      assert InSegment(st, i, x);
      assert Anchored(g, st, i, x);
    }
    forall i: nat | i < |st'.stack| ensures ParentOk(st', parent, i) {
      assert ParentOk(st, parent, i) && st.At(i) == st'.At(i);
      assert i > 0 ==> st'.At(i - 1) == st.At(i - 1);
    }
  }

  // ----- numbering a node -----

  lemma NumberCut(g: Digraph, st: Search, tr: set<nat>, children: map<nat, nat>, parent: map<nat, Option<nat>>,
                  out: seq<nat>, v: nat, via: Option<nat>, neighbors: seq<(nat, nat)>, children': map<nat, nat>,
                  parent': map<nat, Option<nat>>)
    requires CutInv(g, st, tr, children, parent, out) && Fresh(g, st, v, via, neighbors)
    requires st.stack == [] ==> children' == children && parent' == parent[v := None]
    requires st.stack != [] ==> var u := st.At(|st.stack| - 1);
                                children' == children[u := Count(children, u) + 1] && parent' == parent[v := Some(u)]
    ensures CutInv(g, Number(Ready(st), v, via, neighbors), Tree(tr, via), children', parent', out)
    ensures |st.disc| < |Number(Ready(st), v, via, neighbors).disc| <= g.n
  {
    var st' := Number(Ready(st), v, via, neighbors);
    NumberStep(g, st, tr, ByNode, v, via, neighbors);
    NumberGrown(g, st, tr, v, via, neighbors);
    NumberedMore(g, st, tr, Tree(tr, via), v, via, st');
    GrownRoot(g, st, children, out, v, via, st', children');
    GrownJudged(g, st, out, v, via, st');
    GrownParents(st, v, via, st', parent, parent');
  }

  lemma GrownParents(st: Search, v: nat, via: Option<nat>, st': Search, parent: map<nat, Option<nat>>,
                     parent': map<nat, Option<nat>>)
    requires Grown(st, v, via, st') && ParentsOk(st, parent)
    requires parent' == parent[v := if st.stack == [] then None else Some(st.At(|st.stack| - 1))]
    ensures ParentsOk(st', parent')
  {
    forall i: nat | i < |st'.stack| ensures ParentOk(st', parent', i) {
      assert i > 0 ==> st'.At(i - 1) == st.At(i - 1);
      if i < |st.stack| {
        assert ParentOk(st, parent, i) && st'.At(i) == st.At(i);
      }
    }
  }

  lemma GrownSegment(st: Search, v: nat, via: Option<nat>, st': Search, i: nat, x: nat)
    requires Grown(st, v, via, st')
    ensures InSegment(st', i, x) <==> if i < |st.stack| then InSegment(st, i, x) else i == |st.stack| && x == v
  {
    assert i + 1 < |st.stack| ==> st'.At(i + 1) == st.At(i + 1);
    assert i < |st.stack| ==> st'.At(i) == st.At(i);
  }

  lemma GrownRoot(g: Digraph, st: Search, children: map<nat, nat>, out: seq<nat>, v: nat, via: Option<nat>, st': Search,
                  children': map<nat, nat>)
    requires Grown(st, v, via, st') && RootOk(g, st, children, out) && children.Keys <= st.disc.Keys
    requires forall i: nat :: 0 < i < |st.stack| ==> st.At(i) != st.At(0)
    requires st.stack == [] ==> children' == children
    requires st.stack != [] ==> var u := st.At(|st.stack| - 1); children' == children[u := Count(children, u) + 1]
    ensures RootOk(g, st', children', out)
  {
    if st.stack != [] {
      assert st'.At(0) == st.At(0);
      forall x: nat ensures BelowRoot(st', x) == BelowRoot(st, x) {
        GrownSegment(st, v, via, st', 0, x);
      }
    } else {
      forall x: nat ensures !BelowRoot(st', x) {
        GrownSegment(st, v, via, st', 0, x);
      }
    }
  }

  lemma GrownJudged(g: Digraph, st: Search, out: seq<nat>, v: nat, via: Option<nat>, st': Search)
    requires Grown(st, v, via, st') && Judged(g, st, out)
    ensures Judged(g, st', out)
  {
    assert forall i: nat :: i < |st.stack| ==> st'.At(i) == st.At(i);
    forall x: nat | Finished(st', x) ensures Finished(st, x) {
      assert st'.At(|st.stack|) == v;
    }
    forall i: nat, x: nat | 1 <= i && InSegment(st', i, x) && x != st'.At(i) && st'.At(i) !in out
      ensures Anchored(g, st', i, x)
    {
      GrownSegment(st, v, via, st', i, x);
      assert st'.At(i) == st.At(i) && st'.At(0) == st.At(0);
      assert Anchored(g, st, i, x);
    }
  }

  // ----- leaving a node -----

  /** The parent of the top node is found to be a cut vertex. */
  ghost predicate CutFound(st: Search, children: map<nat, nat>) {
    && |st.stack| > 1
    && if |st.stack| == 2 then Count(children, st.At(0)) >= 2
       else st.Low(st.At(|st.stack| - 1)) >= st.Num(st.At(|st.stack| - 2))
  }

  ghost function Yield(st: Search, children: map<nat, nat>, out: seq<nat>): Option<nat> {
    if CutFound(st, children) && st.At(|st.stack| - 2) !in out then Some(st.At(|st.stack| - 2)) else None
  }

  ghost function Append(out: seq<nat>, y: Option<nat>): seq<nat> {
    if y.Some? then out + [y.value] else out
  }

  /** The finished subtree is cut off from the rest by its parent. */
  lemma SubtreeStays(g: Digraph, st: Search, tr: set<nat>, children: map<nat, nat>, q: nat)
    requires Inv(g, st, tr, ByNode) && Exhausted(st) && CutFound(st, children)
    requires Reach(Avoiding(g, st.At(|st.stack| - 2)), st.At(|st.stack| - 1), q)
    ensures q in st.disc && st.Num(st.At(|st.stack| - 1)) <= st.Num(q)
  {
    var t := |st.stack| - 1;
    var u, v := st.At(t - 1), st.At(t);
    assert FrameOk(g, st, t);
    var sub := set x | x in st.disc && st.Num(v) <= st.Num(x);
    forall x, y | (x, y) in Avoiding(g, u) && x in sub ensures y in sub {
      var f: nat :| Joins(g, f, x, y);
      SubtreeEdge(g, st, tr, ByNode, f, x, y);
      assert t > 1 ==> st.Num(st.At(0)) < st.Num(u);
      assert EdgeCovered(st, ByNode, t, f, x, y);
      if y !in sub {
        OuterIsFrame(g, st, tr, ByNode, f, x, y);
        LowAboveRoot(g, st, tr, ByNode, f, x, y);
        assert false;
      }
    }
    ReachStays(Avoiding(g, u), sub, v, q);
  }

  /** A node the finished subtree is cut off from; below the root when its parent is the root. */
  lemma FoundSeparates(g: Digraph, st: Search, tr: set<nat>, children: map<nat, nat>, out: seq<nat>) returns (q: nat)
    requires Inv(g, st, tr, ByNode) && RootOk(g, st, children, out) && Exhausted(st) && CutFound(st, children)
    ensures Separates(g, st.At(|st.stack| - 2), st.At(|st.stack| - 1), q)
    ensures |st.stack| == 2 ==> BelowRoot(st, q)
  {
    var t := |st.stack| - 1;
    var u, v := st.At(t - 1), st.At(t);
    var r := Links(g);
    assert FrameOk(g, st, t) && FrameOk(g, st, t - 1) && Entered(g, st, tr, t) && Entered(g, st, tr, t - 1);
    assert st.Num(u) < st.Num(v);
    assert Joins(g, st.stack[t].parentEdge.value, v, u) && Adjacent(g, v, u);
    assert (v, u) in r;
    ReachEdge(r, v, u);
    if t == 1 {
      q :| BelowRoot(st, q);
      assert Spans(g, st, tr, 0, st.timer);
      assert Connects(g, st, tr, 0, st.timer, q);
      TreeLinks(g, st, tr, st.Num(u), st.timer);
      ReachMono(TreeRel(g, st, tr, st.Num(u), st.timer), r, u, q);
      ReachTrans(r, v, u, q);
    } else {
      q := st.At(t - 2);
      assert FrameOk(g, st, t - 2) && st.Num(q) < st.Num(u);
      assert Joins(g, st.stack[t - 1].parentEdge.value, u, q) && Adjacent(g, u, q);
      assert (u, q) in r;
      ReachStep(r, v, u, q);
    }
    if Reach(Avoiding(g, u), v, q) {
      SubtreeStays(g, st, tr, children, q);
    }
  }

  lemma FoundIsCut(g: Digraph, st: Search, tr: set<nat>, children: map<nat, nat>, out: seq<nat>)
    requires Inv(g, st, tr, ByNode) && RootOk(g, st, children, out) && Exhausted(st) && CutFound(st, children)
    ensures IsCutVertex(g, st.At(|st.stack| - 2)) && st.At(|st.stack| - 2) in st.disc
  {
    var q := FoundSeparates(g, st, tr, children, out);
    assert FrameOk(g, st, |st.stack| - 2);
  }

  lemma TreeLinks(g: Digraph, st: Search, tr: set<nat>, lo: nat, hi: nat)
    requires Shape(g, st, tr)
    ensures TreeRel(g, st, tr, lo, hi) <= Links(g)
  {
    forall x, y | (x, y) in TreeRel(g, st, tr, lo, hi) ensures (x, y) in Links(g) {
      assert TreeLink(g, st, tr, lo, hi, x, y);
      var f: nat :| f in tr && Joins(g, f, x, y);
      assert Adjacent(g, x, y);
    }
  }

  /** A node left without having been found is no cut vertex. */
  lemma LeftIsNoCut(g: Digraph, st: Search, tr: set<nat>, children: map<nat, nat>, out: seq<nat>)
    requires Inv(g, st, tr, ByNode) && RootOk(g, st, children, out) && Judged(g, st, out) && Exhausted(st)
    requires st.At(|st.stack| - 1) !in out
    ensures !IsCutVertex(g, st.At(|st.stack| - 1))
  {
    var t := |st.stack| - 1;
    var v := st.At(t);
    assert FrameOk(g, st, t);
    var h: nat := st.At(0);
    if t == 0 {
      var c := Count(children, v);
      if c == 1 {
        h :| Hub(g, st, h);
      }
    }
    forall y: nat | Adjacent(g, v, y) ensures Reach(Avoiding(g, v), h, y) {
      var f: nat :| Joins(g, f, v, y);
      SubtreeEdge(g, st, tr, ByNode, f, v, y);
      assert t > 0 ==> st.Num(st.At(0)) < st.Num(v);
      LowAboveRoot(g, st, tr, ByNode, f, v, y);
      if t == 0 {
        assert BelowRoot(st, y);
      } else if st.Num(y) < st.Num(v) {
        assert Spans(g, st, tr, 0, st.Num(st.At(t)));
        SpansAvoids(g, st, tr, 0, st.Num(v), v, y);
      } else {
        assert InSegment(st, t, y);
        assert Anchored(g, st, t, y);
      }
    }
    HubMeansNoCut(g, v, h);
  }

  /** A subtree that reaches past its parent keeps its connection to the root without it. */
  lemma SubtreeAnchored(g: Digraph, st: Search, tr: set<nat>, x: nat)
    requires Inv(g, st, tr, ByNode) && |st.stack| > 2
    requires st.Low(st.At(|st.stack| - 1)) < st.Num(st.At(|st.stack| - 2))
    requires x in st.disc && st.Num(st.At(|st.stack| - 1)) <= st.Num(x)
    ensures Reach(Avoiding(g, st.At(|st.stack| - 2)), st.At(0), x)
  {
    var t := |st.stack| - 1;
    var u, v := st.At(t - 1), st.At(t);
    var r := Avoiding(g, u);
    assert FrameOk(g, st, t - 1) && FrameOk(g, st, t);
    assert st.Num(u) < st.Num(v) && st.Num(st.At(0)) < st.Num(u);
    assert LowReached(g, st, ByNode, t);
    var f: nat, x': nat, y: nat :| LowAt(g, st, ByNode, t, f, x', y);
    LowAboveRoot(g, st, tr, ByNode, f, x', y);
    assert Spans(g, st, tr, t, st.timer) && Spans(g, st, tr, 0, st.Num(st.At(t - 1)));
    SpansAvoids(g, st, tr, t, st.timer, u, x);
    SpansAvoids(g, st, tr, t, st.timer, u, x');
    SpansAvoids(g, st, tr, 0, st.Num(u), u, y);
    AvoidingSymmetric(g, u);
    ReachSym(r, v, x');
    assert Joins(g, f, y, x') && Adjacent(g, y, x');
    ReachStep(r, st.At(0), y, x');
    ReachTrans(r, st.At(0), x', v);
    ReachTrans(r, st.At(0), v, x);
  }

  lemma PopCut(g: Digraph, st: Search, tr: set<nat>, children: map<nat, nat>, parent: map<nat, Option<nat>>,
               out: seq<nat>, st': Search)
    requires CutInv(g, st, tr, children, parent, out) && Exhausted(st) && Popped(st, st')
    ensures CutInv(g, st', tr, children, parent, Append(out, Yield(st, children, out)))
  {
    PopStep(g, st, tr, ByNode, st');
    PopSame(g, st, tr, ByNode, st');
    PopRoot(g, st, tr, children, out, st');
    PopJudged(g, st, tr, children, out, st');
    forall i: nat | i < |st'.stack| ensures ParentOk(st', parent, i) {
      assert ParentOk(st, parent, i) && st'.At(i) == st.At(i);
      assert i > 0 ==> st'.At(i - 1) == st.At(i - 1);
    }
  }

  lemma PopSegment(g: Digraph, st: Search, tr: set<nat>, st': Search, i: nat, x: nat)
    requires Shape(g, st, tr) && Popped(st, st') && InSegment(st', i, x)
    ensures InSegment(st, i, x) || (i == |st.stack| - 2 && InSegment(st, |st.stack| - 1, x))
  {
    PopSame(g, st, tr, ByNode, st');
    assert i + 1 < |st'.stack| ==> st'.At(i + 1) == st.At(i + 1);
  }

  lemma PopRoot(g: Digraph, st: Search, tr: set<nat>, children: map<nat, nat>, out: seq<nat>, st': Search)
    requires Inv(g, st, tr, ByNode) && RootOk(g, st, children, out) && Popped(st, st')
    ensures RootOk(g, st', children, Append(out, Yield(st, children, out)))
  {
    if st'.stack != [] {
      PopSame(g, st, tr, ByNode, st');
      var t := |st.stack| - 1;
      var r := st.At(0);
      assert st'.At(0) == r && FrameOk(g, st, t) && FrameOk(g, st, 0);
      assert st.Num(r) < st.Num(st.At(t));
      if t == 1 {
        assert BelowRoot(st', st.At(t));
        if Count(children, r) == 1 {
          forall x | BelowRoot(st', x) ensures Reach(Avoiding(g, r), st.At(t), x) {
            PopSegment(g, st, tr, st', 0, x);
            assert !BelowRoot(st, x);
            assert Spans(g, st, tr, t, st.timer);
            SpansAvoids(g, st, tr, t, st.timer, r, x);
          }
          assert Hub(g, st', st.At(t));
        }
      } else {
        forall x: nat ensures BelowRoot(st', x) == BelowRoot(st, x) {
          assert st'.At(1) == st.At(1);
        }
      }
    }
  }

  lemma PopJudged(g: Digraph, st: Search, tr: set<nat>, children: map<nat, nat>, out: seq<nat>, st': Search)
    requires Inv(g, st, tr, ByNode) && RootOk(g, st, children, out) && Judged(g, st, out) && Exhausted(st)
    requires Popped(st, st')
    ensures Judged(g, st', Append(out, Yield(st, children, out)))
  {
    var t := |st.stack| - 1;
    var y := Yield(st, children, out);
    var out' := Append(out, y);
    PopSame(g, st, tr, ByNode, st');
    if y.Some? {
      FoundIsCut(g, st, tr, children, out);
      assert forall i :: 0 <= i < |out| ==> out[i] in out;
    }
    assert NoDup(out');
    forall x | x in out' ensures x in st'.disc && IsCutVertex(g, x) {
      assert x in out || y == Some(x);
    }
    forall x: nat | Finished(st', x) && IsCutVertex(g, x) ensures x in out' {
      if x == st.At(t) {
        if x !in out {
          LeftIsNoCut(g, st, tr, children, out);
        }
      } else {
        assert Finished(st, x);
      }
    }
    forall i: nat, x: nat | 1 <= i && InSegment(st', i, x) && x != st'.At(i) && st'.At(i) !in out'
      ensures Anchored(g, st', i, x)
    {
      PopAnchored(g, st, tr, children, out, st', i, x);
    }
  }

  lemma PopAnchored(g: Digraph, st: Search, tr: set<nat>, children: map<nat, nat>, out: seq<nat>, st': Search, i: nat,
                    x: nat)
    requires Inv(g, st, tr, ByNode) && RootOk(g, st, children, out) && Judged(g, st, out) && Exhausted(st)
    requires Popped(st, st')
    requires 1 <= i && InSegment(st', i, x) && x != st'.At(i) && st'.At(i) !in Append(out, Yield(st, children, out))
    ensures Anchored(g, st', i, x)
  {
    var t := |st.stack| - 1;
    PopSame(g, st, tr, ByNode, st');
    PopSegment(g, st, tr, st', i, x);
    assert st'.At(i) == st.At(i) && st'.At(0) == st.At(0);
    if InSegment(st, i, x) {
      assert Anchored(g, st, i, x);
    } else {
      SubtreeAnchored(g, st, tr, x);
    }
  }

  // ----- when a cut vertex is found -----

  /** All that hangs together with `x` once `a` is gone has been left. */
  ghost predicate PartLeft(g: Digraph, left: seq<nat>, a: nat, x: nat) {
    forall y: nat {:trigger Reach(Avoiding(g, a), x, y)} :: Reach(Avoiding(g, a), x, y) ==> y in left
  }

  /** The search enters the component of `a` at `a`. */
  ghost predicate IsLeast(g: Digraph, a: nat) {
    forall y: nat {:trigger Reach(Links(g), a, y)} :: Reach(Links(g), a, y) ==> a <= y
  }

  ghost predicate CutWitness(g: Digraph, left: seq<nat>, a: nat, x: nat, q: nat) {
    Separates(g, a, x, q) && PartLeft(g, left, a, x) && (IsLeast(g, a) ==> PartLeft(g, left, a, q))
  }

  /** What has been left shows that `a` is a cut vertex: it holds a whole part that `a` cuts off, or
      two parts when the search enters at `a`. */
  ghost predicate CutBy(g: Digraph, left: seq<nat>, a: nat) {
    exists x: nat, q: nat :: CutWitness(g, left, a, x, q)
  }

  lemma CutMore(g: Digraph, left: seq<nat>, left': seq<nat>, a: nat)
    requires CutBy(g, left, a) && forall x :: x in left ==> x in left'
    ensures CutBy(g, left', a)
  {
    var x: nat, q: nat :| CutWitness(g, left, a, x, q);
    assert CutWitness(g, left', a, x, q);
  }

  lemma LinksSymmetric(g: Digraph)
    ensures Symmetric(Links(g))
  {
    EdgeRelSymmetric(g, Edges(g));
  }

  lemma AvoidingWithin(g: Digraph, a: nat, x: nat, y: nat)
    requires Reach(Avoiding(g, a), x, y) && x != a
    ensures y != a && Reach(Links(g), x, y)
  {
    var p :| PathFrom(Avoiding(g, a), p, x, y);
    if |p| > 1 {
      assert (p[|p| - 2], p[|p| - 1]) in Avoiding(g, a);
    }
    assert Avoiding(g, a) <= Links(g);
    ReachMono(Avoiding(g, a), Links(g), x, y);
  }

  lemma SeparatesSym(g: Digraph, a: nat, x: nat, q: nat)
    requires Separates(g, a, x, q)
    ensures Separates(g, a, q, x)
  {
    LinksSymmetric(g);
    AvoidingSymmetric(g, a);
    ReachSym(Links(g), x, q);
    if Reach(Avoiding(g, a), q, x) {
      ReachSym(Avoiding(g, a), q, x);
    }
  }

  /** Nodes separated by `a` are connected to it. */
  lemma SeparatedReach(g: Digraph, a: nat, x: nat, q: nat)
    requires Separates(g, a, x, q)
    ensures Reach(Links(g), x, a)
  {
    var p :| PathFrom(Links(g), p, x, q);
    if i :| 0 <= i < |p| && p[i] == a {
      assert PathFrom(Links(g), p[..i + 1], x, a);
    } else {
      assert PathFrom(Avoiding(g, a), p, x, q) by {
        forall i | 0 <= i < |p| - 1 ensures (p[i], p[i + 1]) in Avoiding(g, a) {
          assert (p[i], p[i + 1]) in Links(g) && p[i] != a && p[i + 1] != a;
        }
      }
    }
  }

  /** Nodes below the root's index were numbered before the root. */
  ghost predicate EnteredAtLeast(st: Search) {
    st.stack != [] ==> forall v: nat :: v < st.At(0) ==> v in st.disc && st.Num(v) < st.Num(st.At(0))
  }

  /** Nodes numbered before the tree under way. */
  ghost function Earlier(st: Search): set<nat>
    requires st.stack != []
  {
    set v | v in st.disc && st.Num(v) < st.Num(st.At(0))
  }

  lemma EarlierFinished(g: Digraph, st: Search, tr: set<nat>, x: nat)
    requires Shape(g, st, tr) && st.stack != [] && x in Earlier(st)
    ensures Finished(st, x)
  {
    forall i: nat | i < |st.stack| ensures st.At(i) != x {
      assert i > 0 ==> st.Num(st.At(0)) < st.Num(st.At(i));
    }
  }

  lemma EarlierClosed(g: Digraph, st: Search, tr: set<nat>)
    requires Inv(g, st, tr, ByNode) && st.stack != []
    ensures Closed(Links(g), Earlier(st))
  {
    forall x, y | (x, y) in Links(g) && x in Earlier(st) ensures y in Earlier(st) {
      assert Adjacent(g, x, y);
      var f: nat :| Joins(g, f, x, y);
      EarlierFinished(g, st, tr, x);
      FinishedProcessed(g, st, f, x, y);
      assert BelowFrame(st, 0, x);
      assert BelowFrame(st, 0, y);
    }
  }

  /** What is connected to the root of the tree under way belongs to the tree. */
  lemma NotEarlier(g: Digraph, st: Search, tr: set<nat>, y: nat)
    requires Inv(g, st, tr, ByNode) && st.stack != [] && Reach(Links(g), st.At(0), y)
    ensures y !in Earlier(st)
  {
    EarlierClosed(g, st, tr);
    LinksSymmetric(g);
    ReachSym(Links(g), st.At(0), y);
    if y in Earlier(st) {
      ReachStays(Links(g), Earlier(st), y, st.At(0));
    }
  }

  lemma RootIsLeast(g: Digraph, st: Search, tr: set<nat>)
    requires Inv(g, st, tr, ByNode) && st.stack != [] && EnteredAtLeast(st)
    ensures IsLeast(g, st.At(0))
  {
    forall y: nat | Reach(Links(g), st.At(0), y) ensures st.At(0) <= y {
      NotEarlier(g, st, tr, y);
    }
  }

  lemma InnerNotLeast(g: Digraph, st: Search, tr: set<nat>, i: nat)
    requires Inv(g, st, tr, ByNode) && EnteredAtLeast(st) && 0 < i < |st.stack|
    ensures Reach(Links(g), st.At(i), st.At(0)) && !IsLeast(g, st.At(i))
  {
    RootReachesFrame(g, st, tr, i);
    RootIsLeast(g, st, tr);
    LinksSymmetric(g);
    ReachSym(Links(g), st.At(0), st.At(i));
  }

  lemma RootReachesFrame(g: Digraph, st: Search, tr: set<nat>, i: nat)
    requires Inv(g, st, tr, ByNode) && 0 < i < |st.stack|
    ensures Reach(Links(g), st.At(0), st.At(i)) && st.At(0) != st.At(i)
  {
    assert FrameOk(g, st, i) && Spans(g, st, tr, 0, st.timer);
    assert st.Num(st.At(0)) < st.Num(st.At(i));
    assert Connects(g, st, tr, 0, st.timer, st.At(i));
    TreeLinks(g, st, tr, st.Num(st.At(0)), st.timer);
    ReachMono(TreeRel(g, st, tr, st.Num(st.At(0)), st.timer), Links(g), st.At(0), st.At(i));
  }

  lemma SubtreeFinished(g: Digraph, st: Search, tr: set<nat>, x: nat)
    requires Shape(g, st, tr) && st.stack != [] && x in st.disc && st.Num(st.At(|st.stack| - 1)) <= st.Num(x)
    ensures x == st.At(|st.stack| - 1) || Finished(st, x)
  {
    forall i: nat | i < |st.stack| - 1 ensures st.At(i) != x {
      assert st.Num(st.At(i)) < st.Num(st.At(|st.stack| - 1));
    }
  }

  /** The subtree a found cut vertex cuts off has been left with the node on top. */
  lemma FoundPart(g: Digraph, st: Search, tr: set<nat>, children: map<nat, nat>, cursor: nat, met: seq<nat>,
                  left: seq<nat>)
    requires Inv(g, st, tr, ByNode) && Exhausted(st) && CutFound(st, children) && Traced(g, st, cursor, met, left)
    ensures var t := |st.stack| - 1; PartLeft(g, left + [st.At(t)], st.At(t - 1), st.At(t))
  {
    var t := |st.stack| - 1;
    forall y: nat | Reach(Avoiding(g, st.At(t - 1)), st.At(t), y) ensures y in left + [st.At(t)] {
      SubtreeStays(g, st, tr, children, y);
      SubtreeFinished(g, st, tr, y);
      assert y in left || y == st.At(t);
    }
  }

  /** So has what hangs below the root from before. */
  lemma RootPart(g: Digraph, st: Search, tr: set<nat>, cursor: nat, met: seq<nat>, left: seq<nat>, q: nat)
    requires Inv(g, st, tr, ByNode) && |st.stack| == 2 && Traced(g, st, cursor, met, left) && BelowRoot(st, q)
    ensures PartLeft(g, left, st.At(0), q)
  {
    var r := Avoiding(g, st.At(0));
    var below := set x | x in st.disc && BelowRoot(st, x);
    forall x, y | (x, y) in r && x in below ensures y in below {
      BelowRootStep(g, st, tr, x, y);
    }
    forall y: nat | Reach(r, q, y) ensures y in left {
      ReachStays(r, below, q, y);
      BelowRootFinished(g, st, tr, y);
    }
  }

  lemma BelowRootFinished(g: Digraph, st: Search, tr: set<nat>, x: nat)
    requires Shape(g, st, tr) && |st.stack| == 2 && BelowRoot(st, x)
    ensures Finished(st, x)
  {
    forall i: nat | i < |st.stack| ensures st.At(i) != x {
      assert i == 0 || i == 1;
    }
  }

  lemma BelowRootStep(g: Digraph, st: Search, tr: set<nat>, x: nat, y: nat)
    requires Inv(g, st, tr, ByNode) && |st.stack| == 2 && BelowRoot(st, x) && (x, y) in Avoiding(g, st.At(0))
    ensures BelowRoot(st, y)
  {
    var f: nat :| Joins(g, f, x, y);
    BelowRootFinished(g, st, tr, x);
    FinishedProcessed(g, st, f, x, y);
    LowAboveRoot(g, st, tr, ByNode, f, x, y);
    assert BelowFrame(st, 1, x);
    assert BelowFrame(st, 1, y);
  }

  lemma FoundCutBy(g: Digraph, st: Search, tr: set<nat>, children: map<nat, nat>, out: seq<nat>, cursor: nat,
                   met: seq<nat>, left: seq<nat>)
    requires Inv(g, st, tr, ByNode) && RootOk(g, st, children, out) && Exhausted(st) && CutFound(st, children)
    requires EnteredAtLeast(st) && Traced(g, st, cursor, met, left)
    ensures CutBy(g, left + [st.At(|st.stack| - 1)], st.At(|st.stack| - 2))
  {
    var t := |st.stack| - 1;
    var q := FoundSeparates(g, st, tr, children, out);
    FoundPart(g, st, tr, children, cursor, met, left);
    if t == 1 {
      RootPart(g, st, tr, cursor, met, left, q);
    } else {
      InnerNotLeast(g, st, tr, t - 1);
    }
    assert CutWitness(g, left + [st.At(t)], st.At(t - 1), st.At(t), q);
  }

  // ----- and not before -----

  lemma PartGains(g: Digraph, left: seq<nat>, c: nat, a: nat, x: nat)
    requires PartLeft(g, left + [c], a, x) && !PartLeft(g, left, a, x)
    ensures Reach(Avoiding(g, a), x, c)
  {
    var y: nat :| Reach(Avoiding(g, a), x, y) && y !in left;
    assert y in left + [c] && y == c;
  }

  /** The part of `x` that leaving the top node completes reaches its parent unless that is `a`. */
  lemma GainsParent(g: Digraph, st: Search, tr: set<nat>, cursor: nat, met: seq<nat>, left: seq<nat>, a: nat, x: nat)
    requires Inv(g, st, tr, ByNode) && |st.stack| > 1 && Traced(g, st, cursor, met, left)
    requires x != a && a != st.At(|st.stack| - 2)
    requires PartLeft(g, left + [st.At(|st.stack| - 1)], a, x) && Reach(Avoiding(g, a), x, st.At(|st.stack| - 1))
    ensures st.At(|st.stack| - 2) in left + [st.At(|st.stack| - 1)]
  {
    var t := |st.stack| - 1;
    var c, p := st.At(t), st.At(t - 1);
    OpenFrames(g, st, tr, cursor, met, left);
    AvoidingWithin(g, a, x, c);
    assert Adjacent(g, c, p) && (c, p) in Avoiding(g, a);
    ReachStep(Avoiding(g, a), x, c, p);
  }

  /** A part of a cut-off parent that holds a way round it reaches the root. */
  lemma GainsRoot(g: Digraph, st: Search, tr: set<nat>, left: seq<nat>, x: nat)
    requires Inv(g, st, tr, ByNode) && |st.stack| > 2
    requires st.Low(st.At(|st.stack| - 1)) < st.Num(st.At(|st.stack| - 2))
    requires var t := |st.stack| - 1;
             && PartLeft(g, left + [st.At(t)], st.At(t - 1), x)
             && Reach(Avoiding(g, st.At(t - 1)), x, st.At(t))
    ensures st.At(0) in left + [st.At(|st.stack| - 1)]
  {
    var t := |st.stack| - 1;
    var c, r := st.At(t), Avoiding(g, st.At(t - 1));
    assert FrameOk(g, st, t);
    SubtreeAnchored(g, st, tr, c);
    AvoidingSymmetric(g, st.At(t - 1));
    ReachSym(r, st.At(0), c);
    ReachTrans(r, x, c, st.At(0));
  }

  lemma LowerOpen(g: Digraph, st: Search, tr: set<nat>, cursor: nat, met: seq<nat>, left: seq<nat>, i: nat)
    requires Shape(g, st, tr) && Traced(g, st, cursor, met, left) && i < |st.stack| - 1
    ensures st.At(i) !in left + [st.At(|st.stack| - 1)]
  {
    assert !Finished(st, st.At(i));
    assert st.Num(st.At(i)) < st.Num(st.At(|st.stack| - 1));
  }

  /** Under a root with one child nothing is separated. */
  lemma OneChildTogether(g: Digraph, st: Search, tr: set<nat>, children: map<nat, nat>, out: seq<nat>, cursor: nat,
                         met: seq<nat>, left: seq<nat>, x: nat, q: nat)
    requires Inv(g, st, tr, ByNode) && RootOk(g, st, children, out) && |st.stack| == 2
    requires Traced(g, st, cursor, met, left) && Separates(g, st.At(0), x, q)
    requires x in left + [st.At(1)] && q in left + [st.At(1)]
    ensures CutFound(st, children)
  {
    if !CutFound(st, children) {
      var r := Avoiding(g, st.At(0));
      UnderChild(g, st, tr, children, out, cursor, met, left, x, q);
      SeparatesSym(g, st.At(0), x, q);
      UnderChild(g, st, tr, children, out, cursor, met, left, q, x);
      AvoidingSymmetric(g, st.At(0));
      ReachSym(r, st.At(1), x);
      ReachTrans(r, x, st.At(1), q);
    }
  }

  lemma UnderChild(g: Digraph, st: Search, tr: set<nat>, children: map<nat, nat>, out: seq<nat>, cursor: nat,
                   met: seq<nat>, left: seq<nat>, x: nat, q: nat)
    requires Inv(g, st, tr, ByNode) && RootOk(g, st, children, out) && |st.stack| == 2 && !CutFound(st, children)
    requires Traced(g, st, cursor, met, left) && Separates(g, st.At(0), x, q) && x in left + [st.At(1)]
    ensures Reach(Avoiding(g, st.At(0)), st.At(1), x)
  {
    assert FrameOk(g, st, 0) && FrameOk(g, st, 1) && st.Num(st.At(0)) < st.Num(st.At(1));
    assert x in left ==> Finished(st, x);
    assert x in st.disc;
    SeparatedReach(g, st.At(0), x, q);
    LinksSymmetric(g);
    ReachSym(Links(g), x, st.At(0));
    NotEarlier(g, st, tr, x);
    assert !BelowRoot(st, x);
    assert Spans(g, st, tr, 1, st.timer);
    SpansAvoids(g, st, tr, 1, st.timer, st.At(0), x);
  }

  /** With the root the whole component has been left. */
  lemma ComponentLeft(g: Digraph, st: Search, tr: set<nat>, cursor: nat, met: seq<nat>, left: seq<nat>, y: nat)
    requires Inv(g, st, tr, ByNode) && Exhausted(st) && |st.stack| == 1 && Traced(g, st, cursor, met, left)
    requires Reach(Links(g), st.At(0), y)
    ensures y in left + [st.At(0)]
  {
    assert FrameOk(g, st, 0);
    var tree := set x | x in st.disc && st.Num(st.At(0)) <= st.Num(x);
    forall x, z | (x, z) in Links(g) && x in tree ensures z in tree {
      assert Adjacent(g, x, z);
      var f: nat :| Joins(g, f, x, z);
      SubtreeEdge(g, st, tr, ByNode, f, x, z);
      LowAboveRoot(g, st, tr, ByNode, f, x, z);
    }
    ReachStays(Links(g), tree, st.At(0), y);
    SubtreeFinished(g, st, tr, y);
    assert y == st.At(0) || y in left;
  }

  /** Leaving the root shows nothing new: the other part was whole before. */
  lemma RootShowsNothing(g: Digraph, st: Search, tr: set<nat>, cursor: nat, met: seq<nat>, left: seq<nat>, a: nat,
                         x: nat, q: nat)
    requires Inv(g, st, tr, ByNode) && Exhausted(st) && |st.stack| == 1 && Traced(g, st, cursor, met, left)
    requires EnteredAtLeast(st) && Separates(g, a, x, q) && Reach(Avoiding(g, a), x, st.At(0))
    ensures !IsLeast(g, a) && CutBy(g, left, a)
  {
    var c, r, links := st.At(0), Avoiding(g, a), Links(g);
    LinksSymmetric(g);
    AvoidingSymmetric(g, a);
    AvoidingWithin(g, a, x, c);
    ReachSym(links, x, c);
    SeparatedReach(g, a, x, q);
    ReachTrans(links, c, x, a);
    ReachSym(links, c, a);
    RootIsLeast(g, st, tr);
    assert c <= a;
    forall y: nat | Reach(r, q, y) ensures y in left {
      AvoidingWithin(g, a, q, y);
      ReachTrans(links, c, x, q);
      ReachTrans(links, c, q, y);
      ComponentLeft(g, st, tr, cursor, met, left, y);
      if y == c {
        ReachSym(r, q, y);
        ReachTrans(r, x, c, q);
      }
    }
    SeparatesSym(g, a, x, q);
    assert CutWitness(g, left, a, q, x);
  }

  /** Leaving a node shows no cut vertex but its parent, and that one only when it is found. */
  lemma NothingElse(g: Digraph, st: Search, tr: set<nat>, children: map<nat, nat>, out: seq<nat>, cursor: nat,
                    met: seq<nat>, left: seq<nat>, a: nat)
    requires Inv(g, st, tr, ByNode) && RootOk(g, st, children, out) && Exhausted(st)
    requires EnteredAtLeast(st) && Traced(g, st, cursor, met, left)
    requires CutBy(g, left + [st.At(|st.stack| - 1)], a) && !CutBy(g, left, a)
    ensures CutFound(st, children) && a == st.At(|st.stack| - 2)
  {
    var t := |st.stack| - 1;
    var c := st.At(t);
    var x: nat, q: nat :| CutWitness(g, left + [c], a, x, q);
    assert !CutWitness(g, left, a, x, q);
    SeparatesSym(g, a, x, q);
    ReachRefl(Avoiding(g, a), x);
    ReachRefl(Avoiding(g, a), q);
    if PartLeft(g, left, a, x) {
      PartGains(g, left, c, a, q);
      Gained(g, st, tr, children, out, cursor, met, left, a, q, x);
    } else {
      PartGains(g, left, c, a, x);
      Gained(g, st, tr, children, out, cursor, met, left, a, x, q);
    }
  }

  lemma Gained(g: Digraph, st: Search, tr: set<nat>, children: map<nat, nat>, out: seq<nat>, cursor: nat,
               met: seq<nat>, left: seq<nat>, a: nat, x: nat, q: nat)
    requires Inv(g, st, tr, ByNode) && RootOk(g, st, children, out) && Exhausted(st)
    requires EnteredAtLeast(st) && Traced(g, st, cursor, met, left) && !CutBy(g, left, a)
    requires Separates(g, a, x, q) && PartLeft(g, left + [st.At(|st.stack| - 1)], a, x)
    requires IsLeast(g, a) ==> q in left + [st.At(|st.stack| - 1)]
    requires x in left + [st.At(|st.stack| - 1)] && Reach(Avoiding(g, a), x, st.At(|st.stack| - 1))
    ensures CutFound(st, children) && a == st.At(|st.stack| - 2)
  {
    var t := |st.stack| - 1;
    if t == 0 {
      RootShowsNothing(g, st, tr, cursor, met, left, a, x, q);
    } else {
      LowerOpen(g, st, tr, cursor, met, left, t - 1);
      if a != st.At(t - 1) {
        GainsParent(g, st, tr, cursor, met, left, a, x);
        assert false;
      }
      if t == 1 {
        RootIsLeast(g, st, tr);
        OneChildTogether(g, st, tr, children, out, cursor, met, left, x, q);
      } else {
        LowerOpen(g, st, tr, cursor, met, left, 0);
        if !CutFound(st, children) {
          GainsRoot(g, st, tr, left, x);
          assert false;
        }
      }
    }
  }

  /** What has been yielded is just what the nodes left show. */
  ghost predicate Shown(g: Digraph, left: seq<nat>, out: seq<nat>) {
    forall a: nat {:trigger ShownIff(g, left, out, a)} :: ShownIff(g, left, out, a)
  }

  ghost predicate ShownIff(g: Digraph, left: seq<nat>, out: seq<nat>, a: nat) {
    a in out <==> CutBy(g, left, a)
  }

  /** `a` is shown once `at` nodes have been left, and not before. */
  ghost predicate ShownAt(g: Digraph, left: seq<nat>, a: nat, at: nat) {
    0 < at <= |left| && CutBy(g, left[..at], a) && !CutBy(g, left[..at - 1], a)
  }

  /** Cut vertices stand in the order in which they are shown. */
  ghost predicate Timed(g: Digraph, left: seq<nat>, at: seq<nat>, out: seq<nat>) {
    && |at| == |out| && Upward(at)
    && forall k {:trigger ShownAt(g, left, out[k], at[k])} :: 0 <= k < |at| ==> ShownAt(g, left, out[k], at[k])
  }

  lemma TimedMore(g: Digraph, left: seq<nat>, rest: seq<nat>, at: seq<nat>, out: seq<nat>)
    requires Timed(g, left, at, out)
    ensures Timed(g, left + rest, at, out)
  {
    forall k | 0 <= k < |at| ensures ShownAt(g, left + rest, out[k], at[k]) {
      assert ShownAt(g, left, out[k], at[k]);
      assert (left + rest)[..at[k]] == left[..at[k]] && (left + rest)[..at[k] - 1] == left[..at[k] - 1];
    }
  }

  lemma NothingShown(g: Digraph)
    ensures Shown(g, [], [])
  {
    forall a: nat, x: nat, q: nat ensures !CutWitness(g, [], a, x, q) {
      ReachRefl(Avoiding(g, a), x);
    }
    forall a: nat ensures ShownIff(g, [], [], a) {
    }
  }

  lemma PopShown(g: Digraph, st: Search, tr: set<nat>, children: map<nat, nat>, out: seq<nat>, cursor: nat,
                 met: seq<nat>, left: seq<nat>)
    requires Inv(g, st, tr, ByNode) && RootOk(g, st, children, out) && Exhausted(st)
    requires EnteredAtLeast(st) && Traced(g, st, cursor, met, left) && Shown(g, left, out)
    ensures Shown(g, left + [st.At(|st.stack| - 1)], Append(out, Yield(st, children, out)))
  {
    var left', out' := left + [st.At(|st.stack| - 1)], Append(out, Yield(st, children, out));
    forall a: nat ensures ShownIff(g, left', out', a) {
      assert ShownIff(g, left, out, a);
      if CutBy(g, left, a) {
        CutMore(g, left, left', a);
      } else if CutBy(g, left', a) {
        NothingElse(g, st, tr, children, out, cursor, met, left, a);
      }
      if Yield(st, children, out) == Some(a) {
        FoundCutBy(g, st, tr, children, out, cursor, met, left);
      }
    }
  }

  lemma PopTimed(g: Digraph, left: seq<nat>, c: nat, at: seq<nat>, out: seq<nat>, y: Option<nat>)
    requires Timed(g, left, at, out) && Shown(g, left, out) && Shown(g, left + [c], Append(out, y))
    requires y.Some? ==> y.value !in out
    ensures Timed(g, left + [c], if y.Some? then at + [|left| + 1] else at, Append(out, y))
  {
    var left' := left + [c];
    TimedMore(g, left, [c], at, out);
    if y.Some? {
      assert ShownIff(g, left, out, y.value) && ShownIff(g, left', Append(out, y), y.value);
      var at', out' := at + [|left| + 1], Append(out, y);
      assert out'[|out|] == y.value;
      assert left'[..|left| + 1] == left' && left'[..|left|] == left;
      assert ShownAt(g, left', y.value, |left| + 1);
      assert forall k :: 0 <= k < |at| ==> at[k] <= |left| by {
        forall k | 0 <= k < |at| ensures at[k] <= |left| {
          assert ShownAt(g, left, out[k], at[k]);
        }
      }
      forall k | 0 <= k < |at'| ensures ShownAt(g, left', out'[k], at'[k]) {
        assert k < |at| ==> out'[k] == out[k] && at'[k] == at[k];
      }
    }
  }

  // ----- the whole state -----

  datatype Run = Run(st: Search, tr: set<nat>, children: map<nat, nat>, parent: map<nat, Option<nat>>, out: seq<nat>,
                     cursor: nat, met: seq<nat>, left: seq<nat>, at: seq<nat>)

  datatype Aspect = Judging | Tracing | Entering | Timing

  ghost predicate Holds(g: Digraph, r: Run, aspect: Aspect) {
    match aspect
    case Judging => CutInv(g, r.st, r.tr, r.children, r.parent, r.out)
    case Tracing => Traced(g, r.st, r.cursor, r.met, r.left)
    case Entering => EnteredAtLeast(r.st) && forall v: nat :: v < r.cursor ==> v in r.st.disc
    case Timing => Shown(g, r.left, r.out) && Timed(g, r.left, r.at, r.out)
  }

  /** All that is kept between steps. */
  ghost predicate Searched(g: Digraph, r: Run) {
    forall aspect {:trigger Holds(g, r, aspect)} :: Holds(g, r, aspect)
  }

  lemma Unpacked(g: Digraph, r: Run)
    requires Searched(g, r)
    ensures CutInv(g, r.st, r.tr, r.children, r.parent, r.out) && Traced(g, r.st, r.cursor, r.met, r.left)
    ensures EnteredAtLeast(r.st) && forall v: nat :: v < r.cursor ==> v in r.st.disc
    ensures Shown(g, r.left, r.out) && Timed(g, r.left, r.at, r.out)
  {
    assert Holds(g, r, Judging) && Holds(g, r, Tracing) && Holds(g, r, Entering) && Holds(g, r, Timing);
  }

  lemma Packed(g: Digraph, r: Run)
    requires CutInv(g, r.st, r.tr, r.children, r.parent, r.out) && Traced(g, r.st, r.cursor, r.met, r.left)
    requires EnteredAtLeast(r.st) && forall v: nat :: v < r.cursor ==> v in r.st.disc
    requires Shown(g, r.left, r.out) && Timed(g, r.left, r.at, r.out)
    ensures Searched(g, r)
  {
    forall aspect ensures Holds(g, r, aspect) {
      match aspect {
        case Judging =>
        case Tracing =>
        case Entering =>
        case Timing =>
      }
    }
  }

  lemma SearchBegins(g: Digraph)
    requires g.Valid()
    ensures Searched(g, Run(Search(map[], map[], 0, []), {}, map[], map[], [], 0, [], [], []))
  {
    TracedBegins(g);
    NothingShown(g);
    Packed(g, Run(Search(map[], map[], 0, []), {}, map[], map[], [], 0, [], [], []));
  }

  /** What the class needs of its state before it looks along an edge. */
  lemma LookFacts(g: Digraph, r: Run, f: nat, y: nat)
    requires Searched(g, r) && Next(r.st, f, y)
    ensures g.Valid() && y < g.n
    ensures var u := r.st.At(|r.st.stack| - 1);
            && u in r.parent && u in r.st.low && (r.parent[u] == Some(y) ==> y in r.st.disc)
            && (r.parent[u] == Some(y) <==> Skipped(r.st, ByNode, |r.st.stack| - 1, f, u, y))
  {
    Unpacked(g, r);
    TopJoins(g, r.st, r.tr, f, y);
    ParentOfTop(g, r.st, r.tr, r.parent, f, y);
  }

  lemma LookAll(g: Digraph, r: Run, f: nat, y: nat, st': Search)
    requires Searched(g, r) && Looked(g, r.st, ByNode, f, y, st')
    ensures Searched(g, r.(st := st')) && Work(st'.stack) < Work(r.st.stack)
  {
    Unpacked(g, r);
    LookCut(g, r.st, r.tr, r.children, r.parent, r.out, f, y, st');
    TracedLook(g, r.st, ByNode, f, y, st', r.cursor, r.met, r.left);
    NudgedSame(r.st, st', ByNode);
    assert st'.At(0) == r.st.At(0);
    WorkAdvance(r.st);
    Packed(g, r.(st := st'));
  }

  ghost function EnterRun(r: Run, v: nat, f: nat, neighbors: seq<(nat, nat)>): Run
    requires r.st.stack != []
  {
    var u := r.st.At(|r.st.stack| - 1);
    r.(st := Number(Advance(r.st), v, Some(f), neighbors), tr := r.tr + {f}, met := r.met + [v],
       children := r.children[u := Count(r.children, u) + 1], parent := r.parent[v := Some(u)])
  }

  lemma EnterAll(g: Digraph, r: Run, v: nat, f: nat, neighbors: seq<(nat, nat)>)
    requires Searched(g, r) && Next(r.st, f, v) && v !in r.st.disc
    requires v < g.n && IsIncidence(g, v, neighbors)
    requires g.Valid() && FarEnds(g, v, EdgesAt(g, v), neighbors)
    ensures Searched(g, EnterRun(r, v, f, neighbors)) && |r.st.disc| < |EnterRun(r, v, f, neighbors).st.disc| <= g.n
  {
    var r' := EnterRun(r, v, f, neighbors);
    EnterJudging(g, r, v, f, neighbors);
    forall aspect ensures Holds(g, r', aspect) {
      assert Holds(g, r, aspect);
      match aspect {
        case Judging =>
        case Tracing =>
          TracedEnter(g, r.st, f, v, r.cursor, r.met, r.left, neighbors);
        case Entering =>
        case Timing =>
      }
    }
  }

  lemma EnterJudging(g: Digraph, r: Run, v: nat, f: nat, neighbors: seq<(nat, nat)>)
    requires Searched(g, r) && Next(r.st, f, v) && v !in r.st.disc
    requires v < g.n && IsIncidence(g, v, neighbors)
    ensures Holds(g, EnterRun(r, v, f, neighbors), Judging)
    ensures |r.st.disc| < |EnterRun(r, v, f, neighbors).st.disc| <= g.n
    ensures Holds(g, EnterRun(r, v, f, neighbors), Entering)
  {
    assert Holds(g, r, Judging) && Holds(g, r, Entering);
    var r' := EnterRun(r, v, f, neighbors);
    assert Ready(r.st) == Advance(r.st) && Tree(r.tr, Some(f)) == r.tr + {f};
    NumberCut(g, r.st, r.tr, r.children, r.parent, r.out, v, Some(f), neighbors, r'.children, r'.parent);
    NumberGrown(g, r.st, r.tr, v, Some(f), neighbors);
    assert r'.st.At(0) == r.st.At(0);
  }

  ghost function StartRun(r: Run, neighbors: seq<(nat, nat)>): Run {
    r.(st := Number(r.st, r.cursor, None, neighbors), parent := r.parent[r.cursor := None], cursor := r.cursor + 1,
       met := r.met + [r.cursor])
  }

  lemma StartAll(g: Digraph, r: Run, neighbors: seq<(nat, nat)>)
    requires Searched(g, r) && r.st.stack == [] && r.cursor < g.n && r.cursor !in r.st.disc
    requires g.Valid() && IsIncidence(g, r.cursor, neighbors) && FarEnds(g, r.cursor, EdgesAt(g, r.cursor), neighbors)
    ensures Searched(g, StartRun(r, neighbors)) && |r.st.disc| < |StartRun(r, neighbors).st.disc| <= g.n
  {
    var r' := StartRun(r, neighbors);
    StartJudging(g, r, neighbors);
    forall aspect ensures Holds(g, r', aspect) {
      assert Holds(g, r, aspect);
      match aspect {
        case Judging =>
        case Tracing =>
          TracedRoot(g, r.st, r.cursor, r.met, r.left, neighbors);
        case Entering =>
        case Timing =>
      }
    }
  }

  lemma StartJudging(g: Digraph, r: Run, neighbors: seq<(nat, nat)>)
    requires Searched(g, r) && r.st.stack == [] && r.cursor < g.n && r.cursor !in r.st.disc
    requires IsIncidence(g, r.cursor, neighbors)
    ensures Holds(g, StartRun(r, neighbors), Judging)
    ensures |r.st.disc| < |StartRun(r, neighbors).st.disc| <= g.n
    ensures Holds(g, StartRun(r, neighbors), Entering)
  {
    assert Holds(g, r, Judging) && Holds(g, r, Entering);
    var r' := StartRun(r, neighbors);
    assert Ready(r.st) == r.st && Tree(r.tr, None) == r.tr;
    NumberCut(g, r.st, r.tr, r.children, r.parent, r.out, r.cursor, None, neighbors, r.children, r'.parent);
    NumberGrown(g, r.st, r.tr, r.cursor, None, neighbors);
    assert r'.st.At(0) == r.cursor;
  }

  lemma SkipAll(g: Digraph, r: Run, cursor: nat)
    requires Searched(g, r) && r.st.stack == [] && r.cursor <= cursor <= g.n
    requires forall v: nat :: r.cursor <= v < cursor ==> v in r.st.disc
    ensures Searched(g, r.(cursor := cursor))
  {
    Unpacked(g, r);
    TracedSkips(g, r.st, r.cursor, cursor, r.met, r.left);
    Packed(g, r.(cursor := cursor));
  }

  ghost function PopRun(r: Run, y: Option<nat>): Run
    requires r.st.stack != [] && LeaveReady(r.st, r.parent)
  {
    r.(st := Pop(r.st), out := Append(r.out, y), left := r.left + [r.st.At(|r.st.stack| - 1)],
       at := if y.Some? then r.at + [|r.left| + 1] else r.at)
  }

  lemma PopReady(g: Digraph, r: Run)
    requires Searched(g, r) && r.st.stack != []
    ensures LeaveReady(r.st, r.parent) && r.st.disc.Keys == r.st.low.Keys && Popped(r.st, Pop(r.st))
  {
    Unpacked(g, r);
    PopFacts(g, r.st, r.tr);
    FinishFacts(g, r.st, r.tr, r.parent);
  }

  lemma PopAll(g: Digraph, r: Run, y: Option<nat>)
    requires Searched(g, r) && Exhausted(r.st) && LeaveReady(r.st, r.parent) && y == Yield(r.st, r.children, r.out)
    ensures Searched(g, PopRun(r, y)) && Work(Pop(r.st).stack) < Work(r.st.stack)
  {
    var r' := PopRun(r, y);
    PopReady(g, r);
    Unpacked(g, r);
    PopCut(g, r.st, r.tr, r.children, r.parent, r.out, r'.st);
    TracedPop(g, r.st, r.tr, r'.st, r.cursor, r.met, r.left);
    PopTiming(g, r, y);
    PopSame(g, r.st, r.tr, ByNode, r'.st);
    assert r'.st.stack != [] ==> r'.st.At(0) == r.st.At(0);
    Packed(g, r');
  }

  lemma PopTiming(g: Digraph, r: Run, y: Option<nat>)
    requires Searched(g, r) && Exhausted(r.st) && LeaveReady(r.st, r.parent) && y == Yield(r.st, r.children, r.out)
    ensures Shown(g, PopRun(r, y).left, Append(r.out, y))
    ensures Timed(g, PopRun(r, y).left, PopRun(r, y).at, Append(r.out, y))
  {
    Unpacked(g, r);
    PopShown(g, r.st, r.tr, r.children, r.out, r.cursor, r.met, r.left);
    PopTimed(g, r.left, r.st.At(|r.st.stack| - 1), r.at, r.out, y);
  }

  /** The cut vertices in the order in which the recursive search shows them. */
  ghost predicate InTime(g: Digraph, out: seq<nat>)
    requires g.Valid()
  {
    exists at :: Timed(g, Whole(g).left, at, out)
  }

  /** What the state says of the cut vertices yielded. */
  lemma YieldsInTime(g: Digraph, r: Run)
    requires Searched(g, r)
    ensures g.Valid() && InTime(g, r.out)
    ensures NoDup(r.out) && |r.out| <= g.n && forall v: nat :: v in r.out ==> IsCutVertex(g, v)
  {
    assert Holds(g, r, Judging);
    PointBound(g, r.st, r.tr, r.out);
    TimedInAll(g, r);
  }

  lemma TimedInAll(g: Digraph, r: Run)
    requires Searched(g, r)
    ensures g.Valid() && InTime(g, r.out)
  {
    assert Holds(g, r, Tracing) && Holds(g, r, Timing);
    var roots := Numbers(g.n)[r.cursor..];
    var rest := Ahead(FarLists(g), Below(g.n), Opens(r.st.stack), roots, Elems(r.met));
    CourseFrom(FarLists(g), Below(g.n), Numbers(g.n), r.met, r.left, Opens(r.st.stack), roots);
    TimedMore(g, r.left, rest.left, r.at, r.out);
    assert Timed(g, Whole(g).left, r.at, r.out);
  }

  /** There is one moment at which a cut vertex is shown. */
  lemma ShownOnce(g: Digraph, left: seq<nat>, a: nat, i: nat, j: nat)
    requires ShownAt(g, left, a, i) && ShownAt(g, left, a, j)
    ensures i == j
  {
    if i < j {
      CutMore(g, left[..i], left[..j - 1], a);
    } else if j < i {
      CutMore(g, left[..j], left[..i - 1], a);
    }
  }

  /** The graph and the order of its lists leave no choice about the order of the cut vertices. */
  lemma PointsOnce(g: Digraph, a: seq<nat>, b: seq<nat>)
    requires g.Valid() && (forall x: nat :: x in a <==> x in b) && InTime(g, a) && InTime(g, b)
    ensures a == b
  {
    var left := Whole(g).left;
    var p :| Timed(g, left, p, a);
    var q :| Timed(g, left, q, b);
    forall i: nat ensures i in p <==> i in q {
      if i in p {
        SharedTime(g, left, p, a, q, b, i);
      }
      if i in q {
        SharedTime(g, left, q, b, p, a, i);
      }
    }
    SameUpward(p, q);
    forall k | 0 <= k < |a| ensures a[k] == b[k] {
      assert a[k] in b;
      var j :| 0 <= j < |b| && b[j] == a[k];
      assert ShownAt(g, left, a[k], p[k]) && ShownAt(g, left, b[j], q[j]);
      ShownOnce(g, left, a[k], p[k], q[j]);
      assert j == k;
    }
  }

  lemma SharedTime(g: Digraph, left: seq<nat>, p: seq<nat>, a: seq<nat>, q: seq<nat>, b: seq<nat>, i: nat)
    requires Timed(g, left, p, a) && Timed(g, left, q, b) && (forall x: nat :: x in a ==> x in b) && i in p
    ensures i in q
  {
    var k :| 0 <= k < |p| && p[k] == i;
    assert a[k] in b;
    var j :| 0 <= j < |b| && b[j] == a[k];
    assert ShownAt(g, left, a[k], p[k]) && ShownAt(g, left, b[j], q[j]);
    ShownOnce(g, left, a[k], p[k], q[j]);
  }

  // ----- the iterator -----

  class ArticulationPoints {
    const graph: Digraph
    var disc: map<nat, nat>
    var low: map<nat, nat>
    var parent: map<nat, Option<nat>>
    var childrenCount: map<nat, nat>
    var yielded: set<nat>
    var timer: nat
    var cursor: nat
    var stack: seq<Frame>
    ghost var tree: set<nat>
    ghost var out: seq<nat>
    ghost var met: seq<nat>
    ghost var left: seq<nat>
    ghost var at: seq<nat>

    ghost function S(): Search
      reads this
    {
      Search(disc, low, timer, stack)
    }

    ghost function R(): Run
      reads this
    {
      Run(S(), tree, childrenCount, parent, out, cursor, met, left, at)
    }

    ghost predicate Valid()
      reads this
    {
      Searched(graph, R()) && yielded == Elems(out)
    }

    ghost function Unnumbered(): nat
      reads this
    {
      if |disc| <= graph.n then graph.n - |disc| else 0
    }

    constructor (g: Digraph)
      requires g.Valid()
      ensures Valid() && graph == g && out == []
    {
      graph := g;
      disc, low, timer, cursor, stack := map[], map[], 0, 0, [];
      parent, childrenCount, yielded := map[], map[], {};
      tree, out, met, left, at := {}, [], [], [], [];
      new;
      SearchBegins(graph);
    }

    /** The next cut vertex, or nothing once every one has been yielded. */
    method Next() returns (point: Option<nat>)
      requires Valid()
      modifies this
      ensures Valid()
      ensures point.Some? ==> out == old(out) + [point.value] && IsCutVertex(graph, point.value)
      ensures point.None? ==> out == old(out) && forall v: nat :: v in out <==> v < graph.n && IsCutVertex(graph, v)
      ensures graph.Valid() && InTime(graph, out)
    {
      var more := true;
      point := None;
      while more && point.None?
        invariant Valid()
        invariant out == if point.Some? then old(out) + [point.value] else old(out)
        invariant point.Some? ==> point.value in out
        invariant !more ==> point.None? && forall v: nat :: v in out <==> v < graph.n && IsCutVertex(graph, v)
        decreases point.None?, more, Unnumbered(), Work(stack)
      {
        point, more := Turn();
      }
      YieldsInTime(graph, R());
    }

    method Turn() returns (point: Option<nat>, more: bool)
      requires Valid()
      modifies this
      ensures Valid() && out == Append(old(out), point)
      ensures !more ==> point.None? && forall v: nat :: v in out <==> v < graph.n && IsCutVertex(graph, v)
      ensures more ==>
                || Unnumbered() < old(Unnumbered())
                || (Unnumbered() == old(Unnumbered()) && Work(stack) < old(Work(stack)))
    {
      point, more := None, true;
      if stack == [] {
        more := NextRoot();
      } else if stack[|stack| - 1].idx < |stack[|stack| - 1].neighbors| {
        Descend();
      } else {
        point := Finish();
      }
    }

    /** Look along the next edge of the top node, unless it leads back to the parent. */
    method Descend()
      requires Valid() && stack != [] && stack[|stack| - 1].idx < |stack[|stack| - 1].neighbors|
      modifies this
      ensures Valid() && out == old(out)
      ensures Unnumbered() < old(Unnumbered()) || (Unnumbered() == old(Unnumbered()) && Work(stack) < old(Work(stack)))
    {
      var top := stack[|stack| - 1];
      var (eix, neighbor) := top.neighbors[top.idx];
      LookFacts(graph, R(), eix, neighbor);
      if parent[top.node] == Some(neighbor) || neighbor in disc {
        Look();
      } else {
        Enter();
      }
    }

    method Look()
      requires Valid() && stack != [] && stack[|stack| - 1].idx < |stack[|stack| - 1].neighbors|
      requires var top := stack[|stack| - 1];
               top.node in parent
               && (parent[top.node] == Some(top.neighbors[top.idx].1) || top.neighbors[top.idx].1 in disc)
      modifies this
      ensures Valid() && out == old(out) && disc == old(disc) && Work(stack) < old(Work(stack))
    {
      ghost var r := R();
      ghost var (eix, neighbor) := stack[|stack| - 1].neighbors[stack[|stack| - 1].idx];
      LookFacts(graph, r, eix, neighbor);
      Pass();
      LookAll(graph, r, eix, neighbor, S());
      assert R() == r.(st := S());
    }

    /** Past the next edge of the top node; unless it leads to the parent its far end counts. */
    method Pass()
      requires stack != [] && stack[|stack| - 1].idx < |stack[|stack| - 1].neighbors|
      requires var top := stack[|stack| - 1]; var y := top.neighbors[top.idx].1;
               && y in disc && top.node in low && top.node in parent
               && (parent[top.node] == Some(y) <==>
                     Skipped(S(), ByNode, |stack| - 1, top.neighbors[top.idx].0, top.node, y))
      modifies this`stack, this`low
      ensures var (f, y) := old(stack[|stack| - 1].neighbors[stack[|stack| - 1].idx]);
              Looked(graph, old(S()), ByNode, f, y, S())
    {
      var top := stack[|stack| - 1];
      var (eix, neighbor) := top.neighbors[top.idx];
      stack := stack[|stack| - 1 := top.(idx := top.idx + 1)];
      if parent[top.node] != Some(neighbor) {
        var nl := if low[top.node] <= disc[neighbor] then low[top.node] else disc[neighbor];
        low := low[top.node := nl];
      }
    }

    method Enter()
      requires Valid() && stack != [] && stack[|stack| - 1].idx < |stack[|stack| - 1].neighbors|
      requires stack[|stack| - 1].neighbors[stack[|stack| - 1].idx].1 !in disc
      modifies this
      ensures Valid() && out == old(out) && Unnumbered() < old(Unnumbered())
    {
      ghost var r := R();
      var top := stack[|stack| - 1];
      var (eix, neighbor) := top.neighbors[top.idx];
      LookFacts(graph, r, eix, neighbor);
      var next := CollectUndirectedNeighbors(graph, neighbor);
      Follow(next);
      EnterAll(graph, r, neighbor, eix, next);
      tree, met := tree + {eix}, met + [neighbor];
      assert R() == EnterRun(r, neighbor, eix, next);
    }

    /** Enter the far end of the top node's next edge. */
    method Follow(next: seq<(nat, nat)>)
      requires stack != [] && stack[|stack| - 1].idx < |stack[|stack| - 1].neighbors|
      modifies this`stack, this`disc, this`low, this`timer, this`childrenCount, this`parent
      ensures var top := old(stack[|stack| - 1]); var (f, v) := top.neighbors[top.idx];
              && S() == Number(Advance(old(S())), v, Some(f), next)
              && childrenCount == old(childrenCount)[top.node := Count(old(childrenCount), top.node) + 1]
              && parent == old(parent)[v := Some(top.node)]
    {
      var top := stack[|stack| - 1];
      var (eix, neighbor) := top.neighbors[top.idx];
      stack := stack[|stack| - 1 := top.(idx := top.idx + 1)];
      childrenCount := childrenCount[top.node := Count(childrenCount, top.node) + 1];
      parent := parent[neighbor := Some(top.node)];
      Begin(neighbor, Some(eix), next);
    }

    /** Number `v` and open its frame; the edge it was entered by is kept for the proofs only. */
    method Begin(v: nat, via: Option<nat>, neighbors: seq<(nat, nat)>)
      modifies this`disc, this`low, this`timer, this`stack
      ensures S() == Number(old(S()), v, via, neighbors)
    {
      disc := disc[v := timer];
      low := low[v := timer];
      timer := timer + 1;
      stack := stack + [Frame(v, via, neighbors, 0)];
    }

    /** Leave the top node and judge its parent. */
    method Finish() returns (point: Option<nat>)
      requires Valid() && stack != [] && stack[|stack| - 1].idx >= |stack[|stack| - 1].neighbors|
      modifies this
      ensures Valid() && disc == old(disc) && Work(stack) < old(Work(stack))
      ensures out == Append(old(out), point)
    {
      ghost var r, c := R(), S().At(|stack| - 1);
      PopReady(graph, r);
      point := Leave();
      PopAll(graph, r, point);
      at := if point.Some? then at + [|left| + 1] else at;
      out, left := Append(out, point), left + [c];
      assert R() == PopRun(r, point);
    }

    method Leave() returns (point: Option<nat>)
      requires stack != [] && disc.Keys == low.Keys && LeaveReady(S(), parent) && yielded == Elems(out)
      modifies this`stack, this`low, this`yielded
      ensures S() == Pop(old(S())) && point == Yield(old(S()), childrenCount, out)
      ensures yielded == Elems(Append(out, point))
    {
      var top := stack[|stack| - 1];
      var nodeLow := low[top.node];
      stack := stack[..|stack| - 1];
      point := None;
      var nodeParent := parent[top.node];
      if nodeParent.Some? {
        var par := nodeParent.value;
        low := low[par := if low[par] <= nodeLow then low[par] else nodeLow];
        var isAp := if parent[par].None? then Count(childrenCount, par) >= 2 else nodeLow >= disc[par];
        if isAp && par !in yielded {
          yielded := yielded + {par};
          point := Some(par);
        }
      }
    }

    method NextRoot() returns (more: bool)
      requires Valid() && stack == []
      modifies this
      ensures Valid() && out == old(out)
      ensures more ==> Unnumbered() < old(Unnumbered())
      ensures !more ==> forall v: nat :: v in out <==> v < graph.n && IsCutVertex(graph, v)
    {
      ghost var r := R();
      CursorBound(graph, r);
      Skip();
      assert r.st == S() && r.cursor == old(cursor);
      SkipAll(graph, r, cursor);
      assert R() == r.(cursor := cursor);
      more := cursor < graph.n;
      if more {
        StartRoot();
      } else {
        AllJudged(graph, R());
      }
    }

    method StartRoot()
      requires Valid() && stack == [] && cursor < graph.n && cursor !in disc
      modifies this
      ensures Valid() && out == old(out) && Unnumbered() < old(Unnumbered())
    {
      ghost var r := R();
      CursorBound(graph, r);
      var neighbors := CollectUndirectedNeighbors(graph, cursor);
      parent := parent[cursor := None];
      Begin(cursor, None, neighbors);
      StartAll(graph, r, neighbors);
      cursor, met := cursor + 1, met + [cursor];
      assert R() == StartRun(r, neighbors);
    }

    /** Past the nodes already numbered. */
    method Skip()
      requires cursor <= graph.n
      modifies this`cursor
      ensures old(cursor) <= cursor <= graph.n && forall v: nat :: old(cursor) <= v < cursor ==> v in disc
      ensures cursor < graph.n ==> cursor !in disc
    {
      while cursor < graph.n && cursor in disc
        invariant old(cursor) <= cursor <= graph.n && forall v: nat :: old(cursor) <= v < cursor ==> v in disc
      {
        cursor := cursor + 1;
      }
    }
  }

  lemma ParentOfTop(g: Digraph, st: Search, tr: set<nat>, parent: map<nat, Option<nat>>, eix: nat, neighbor: nat)
    requires Shape(g, st, tr) && ParentsOk(st, parent) && Next(st, eix, neighbor)
    ensures st.At(|st.stack| - 1) in parent && st.At(|st.stack| - 1) in st.low
    ensures parent[st.At(|st.stack| - 1)] == Some(neighbor) <==>
            Skipped(st, ByNode, |st.stack| - 1, eix, st.At(|st.stack| - 1), neighbor)
    ensures parent[st.At(|st.stack| - 1)] == Some(neighbor) ==> neighbor in st.disc
  {
    TopJoins(g, st, tr, eix, neighbor);
    var t := |st.stack| - 1;
    assert ParentOk(st, parent, t);
    if t > 0 {
      assert FrameOk(g, st, t - 1);
    }
  }

  /** The parent links of the two top nodes. */
  ghost predicate LeaveReady(st: Search, parent: map<nat, Option<nat>>) {
    && st.stack != []
    && var t := |st.stack| - 1;
       && st.At(t) in parent && st.At(t) in st.low
       && parent[st.At(t)] == (if t == 0 then None else Some(st.At(t - 1)))
       && (t > 0 ==> st.At(t - 1) in st.low && st.At(t - 1) in parent && (parent[st.At(t - 1)].None? <==> t == 1)
                     && st.At(t - 1) != st.At(t))
  }

  lemma FinishFacts(g: Digraph, st: Search, tr: set<nat>, parent: map<nat, Option<nat>>)
    requires Shape(g, st, tr) && ParentsOk(st, parent) && |st.stack| > 0
    ensures LeaveReady(st, parent)
  {
    var t := |st.stack| - 1;
    assert FrameOk(g, st, t) && ParentOk(st, parent, t);
    if t > 0 {
      assert FrameOk(g, st, t - 1) && ParentOk(st, parent, t - 1);
      assert st.Num(st.At(t - 1)) < st.Num(st.At(t));
    }
  }

  lemma AllJudged(g: Digraph, r: Run)
    requires Searched(g, r) && r.st.stack == [] && r.cursor >= g.n
    ensures forall v: nat :: v in r.out <==> v < g.n && IsCutVertex(g, v)
  {
    Unpacked(g, r);
    forall v: nat | v < g.n ensures Finished(r.st, v) {
    }
  }

  lemma CursorBound(g: Digraph, r: Run)
    requires Searched(g, r)
    ensures g.Valid() && r.cursor <= g.n
  {
    Unpacked(g, r);
  }

  /** The iterator run to its end. */
  method AllArticulationPoints(g: Digraph) returns (points: seq<nat>)
    requires g.Valid()
    ensures NoDup(points) && forall v: nat :: v in points <==> v < g.n && IsCutVertex(g, v)
    ensures InTime(g, points)
  {
    var it := new ArticulationPoints(g);
    points := [];
    assert Timed(g, Whole(g).left, [], points);
    var step: Option<nat> := Some(0);
    while step.Some?
      invariant it.Valid() && it.graph == g && fresh(it) && it.out == points && InTime(g, points)
      invariant step.None? ==> forall v: nat :: v in points <==> v < g.n && IsCutVertex(g, v)
      decreases g.n - |points|, step.Some?
    {
      step := it.Next();
      if step.Some? {
        points := points + [step.value];
        YieldsInTime(g, it.R());
      }
    }
    YieldsInTime(g, it.R());
  }

  lemma PointBound(g: Digraph, st: Search, tr: set<nat>, out: seq<nat>)
    requires Judged(g, st, out) && Shape(g, st, tr)
    ensures |out| <= g.n
  {
    ElemsCard(out);
    SubsetCard(Elems(out), Below(g.n));
  }
}
