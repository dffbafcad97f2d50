/** Strongly connected components by Tarjan's iterator (`src/algo/connectivity.rs`). */
module Tarjan {
  import opened Seqs
  import opened Vec
  import opened Graphs
  import opened DepthFirst

  datatype Frame = Frame(node: nat, succs: seq<nat>, idx: nat)

  datatype State = State(counter: nat, sccStack: seq<nat>, onStack: set<nat>,
                         index: map<nat, nat>, lowlink: map<nat, nat>, dfs: seq<Frame>) {
    ghost function Num(v: nat): nat { if v in index then index[v] else 0 }
    ghost function Low(v: nat): nat { if v in lowlink then lowlink[v] else 0 }
    ghost function At(i: nat): nat
      requires i < |dfs|
    {
      dfs[i].node
    }
  }

  ghost predicate SameComponent(g: Digraph, u: nat, v: nat) {
    Reach(g.Arcs(), u, v) && Reach(g.Arcs(), v, u)
  }

  // ----- the invariant -----

  /** Numbers, the two stacks and the finished nodes `done` fit together. */
  ghost predicate Shape(g: Digraph, st: State, done: set<nat>) {
    && g.Valid()
    && st.onStack == Elems(st.sccStack) && st.onStack !! done
    && st.index.Keys == st.lowlink.Keys == st.onStack + done
    && (forall v :: v in st.index ==> v < g.n && st.index[v] < st.counter)
    && Rising(st)
    && (forall i: nat {:trigger FrameOk(g, st, i)} :: i < |st.dfs| ==> FrameOk(g, st, i))
    && (if st.dfs == [] then st.sccStack == [] else st.sccStack != [] && st.sccStack[0] == st.At(0))
  }

  /** Numbers grow along both stacks. */
  ghost predicate Rising(st: State) {
    && (forall i, j :: 0 <= i < j < |st.sccStack| ==> st.Num(st.sccStack[i]) < st.Num(st.sccStack[j]))
    && (forall i: nat, j: nat {:trigger st.At(i), st.At(j)} :: i < j < |st.dfs| ==> st.Num(st.At(i)) < st.Num(st.At(j)))
  }

  ghost predicate FrameOk(g: Digraph, st: State, i: nat)
    requires g.Valid() && i < |st.dfs|
  {
    && st.At(i) in st.onStack && st.At(i) < g.n
    && st.dfs[i].succs == g.Succs(st.At(i)) && st.dfs[i].idx <= |st.dfs[i].succs|
  }

  /** Frame `i`, if it belongs to `x`, has already taken `y`. */
  ghost predicate Taken(st: State, i: nat, x: nat, y: nat)
    requires i < |st.dfs|
  {
    st.At(i) == x && st.dfs[i].idx <= |st.dfs[i].succs| ==> y in st.dfs[i].succs[..st.dfs[i].idx]
  }

  /** The edge has been looked at: its tail has left the search, or its turn has come. */
  ghost predicate Processed(g: Digraph, st: State, x: nat, y: nat) {
    && (x, y) in g.Arcs()
    && forall i: nat {:trigger Taken(st, i, x, y)} :: i < |st.dfs| ==> Taken(st, i, x, y)
  }

  /** `x` lies on the stack at or above frame `i` and below the next frame. */
  ghost predicate InSegment(st: State, i: nat, x: nat) {
    && i < |st.dfs| && x in st.onStack
    && st.Num(st.At(i)) <= st.Num(x)
    && (i + 1 < |st.dfs| ==> st.Num(x) < st.Num(st.At(i + 1)))
  }

  ghost predicate ReachesFrame(g: Digraph, st: State, x: nat, i: nat) {
    i < |st.dfs| && st.Num(st.At(i)) <= st.Num(x) && Reach(g.Arcs(), x, st.At(i))
  }

  ghost predicate ReachesAFrame(g: Digraph, st: State, x: nat) {
    exists i: nat :: ReachesFrame(g, st, x, i)
  }

  ghost predicate FrameReaches(g: Digraph, st: State, i: nat, x: nat) {
    && i < |st.dfs|
    && (st.Num(st.At(i)) <= st.Num(x) ==> Reach(g.Arcs(), st.At(i), x))
  }

  /** `y` is the stack node whose number frame `i` has as its low link. */
  ghost predicate LowAt(g: Digraph, st: State, i: nat, y: nat) {
    && i < |st.dfs| && y in st.onStack && st.Num(y) == st.Low(st.At(i)) <= st.Num(st.At(i))
    && Reach(g.Arcs(), st.At(i), y)
  }

  ghost predicate LowReached(g: Digraph, st: State, i: nat) {
    exists y: nat :: LowAt(g, st, i, y)
  }

  /** Reachability along the stack. */
  ghost predicate Linked(g: Digraph, st: State) {
    && (forall x {:trigger ReachesAFrame(g, st, x)} :: x in st.onStack ==> ReachesAFrame(g, st, x))
    && (forall i: nat, x {:trigger FrameReaches(g, st, i, x)} :: i < |st.dfs| && x in st.onStack ==>
          FrameReaches(g, st, i, x))
    && (forall i: nat {:trigger LowReached(g, st, i)} :: i < |st.dfs| ==> LowReached(g, st, i))
  }

  ghost predicate EdgeCovered(st: State, i: nat, x: nat, y: nat) {
    i < |st.dfs| && (y in st.onStack ==> st.Low(st.At(i)) <= st.Num(y))
  }

  /** Where processed edges can lead: to numbered nodes, and within the stack to nodes no lower
      than the low link of the segment they leave. */
  ghost predicate Covered(g: Digraph, st: State, done: set<nat>) {
    && Closed(g.Arcs(), done)
    && (forall x, y {:trigger Processed(g, st, x, y)} :: x in st.onStack && Processed(g, st, x, y) ==> y in st.index)
    && (forall i: nat, x, y {:trigger EdgeCovered(st, i, x, y)} ::
          InSegment(st, i, x) && Processed(g, st, x, y) ==> EdgeCovered(st, i, x, y))
  }

  ghost predicate Inv(g: Digraph, st: State, done: set<nat>) {
    Shape(g, st, done) && Linked(g, st) && Covered(g, st, done)
  }

  // ----- the steps of the search -----

  function Number(g: Digraph, st: State, v: nat): State
    requires g.Valid() && v < g.n
  {
    State(st.counter + 1, st.sccStack + [v], st.onStack + {v}, st.index[v := st.counter], st.lowlink[v := st.counter],
          st.dfs + [Frame(v, g.Succs(v), 0)])
  }

  function Advance(st: State): State
    requires |st.dfs| > 0
  {
    var t := |st.dfs| - 1;
    st.(dfs := st.dfs[t := st.dfs[t].(idx := st.dfs[t].idx + 1)])
  }

  /** Successor already numbered: on the stack it may lower the low link, off it nothing happens. */
  function Back(st: State, v: nat): State
    requires |st.dfs| > 0 && st.dfs[|st.dfs| - 1].node in st.lowlink && v in st.index
  {
    var u := st.dfs[|st.dfs| - 1].node;
    if v in st.onStack && st.index[v] < st.lowlink[u] then Advance(st).(lowlink := st.lowlink[u := st.index[v]])
    else Advance(st)
  }

  /** A finished node passes its low link on to its parent. */
  function Merge(st: State): State
    requires |st.dfs| > 0 && st.dfs[|st.dfs| - 1].node in st.lowlink
    requires |st.dfs| > 1 ==> st.dfs[|st.dfs| - 2].node in st.lowlink
  {
    var t := |st.dfs| - 1;
    var u := st.dfs[t].node;
    if t > 0 && st.lowlink[u] < st.lowlink[st.dfs[t - 1].node]
    then st.(lowlink := st.lowlink[st.dfs[t - 1].node := st.lowlink[u]], dfs := st.dfs[..t])
    else st.(dfs := st.dfs[..t])
  }

  /** The top of the stack down to position `b` leaves as a component. */
  ghost function Emit(st: State, b: nat): State
    requires b <= |st.sccStack|
  {
    st.(sccStack := st.sccStack[..b], onStack := Elems(st.sccStack[..b]))
  }

  /** The top frame has a successor left, and it is `v`. */
  ghost predicate Next(st: State, v: nat) {
    && |st.dfs| > 0
    && var f := st.dfs[|st.dfs| - 1];
       f.idx < |f.succs| && f.succs[f.idx] == v
  }

  ghost predicate Exhausted(st: State) {
    && |st.dfs| > 0
    && var f := st.dfs[|st.dfs| - 1];
       f.idx >= |f.succs|
  }

  lemma TopArc(g: Digraph, st: State, done: set<nat>, v: nat)
    requires Shape(g, st, done) && Next(st, v)
    ensures (st.At(|st.dfs| - 1), v) in g.Arcs() && v < g.n
  {
    var f := st.dfs[|st.dfs| - 1];
    assert FrameOk(g, st, |st.dfs| - 1);
    assert v in f.succs;
    SuccIff(g, f.node, v);
  }

  /** Advancing the top frame past `v` processes just one more edge. */
  lemma AdvanceProcessed(g: Digraph, st: State, done: set<nat>, v: nat, x: nat, y: nat)
    requires Shape(g, st, done) && Next(st, v) && Processed(g, Advance(st), x, y)
    ensures Processed(g, st, x, y) || (x == st.At(|st.dfs| - 1) && y == v)
  {
    var t := |st.dfs| - 1;
    var f := st.dfs[t];
    assert FrameOk(g, st, t);
    var st' := Advance(st);
    assert f.succs[..f.idx + 1] == f.succs[..f.idx] + [v];
    if !(x == f.node && y == v) {
      forall i: nat | i < |st.dfs| ensures Taken(st, i, x, y) {
        assert Taken(st', i, x, y);
      }
    }
  }

  lemma BackStep(g: Digraph, st: State, done: set<nat>, v: nat)
    requires Inv(g, st, done) && Next(st, v) && v in st.index && st.dfs[|st.dfs| - 1].node in st.lowlink
    ensures Inv(g, Back(st, v), done)
  {
    BackShape(g, st, done, v);
    BackLinked(g, st, done, v);
    BackCovered(g, st, done, v);
  }

  lemma BackSame(st: State, v: nat)
    requires Next(st, v) && v in st.index && st.dfs[|st.dfs| - 1].node in st.lowlink
    ensures |Back(st, v).dfs| == |st.dfs| && forall i: nat :: i < |st.dfs| ==> Back(st, v).At(i) == st.At(i)
    ensures forall x: nat :: Back(st, v).Num(x) == st.Num(x)
    ensures forall x: nat ::
              Back(st, v).Low(x) <= st.Low(x) && (x != st.At(|st.dfs| - 1) ==> Back(st, v).Low(x) == st.Low(x))
  {
  }

  lemma BackShape(g: Digraph, st: State, done: set<nat>, v: nat)
    requires Shape(g, st, done) && Next(st, v) && v in st.index && st.dfs[|st.dfs| - 1].node in st.lowlink
    ensures Shape(g, Back(st, v), done)
  {
    var st' := Back(st, v);
    BackSame(st, v);
    forall i: nat | i < |st'.dfs| ensures FrameOk(g, st', i) {
      assert FrameOk(g, st, i);
    }
    assert st'.At(0) == st.At(0);
    assert Rising(st');
  }

  lemma BackLinked(g: Digraph, st: State, done: set<nat>, v: nat)
    requires Shape(g, st, done) && Linked(g, st) && Next(st, v) && v in st.index
    requires st.dfs[|st.dfs| - 1].node in st.lowlink
    ensures Linked(g, Back(st, v))
  {
    var st' := Back(st, v);
    var t := |st.dfs| - 1;
    BackSame(st, v);
    forall x | x in st'.onStack ensures ReachesAFrame(g, st', x) {
      assert ReachesAFrame(g, st, x);
      var i: nat :| ReachesFrame(g, st, x, i);
      assert ReachesFrame(g, st', x, i);
    }
    forall i: nat, x | i < |st'.dfs| && x in st'.onStack ensures FrameReaches(g, st', i, x) {
      assert FrameReaches(g, st, i, x);
    }
    forall i: nat | i < |st'.dfs| ensures LowReached(g, st', i) {
      assert LowReached(g, st, i) && FrameOk(g, st, i);
      var y: nat :| LowAt(g, st, i, y);
      if i == t && v in st.onStack && st.index[v] < st.Low(st.At(t)) {
        TopArc(g, st, done, v);
        ReachEdge(g.Arcs(), st.At(t), v);
        assert LowAt(g, st', i, v);
      } else {
        assert i < t ==> st.Num(st.At(i)) < st.Num(st.At(t));
        assert LowAt(g, st', i, y);
      }
    }
  }

  lemma BackCovered(g: Digraph, st: State, done: set<nat>, v: nat)
    requires Inv(g, st, done) && Next(st, v) && v in st.index && st.dfs[|st.dfs| - 1].node in st.lowlink
    ensures Covered(g, Back(st, v), done)
  {
    var st' := Back(st, v);
    var t := |st.dfs| - 1;
    BackSame(st, v);
    forall x, y | x in st'.onStack && Processed(g, st', x, y) ensures y in st'.index {
      BackProcessed(g, st, done, v, x, y);
    }
    forall i: nat, x, y | InSegment(st', i, x) && Processed(g, st', x, y) ensures EdgeCovered(st', i, x, y) {
      BackProcessed(g, st, done, v, x, y);
      assert InSegment(st, i, x);
      assert i < t ==> st.At(i + 1) == st'.At(i + 1);
      assert i + 1 < t ==> st.Num(st.At(i + 1)) < st.Num(st.At(t));
      if Processed(g, st, x, y) {
        assert EdgeCovered(st, i, x, y);
      } else {
        assert FrameOk(g, st, t);
      }
    }
  }

  lemma BackProcessed(g: Digraph, st: State, done: set<nat>, v: nat, x: nat, y: nat)
    requires Shape(g, st, done) && Next(st, v) && v in st.index && st.dfs[|st.dfs| - 1].node in st.lowlink
    requires Processed(g, Back(st, v), x, y)
    ensures Processed(g, st, x, y) || (x == st.At(|st.dfs| - 1) && y == v)
  {
    forall i: nat | i < |st.dfs| ensures Taken(Advance(st), i, x, y) {
      assert Taken(Back(st, v), i, x, y);
    }
    AdvanceProcessed(g, st, done, v, x, y);
  }

  // ----- a node is numbered -----

  /** The state in which `v` is about to be numbered: as a fresh root, or as the next successor. */
  ghost predicate Fresh(g: Digraph, st: State, v: nat) {
    && v !in st.index && v < g.n
    && (st.dfs == [] || Next(st, v))
  }

  ghost function Ready(st: State): State {
    if st.dfs == [] then st else Advance(st)
  }

  lemma NumberFacts(g: Digraph, st: State, done: set<nat>, v: nat)
    requires Shape(g, st, done) && Fresh(g, st, v)
    ensures var st' := Number(g, Ready(st), v);
            && |st'.dfs| == |st.dfs| + 1 && (forall i: nat :: i < |st.dfs| ==> st'.At(i) == st.At(i))
               && st'.At(|st.dfs|) == v
            && (forall x: nat :: x in st.index ==> st'.Num(x) == st.Num(x) < st.counter && st'.Low(x) == st.Low(x))
            && st'.Num(v) == st'.Low(v) == st.counter
            && forall i: nat :: i < |st.dfs| ==> st.At(i) in st.index
  {
    forall i: nat | i < |st.dfs| ensures st.At(i) in st.index {
      assert FrameOk(g, st, i);
    }
  }

  lemma NumberStep(g: Digraph, st: State, done: set<nat>, v: nat)
    requires Inv(g, st, done) && Fresh(g, st, v)
    ensures Inv(g, Number(g, Ready(st), v), done)
  {
    NumberShape(g, st, done, v);
    NumberLinked(g, st, done, v);
    NumberCovered(g, st, done, v);
  }

  lemma NumberShape(g: Digraph, st: State, done: set<nat>, v: nat)
    requires Shape(g, st, done) && Fresh(g, st, v)
    ensures Shape(g, Number(g, Ready(st), v), done)
  {
    var st' := Number(g, Ready(st), v);
    NumberFacts(g, st, done, v);
    forall i: nat | i < |st'.dfs| ensures FrameOk(g, st', i) {
      if i < |st.dfs| {
        assert FrameOk(g, st, i);
      } else {
        assert st'.At(i) == v;
      }
    }
    assert Elems(st'.sccStack) == Elems(st.sccStack) + {v};
    NumberRising(g, st, done, v);
    assert st.dfs != [] ==> st'.At(0) == st.At(0);
  }

  lemma NumberRising(g: Digraph, st: State, done: set<nat>, v: nat)
    requires Shape(g, st, done) && Fresh(g, st, v)
    ensures Rising(Number(g, Ready(st), v))
  {
    var st' := Number(g, Ready(st), v);
    NumberFacts(g, st, done, v);
    forall i: nat, j: nat | i < j < |st'.dfs| ensures st'.Num(st'.At(i)) < st'.Num(st'.At(j)) {
      if j < |st.dfs| {
        assert st.Num(st.At(i)) < st.Num(st.At(j));
      }
    }
    forall i, j | 0 <= i < j < |st'.sccStack| ensures st'.Num(st'.sccStack[i]) < st'.Num(st'.sccStack[j]) {
      assert st.sccStack[i] in Elems(st.sccStack);
      if j < |st.sccStack| {
        assert st.sccStack[j] in Elems(st.sccStack);
      }
    }
  }

  lemma NumberLinked(g: Digraph, st: State, done: set<nat>, v: nat)
    requires Shape(g, st, done) && Linked(g, st) && Fresh(g, st, v)
    ensures Linked(g, Number(g, Ready(st), v))
  {
    var st' := Number(g, Ready(st), v);
    var t := |st.dfs|;
    NumberFacts(g, st, done, v);
    ReachRefl(g.Arcs(), v);
    forall x | x in st'.onStack ensures ReachesAFrame(g, st', x) {
      if x == v {
        assert ReachesFrame(g, st', v, t);
      } else {
        assert ReachesAFrame(g, st, x);
        var i: nat :| ReachesFrame(g, st, x, i);
        assert ReachesFrame(g, st', x, i);
      }
    }
    forall i: nat, x | i < |st'.dfs| && x in st'.onStack ensures FrameReaches(g, st', i, x) {
      if i < t && x == v {
        assert FrameOk(g, st, t - 1) && FrameOk(g, st, i);
        assert FrameReaches(g, st, i, st.At(t - 1));
        assert i < t - 1 ==> st.Num(st.At(i)) < st.Num(st.At(t - 1));
        TopArc(g, st, done, v);
        ReachStep(g.Arcs(), st.At(i), st.At(t - 1), v);
      } else if i < t {
        assert FrameReaches(g, st, i, x);
      }
    }
    forall i: nat | i < |st'.dfs| ensures LowReached(g, st', i) {
      if i < t {
        assert LowReached(g, st, i);
        var y: nat :| LowAt(g, st, i, y);
        assert LowAt(g, st', i, y);
      } else {
        assert LowAt(g, st', i, v);
      }
    }
  }

  lemma NumberProcessed(g: Digraph, st: State, done: set<nat>, v: nat, x: nat, y: nat)
    requires Shape(g, st, done) && Fresh(g, st, v) && Processed(g, Number(g, Ready(st), v), x, y)
    ensures x != v
    ensures Processed(g, st, x, y) || (st.dfs != [] && x == st.At(|st.dfs| - 1) && y == v)
  {
    var st' := Number(g, Ready(st), v);
    assert Taken(st', |st.dfs|, x, y);
    forall i: nat | i < |st.dfs| ensures Taken(Ready(st), i, x, y) {
      assert Taken(st', i, x, y);
    }
    if st.dfs != [] {
      AdvanceProcessed(g, st, done, v, x, y);
    }
  }

  lemma NumberCovered(g: Digraph, st: State, done: set<nat>, v: nat)
    requires Inv(g, st, done) && Fresh(g, st, v)
    ensures Covered(g, Number(g, Ready(st), v), done)
  {
    var st' := Number(g, Ready(st), v);
    NumberFacts(g, st, done, v);
    forall x, y | x in st'.onStack && Processed(g, st', x, y) ensures y in st'.index {
      NumberProcessed(g, st, done, v, x, y);
    }
    forall i: nat, x, y | InSegment(st', i, x) && Processed(g, st', x, y) ensures EdgeCovered(st', i, x, y) {
      NumberProcessed(g, st, done, v, x, y);
      assert i < |st.dfs|;
      assert i + 1 < |st.dfs| ==> st'.At(i + 1) == st.At(i + 1);
      assert InSegment(st, i, x);
      if Processed(g, st, x, y) {
        assert EdgeCovered(st, i, x, y);
      } else {
        assert LowReached(g, st, i);
      }
    }
  }

  // ----- a node is finished -----

  lemma MergeFacts(g: Digraph, st: State, done: set<nat>)
    requires Shape(g, st, done) && |st.dfs| > 0
    ensures var t := |st.dfs| - 1;
            && st.At(t) in st.lowlink && (t > 0 ==> st.At(t - 1) in st.lowlink)
            && forall i: nat :: i < t ==> st.At(i) != st.At(t) && st.Num(st.At(i)) < st.Num(st.At(t))
  {
    var t := |st.dfs| - 1;
    assert FrameOk(g, st, t);
    if t > 0 {
      assert FrameOk(g, st, t - 1);
    }
    forall i: nat | i < t ensures st.Num(st.At(i)) < st.Num(st.At(t)) {
    }
  }

  lemma MergeSame(g: Digraph, st: State, done: set<nat>)
    requires Shape(g, st, done) && |st.dfs| > 0
    requires st.dfs[|st.dfs| - 1].node in st.lowlink && (|st.dfs| > 1 ==> st.dfs[|st.dfs| - 2].node in st.lowlink)
    ensures var st', t := Merge(st), |st.dfs| - 1;
            && |st'.dfs| == t && (forall i: nat :: i < t ==> st'.At(i) == st.At(i))
            && (forall x: nat :: st'.Num(x) == st.Num(x))
            && (forall i: nat :: i < t - 1 ==> st'.Low(st.At(i)) == st.Low(st.At(i)))
            && (t > 0 ==> st'.Low(st.At(t - 1)) == if st.Low(st.At(t)) < st.Low(st.At(t - 1)) then st.Low(st.At(t))
                else st.Low(st.At(t - 1)))
  {
    var t := |st.dfs| - 1;
    forall i: nat | i < t - 1 ensures st.At(i) != st.At(t - 1) {
      assert st.Num(st.At(i)) < st.Num(st.At(t - 1));
    }
  }

  /** Edges processed once the exhausted top frame is gone were processed before. */
  lemma MergeProcessed(g: Digraph, st: State, done: set<nat>, x: nat, y: nat)
    requires Shape(g, st, done) && Exhausted(st)
    requires st.dfs[|st.dfs| - 1].node in st.lowlink && (|st.dfs| > 1 ==> st.dfs[|st.dfs| - 2].node in st.lowlink)
    requires Processed(g, Merge(st), x, y)
    ensures Processed(g, st, x, y)
  {
    var t := |st.dfs| - 1;
    forall i: nat | i < |st.dfs| ensures Taken(st, i, x, y) {
      if i < t {
        assert Taken(Merge(st), i, x, y);
      } else {
        assert FrameOk(g, st, t);
        var s := st.dfs[t].succs;
        assert s[..st.dfs[t].idx] == s;
        if x == st.At(t) {
          SuccIff(g, x, y);
        }
      }
    }
  }

  lemma MergeShape(g: Digraph, st: State, done: set<nat>)
    requires Shape(g, st, done) && |st.dfs| > 1
    requires st.dfs[|st.dfs| - 1].node in st.lowlink && st.dfs[|st.dfs| - 2].node in st.lowlink
    ensures Shape(g, Merge(st), done)
  {
    var st' := Merge(st);
    MergeSame(g, st, done);
    forall i: nat | i < |st'.dfs| ensures FrameOk(g, st', i) {
      assert FrameOk(g, st, i);
    }
    forall i: nat, j: nat | i < j < |st'.dfs| ensures st'.Num(st'.At(i)) < st'.Num(st'.At(j)) {
      assert st.Num(st.At(i)) < st.Num(st.At(j));
    }
    assert Rising(st');
    assert st'.At(0) == st.At(0);
  }

  /** A low link below its own number leads to a frame further down. */
  lemma LowEscapes(g: Digraph, st: State, done: set<nat>) returns (j: nat)
    requires Shape(g, st, done) && Linked(g, st) && |st.dfs| > 0
    requires st.Low(st.At(|st.dfs| - 1)) != st.Num(st.At(|st.dfs| - 1))
    ensures j < |st.dfs| - 1 && Reach(g.Arcs(), st.At(|st.dfs| - 1), st.At(j))
  {
    var t := |st.dfs| - 1;
    assert LowReached(g, st, t);
    var y: nat :| LowAt(g, st, t, y);
    assert ReachesAFrame(g, st, y);
    j :| ReachesFrame(g, st, y, j);
    ReachTrans(g.Arcs(), st.At(t), y, st.At(j));
  }

  lemma MergeLinked(g: Digraph, st: State, done: set<nat>)
    requires Shape(g, st, done) && Linked(g, st) && |st.dfs| > 1
    requires st.dfs[|st.dfs| - 1].node in st.lowlink && st.dfs[|st.dfs| - 2].node in st.lowlink
    requires st.Low(st.At(|st.dfs| - 1)) != st.Num(st.At(|st.dfs| - 1))
    ensures Linked(g, Merge(st))
  {
    var st', t := Merge(st), |st.dfs| - 1;
    MergeFacts(g, st, done);
    MergeSame(g, st, done);
    var j := LowEscapes(g, st, done);
    forall x | x in st'.onStack ensures ReachesAFrame(g, st', x) {
      assert ReachesAFrame(g, st, x);
      var i: nat :| ReachesFrame(g, st, x, i);
      if i < t {
        assert ReachesFrame(g, st', x, i);
      } else {
        ReachTrans(g.Arcs(), x, st.At(t), st.At(j));
        assert st.Num(st.At(j)) < st.Num(st.At(t));
        assert ReachesFrame(g, st', x, j);
      }
    }
    forall i: nat, x | i < |st'.dfs| && x in st'.onStack ensures FrameReaches(g, st', i, x) {
      assert FrameReaches(g, st, i, x);
    }
    forall i: nat | i < |st'.dfs| ensures LowReached(g, st', i) {
      MergeLow(g, st, done, i);
    }
  }

  lemma MergeLow(g: Digraph, st: State, done: set<nat>, i: nat)
    requires Shape(g, st, done) && Linked(g, st) && i < |st.dfs| - 1
    requires st.dfs[|st.dfs| - 1].node in st.lowlink && st.dfs[|st.dfs| - 2].node in st.lowlink
    ensures LowReached(g, Merge(st), i)
  {
    var st', t := Merge(st), |st.dfs| - 1;
    MergeFacts(g, st, done);
    MergeSame(g, st, done);
    assert LowReached(g, st, i) && LowReached(g, st, t);
    var y: nat :| LowAt(g, st, i, y);
    var z: nat :| LowAt(g, st, t, z);
    if st'.Low(st.At(i)) == st.Low(st.At(i)) {
      assert LowAt(g, st', i, y);
    } else {
      assert FrameOk(g, st, t) && FrameReaches(g, st, i, st.At(t));
      ReachTrans(g.Arcs(), st.At(i), st.At(t), z);
      assert LowAt(g, st', i, z);
    }
  }

  lemma MergeCovered(g: Digraph, st: State, done: set<nat>)
    requires Inv(g, st, done) && Exhausted(st) && |st.dfs| > 1
    requires st.dfs[|st.dfs| - 1].node in st.lowlink && st.dfs[|st.dfs| - 2].node in st.lowlink
    ensures Covered(g, Merge(st), done)
  {
    var st', t := Merge(st), |st.dfs| - 1;
    MergeFacts(g, st, done);
    MergeSame(g, st, done);
    forall x, y | x in st'.onStack && Processed(g, st', x, y) ensures y in st'.index {
      MergeProcessed(g, st, done, x, y);
    }
    forall i: nat, x, y | InSegment(st', i, x) && Processed(g, st', x, y) ensures EdgeCovered(st', i, x, y) {
      MergeProcessed(g, st, done, x, y);
      assert i + 1 < t ==> st'.At(i + 1) == st.At(i + 1);
      if i == t - 1 && st.Num(st.At(t)) <= st.Num(x) {
        assert InSegment(st, t, x);
        assert EdgeCovered(st, t, x, y);
      } else {
        assert InSegment(st, i, x);
        assert EdgeCovered(st, i, x, y);
      }
    }
  }

  /** The finished node is not the root of its component. */
  lemma MergeStep(g: Digraph, st: State, done: set<nat>)
    requires Inv(g, st, done) && Exhausted(st)
    requires st.dfs[|st.dfs| - 1].node in st.lowlink && (|st.dfs| > 1 ==> st.dfs[|st.dfs| - 2].node in st.lowlink)
    requires st.Low(st.At(|st.dfs| - 1)) != st.Num(st.At(|st.dfs| - 1))
    ensures |st.dfs| > 1 && Inv(g, Merge(st), done)
  {
    var j := LowEscapes(g, st, done);
    MergeShape(g, st, done);
    MergeLinked(g, st, done);
    MergeCovered(g, st, done);
  }

  // ----- the root of a component is finished -----

  /** Top frame exhausted, its low link its own number, its node at position `b` of the stack. */
  ghost predicate RootDone(g: Digraph, st: State, done: set<nat>, b: nat) {
    && Inv(g, st, done) && Exhausted(st)
    && st.Low(st.At(|st.dfs| - 1)) == st.Num(st.At(|st.dfs| - 1))
    && b < |st.sccStack| && st.sccStack[b] == st.At(|st.dfs| - 1)
  }

  ghost function Suffix(st: State, b: nat): set<nat>
    requires b <= |st.sccStack|
  {
    Elems(st.sccStack[b..])
  }

  ghost predicate IsComponent(g: Digraph, c: set<nat>) {
    && c != {}
    && forall u: nat, v: nat {:trigger SameComponent(g, u, v)} :: u in c ==> (v in c <==> SameComponent(g, u, v))
  }

  lemma SuffixIff(g: Digraph, st: State, done: set<nat>, b: nat, x: nat)
    requires Shape(g, st, done) && b < |st.sccStack|
    ensures x in Suffix(st, b) <==> x in st.onStack && st.Num(x) >= st.Num(st.sccStack[b])
    ensures x in Elems(st.sccStack[..b]) <==> x in st.onStack && st.Num(x) < st.Num(st.sccStack[b])
  {
    var s := st.sccStack;
    if x in Suffix(st, b) {
      var k :| 0 <= k < |s[b..]| && s[b..][k] == x;
      assert s[b + k] == x;
      assert k > 0 ==> st.Num(s[b]) < st.Num(s[b + k]);
    }
    if x in Elems(s[..b]) {
      var k :| 0 <= k < b && s[..b][k] == x;
      assert s[k] == x;
      assert st.Num(s[k]) < st.Num(s[b]);
    }
    if x in st.onStack {
      var k :| 0 <= k < |s| && s[k] == x;
      if k < b {
        assert s[..b][k] == x;
      } else {
        assert s[b..][k - b] == x;
      }
    }
  }

  lemma SuffixReaches(g: Digraph, st: State, done: set<nat>, b: nat, x: nat)
    requires RootDone(g, st, done, b) && x in Suffix(st, b)
    ensures SameComponent(g, x, st.At(|st.dfs| - 1))
  {
    var t := |st.dfs| - 1;
    SuffixIff(g, st, done, b, x);
    assert FrameOk(g, st, t);
    assert FrameReaches(g, st, t, x);
    assert ReachesAFrame(g, st, x);
    var i: nat :| ReachesFrame(g, st, x, i);
    assert i < t ==> st.Num(st.At(i)) < st.Num(st.At(t));
    assert FrameReaches(g, st, i, st.At(t));
    ReachTrans(g.Arcs(), x, st.At(i), st.At(t));
  }

  /** Nothing leaves the finished part once the suffix joins it. */
  lemma SuffixClosed(g: Digraph, st: State, done: set<nat>, b: nat)
    requires RootDone(g, st, done, b)
    ensures Closed(g.Arcs(), done + Suffix(st, b))
  {
    var t := |st.dfs| - 1;
    forall x: nat, y: nat | (x, y) in g.Arcs() && x in done + Suffix(st, b) ensures y in done + Suffix(st, b) {
      if x !in done {
        SuffixIff(g, st, done, b, x);
        assert InSegment(st, t, x);
        SuffixProcessed(g, st, done, b, x, y);
        assert EdgeCovered(st, t, x, y);
        SuffixIff(g, st, done, b, y);
      }
    }
  }

  lemma SuffixProcessed(g: Digraph, st: State, done: set<nat>, b: nat, x: nat, y: nat)
    requires RootDone(g, st, done, b) && x in Suffix(st, b) && (x, y) in g.Arcs()
    ensures Processed(g, st, x, y)
  {
    var t := |st.dfs| - 1;
    SuffixIff(g, st, done, b, x);
    forall i: nat | i < |st.dfs| ensures Taken(st, i, x, y) {
      if i < t {
        assert st.Num(st.At(i)) < st.Num(st.At(t));
      } else if st.At(t) == x {
        assert FrameOk(g, st, t);
        assert st.dfs[t].succs[..st.dfs[t].idx] == st.dfs[t].succs;
        SuccIff(g, x, y);
      }
    }
  }

  lemma SuffixComponent(g: Digraph, st: State, done: set<nat>, b: nat)
    requires RootDone(g, st, done, b)
    ensures IsComponent(g, Suffix(st, b))
  {
    var c, r := Suffix(st, b), st.At(|st.dfs| - 1);
    SuffixIff(g, st, done, b, r);
    assert st.sccStack[b] in st.onStack;
    forall u: nat, v: nat | u in c ensures v in c <==> SameComponent(g, u, v) {
      SuffixReaches(g, st, done, b, u);
      if v in c {
        SuffixReaches(g, st, done, b, v);
        ReachTrans(g.Arcs(), u, r, v);
        ReachTrans(g.Arcs(), v, r, u);
      } else if SameComponent(g, u, v) {
        SuffixClosed(g, st, done, b);
        ReachStays(g.Arcs(), done + c, u, v);
        ReachStays(g.Arcs(), done, v, u);
        SuffixIff(g, st, done, b, u);
        assert false;
      }
    }
  }

  lemma RootFacts(g: Digraph, st: State, done: set<nat>, b: nat)
    requires RootDone(g, st, done, b)
    ensures var t := |st.dfs| - 1;
            && st.At(t) in st.lowlink && (t > 0 ==> st.At(t - 1) in st.lowlink)
            && Merge(st) == st.(dfs := st.dfs[..t])
            && (forall i: nat :: i < t ==> st.At(i) != st.At(t) && st.Num(st.At(i)) < st.Num(st.At(t)))
            && (t > 0 ==> b > 0) && (t == 0 ==> b == 0)
  {
    var t := |st.dfs| - 1;
    MergeFacts(g, st, done);
    assert FrameOk(g, st, t);
    if t > 0 {
      assert LowReached(g, st, t - 1);
      assert st.At(0) != st.At(t);
    } else {
      var deepest, root := st.sccStack[0], st.sccStack[b];
      assert b > 0 ==> st.Num(deepest) < st.Num(root);
    }
  }

  lemma EmitStep(g: Digraph, st: State, done: set<nat>, b: nat)
    requires RootDone(g, st, done, b)
    requires st.dfs[|st.dfs| - 1].node in st.lowlink && (|st.dfs| > 1 ==> st.dfs[|st.dfs| - 2].node in st.lowlink)
    ensures Inv(g, Emit(Merge(st), b), done + Suffix(st, b))
    ensures IsComponent(g, Suffix(st, b)) && Suffix(st, b) !! done
    ensures Closed(g.Arcs(), done + Suffix(st, b))
  {
    RootFacts(g, st, done, b);
    EmitShape(g, st, done, b);
    EmitLinked(g, st, done, b);
    EmitCovered(g, st, done, b);
    SuffixComponent(g, st, done, b);
    SuffixDisjoint(g, st, done, b);
  }

  lemma SuffixDisjoint(g: Digraph, st: State, done: set<nat>, b: nat)
    requires Shape(g, st, done) && b < |st.sccStack|
    ensures Suffix(st, b) !! done
    ensures st.onStack == Elems(st.sccStack[..b]) + Suffix(st, b) && Elems(st.sccStack[..b]) !! Suffix(st, b)
  {
    forall x: nat {
      SuffixIff(g, st, done, b, x);
    }
  }

  lemma EmitShape(g: Digraph, st: State, done: set<nat>, b: nat)
    requires RootDone(g, st, done, b)
    ensures Shape(g, Emit(st.(dfs := st.dfs[..|st.dfs| - 1]), b), done + Suffix(st, b))
  {
    var t := |st.dfs| - 1;
    RootFacts(g, st, done, b);
    SuffixDisjoint(g, st, done, b);
    var st' := Emit(st.(dfs := st.dfs[..t]), b);
    forall i: nat | i < |st'.dfs| ensures FrameOk(g, st', i) {
      assert FrameOk(g, st, i);
      SuffixIff(g, st, done, b, st.At(i));
      assert st'.At(i) == st.At(i);
    }
    EmitRising(g, st, done, b);
    assert st'.onStack == Elems(st.sccStack[..b]) && st'.index == st.index && st'.lowlink == st.lowlink
           && st'.counter == st.counter;
    assert st'.onStack + (done + Suffix(st, b)) == st.onStack + done;
    assert st'.dfs != [] ==> st'.At(0) == st.At(0) && st'.sccStack[0] == st.sccStack[0];
  }

  lemma EmitRising(g: Digraph, st: State, done: set<nat>, b: nat)
    requires Rising(st) && b <= |st.sccStack| && st.dfs != []
    ensures Rising(Emit(st.(dfs := st.dfs[..|st.dfs| - 1]), b))
  {
    var st' := Emit(st.(dfs := st.dfs[..|st.dfs| - 1]), b);
    assert forall x: nat :: st'.Num(x) == st.Num(x);
    forall i: nat, j: nat | i < j < |st'.dfs| ensures st'.Num(st'.At(i)) < st'.Num(st'.At(j)) {
      assert st.Num(st.At(i)) < st.Num(st.At(j));
    }
  }

  lemma EmitLinked(g: Digraph, st: State, done: set<nat>, b: nat)
    requires RootDone(g, st, done, b)
    ensures Linked(g, Emit(st.(dfs := st.dfs[..|st.dfs| - 1]), b))
  {
    var t := |st.dfs| - 1;
    RootFacts(g, st, done, b);
    var st' := Emit(st.(dfs := st.dfs[..t]), b);
    assert forall x: nat :: st'.Num(x) == st.Num(x) && st'.Low(x) == st.Low(x);
    assert forall i: nat :: i < t ==> st'.At(i) == st.At(i);
    forall x | x in st'.onStack ensures ReachesAFrame(g, st', x) {
      SuffixIff(g, st, done, b, x);
      assert ReachesAFrame(g, st, x);
      var i: nat :| ReachesFrame(g, st, x, i);
      assert ReachesFrame(g, st', x, i);
    }
    forall i: nat, x | i < |st'.dfs| && x in st'.onStack ensures FrameReaches(g, st', i, x) {
      SuffixIff(g, st, done, b, x);
      assert FrameReaches(g, st, i, x);
    }
    forall i: nat | i < |st'.dfs| ensures LowReached(g, st', i) {
      EmitLow(g, st, done, b, i);
    }
  }

  lemma EmitLow(g: Digraph, st: State, done: set<nat>, b: nat, i: nat)
    requires RootDone(g, st, done, b) && i < |st.dfs| - 1
    ensures LowReached(g, Emit(st.(dfs := st.dfs[..|st.dfs| - 1]), b), i)
  {
    var t := |st.dfs| - 1;
    RootFacts(g, st, done, b);
    var st' := Emit(st.(dfs := st.dfs[..t]), b);
    assert st'.At(i) == st.At(i);
    assert LowReached(g, st, i);
    var y: nat :| LowAt(g, st, i, y);
    SuffixIff(g, st, done, b, y);
    assert LowAt(g, st', i, y);
  }

  lemma EmitCovered(g: Digraph, st: State, done: set<nat>, b: nat)
    requires RootDone(g, st, done, b)
    ensures Covered(g, Emit(st.(dfs := st.dfs[..|st.dfs| - 1]), b), done + Suffix(st, b))
  {
    var t := |st.dfs| - 1;
    RootFacts(g, st, done, b);
    SuffixClosed(g, st, done, b);
    var st' := Emit(st.(dfs := st.dfs[..t]), b);
    assert forall x: nat :: st'.Num(x) == st.Num(x) && st'.Low(x) == st.Low(x);
    assert forall i: nat :: i < t ==> st'.At(i) == st.At(i);
    forall x, y | x in st'.onStack && Processed(g, st', x, y) ensures y in st'.index {
      EmitProcessed(g, st, done, b, x, y);
      SuffixIff(g, st, done, b, x);
    }
    forall i: nat, x, y | InSegment(st', i, x) && Processed(g, st', x, y) ensures EdgeCovered(st', i, x, y) {
      EmitProcessed(g, st, done, b, x, y);
      SuffixIff(g, st, done, b, x);
      SuffixIff(g, st, done, b, y);
      assert InSegment(st, i, x);
      assert EdgeCovered(st, i, x, y);
    }
  }

  lemma EmitProcessed(g: Digraph, st: State, done: set<nat>, b: nat, x: nat, y: nat)
    requires RootDone(g, st, done, b)
    requires Processed(g, Emit(st.(dfs := st.dfs[..|st.dfs| - 1]), b), x, y)
    ensures Processed(g, st, x, y)
  {
    RootFacts(g, st, done, b);
    var st' := Merge(st);
    forall i: nat | i < |st'.dfs| ensures Taken(st', i, x, y) {
      assert Taken(Emit(st', b), i, x, y);
    }
    MergeProcessed(g, st, done, x, y);
  }

  // ----- what has been yielded -----

  ghost function Union(comps: seq<seq<nat>>): set<nat> {
    set c, v | c in comps && v in c :: v
  }

  /** Component `k`: a whole strongly connected component, listed once, apart from the earlier
      ones; and no edge leads from it or an earlier one to a later one. */
  ghost predicate YieldedAt(g: Digraph, comps: seq<seq<nat>>, k: nat)
    requires k < |comps|
  {
    && NoDup(comps[k]) && IsComponent(g, Elems(comps[k]))
    && Elems(comps[k]) !! Union(comps[..k])
    && Closed(g.Arcs(), Union(comps[..k + 1]))
  }

  ghost predicate Yielded(g: Digraph, comps: seq<seq<nat>>) {
    forall k: nat {:trigger YieldedAt(g, comps, k)} :: k < |comps| ==> YieldedAt(g, comps, k)
  }

  lemma YieldedNext(g: Digraph, comps: seq<seq<nat>>, c: seq<nat>)
    requires Yielded(g, comps) && NoDup(c) && IsComponent(g, Elems(c)) && Elems(c) !! Union(comps)
    requires Closed(g.Arcs(), Union(comps) + Elems(c))
    ensures Yielded(g, comps + [c]) && Union(comps + [c]) == Union(comps) + Elems(c)
  {
    var all := comps + [c];
    UnionSnoc(comps, c);
    forall k: nat | k < |all| ensures YieldedAt(g, all, k) {
      if k < |comps| {
        assert YieldedAt(g, comps, k);
        assert all[..k] == comps[..k] && all[..k + 1] == comps[..k + 1];
      } else {
        assert all[..k] == comps && all[..k + 1] == all;
      }
    }
  }

  lemma UnionSnoc(comps: seq<seq<nat>>, c: seq<nat>)
    ensures Union(comps + [c]) == Union(comps) + Elems(c)
  {
    var all := comps + [c];
    forall v: nat ensures v in Union(all) <==> v in Union(comps) + Elems(c) {
      if v in Union(comps) {
        var d :| d in comps && v in d;
        assert d in all;
      }
      if v in c {
        assert all[|comps|] == c;
      }
    }
  }

  /** Steps the search may still take on the frames it has open. */
  ghost function Work(dfs: seq<Frame>): nat {
    if dfs == [] then 0
    else var f := dfs[|dfs| - 1];
         Work(dfs[..|dfs| - 1]) + 1 + if f.idx < |f.succs| then |f.succs| - f.idx else 0
  }

  // ----- the order of the search -----

  ghost function SuccLists(g: Digraph): (l: Lists)
    requires g.Valid()
    ensures |l| == g.n && forall v: nat :: v < g.n ==> l[v] == g.Succs(v)
  {
    seq(g.n, v requires 0 <= v < g.n => g.Succs(v))
  }

  /** The recursive search of the whole graph, nodes and successors taken as the graph lists them. */
  ghost function Whole(g: Digraph): Visit
    requires g.Valid()
  {
    Explore(SuccLists(g), Below(g.n), Numbers(g.n), {})
  }

  ghost function Untried(f: Frame): seq<nat> {
    if f.idx <= |f.succs| then f.succs[f.idx..] else []
  }

  ghost function Opens(dfs: seq<Frame>): (r: seq<Open>)
    ensures |r| == |dfs| && forall i :: 0 <= i < |r| ==> r[i] == Open(dfs[i].node, Untried(dfs[i]))
  {
    seq(|dfs|, i requires 0 <= i < |dfs| => Open(dfs[i].node, Untried(dfs[i])))
  }

  /** The search so far is the start of the recursive one, and numbers are places among the nodes met. */
  ghost predicate Traced(g: Digraph, st: State, cursor: nat, met: seq<nat>, left: seq<nat>) {
    && g.Valid() && cursor <= g.n
    && OnCourse(SuccLists(g), Below(g.n), Numbers(g.n), met, left, Opens(st.dfs), Numbers(g.n)[cursor..])
    && Numbered(st, met)
  }

  ghost predicate PlaceIs(st: State, met: seq<nat>, v: nat) {
    v in st.index && st.index[v] < |met| && met[st.index[v]] == v
  }

  ghost predicate Numbered(st: State, met: seq<nat>) {
    && |met| == st.counter && Elems(met) == st.index.Keys
    && forall v {:trigger PlaceIs(st, met, v)} :: v in st.index ==> PlaceIs(st, met, v)
  }

  lemma TracedSkips(g: Digraph, st: State, c0: nat, cursor: nat, met: seq<nat>, left: seq<nat>)
    requires Traced(g, st, c0, met, left) && st.dfs == [] && c0 <= cursor <= g.n
    requires forall v: nat :: c0 <= v < cursor ==> v in st.index
    ensures Traced(g, st, cursor, met, left)
  {
    assert Opens(st.dfs) == [];
    forall v: nat | c0 <= v < cursor ensures v in met {
      assert v in Elems(met);
    }
    RootsPassed(SuccLists(g), Below(g.n), Numbers(g.n), met, left, g.n, c0, cursor);
  }

  lemma TracedRoot(g: Digraph, st: State, cursor: nat, met: seq<nat>, left: seq<nat>)
    requires Traced(g, st, cursor, met, left) && st.dfs == [] && cursor < g.n && cursor !in st.index
    ensures Traced(g, Number(g, st, cursor), cursor + 1, met + [cursor], left)
  {
    assert Numbers(g.n)[cursor..][1..] == Numbers(g.n)[cursor + 1..] && cursor !in Elems(met);
    RootMet(SuccLists(g), Below(g.n), Numbers(g.n), met, left, Numbers(g.n)[cursor..]);
    OpensMore(st.dfs, Frame(cursor, g.Succs(cursor), 0));
    NumberedMet(g, st, met, cursor);
  }

  lemma AdvancedOpens(st: State, v: nat)
    requires Next(st, v)
    ensures var frames := Opens(st.dfs);
            var top := frames[|frames| - 1];
            && top.todo != [] && top.todo[0] == v
            && Opens(Advance(st).dfs) == frames[..|frames| - 1] + [top.(todo := top.todo[1..])]
  {
    var frames, frames' := Opens(st.dfs), Opens(Advance(st).dfs);
    var t := |frames| - 1;
    var f := st.dfs[t];
    assert f.succs[f.idx..] == [v] + f.succs[f.idx + 1..];
    assert frames'[t] == frames[t].(todo := frames[t].todo[1..]);
    assert forall i :: 0 <= i < t ==> frames'[i] == frames[i];
  }

  lemma TracedBack(g: Digraph, st: State, st': State, cursor: nat, met: seq<nat>, left: seq<nat>, v: nat)
    requires Traced(g, st, cursor, met, left) && Next(st, v) && v in st.index
    requires st'.dfs == Advance(st).dfs && st'.index == st.index && st'.counter == st.counter
    ensures Traced(g, st', cursor, met, left)
  {
    AdvancedOpens(st, v);
    assert v in Elems(met);
    NumberedStays(st, st', met);
    NeighborPassed(SuccLists(g), Below(g.n), Numbers(g.n), met, left, Opens(st.dfs), Numbers(g.n)[cursor..],
                   Opens(st'.dfs));
  }

  lemma TracedEntered(g: Digraph, st: State, cursor: nat, met: seq<nat>, left: seq<nat>, v: nat)
    requires Traced(g, st, cursor, met, left) && Next(st, v) && v < g.n && v !in st.index
    ensures Traced(g, Number(g, Advance(st), v), cursor, met + [v], left)
  {
    AdvancedOpens(st, v);
    assert v !in Elems(met);
    NumberedStays(st, Advance(st), met);
    var st' := Number(g, Advance(st), v);
    var frames, frames' := Opens(st.dfs), Opens(st'.dfs);
    var top := frames[|frames| - 1];
    OpensMore(Advance(st).dfs, Frame(v, g.Succs(v), 0));
    assert frames' == frames[..|frames| - 1] + [top.(todo := top.todo[1..]), Open(v, SuccLists(g)[v])];
    NeighborMet(SuccLists(g), Below(g.n), Numbers(g.n), met, left, frames, Numbers(g.n)[cursor..], frames');
    NumberedMet(g, Advance(st), met, v);
  }

  lemma OpensMore(dfs: seq<Frame>, f: Frame)
    requires f.idx == 0
    ensures Opens(dfs + [f]) == Opens(dfs) + [Open(f.node, f.succs)]
  {
    assert f.succs[0..] == f.succs;
  }

  lemma NumberedMet(g: Digraph, st: State, met: seq<nat>, v: nat)
    requires g.Valid() && v < g.n && v !in st.index && Numbered(st, met)
    ensures Numbered(Number(g, st, v), met + [v])
  {
    var st', met' := Number(g, st, v), met + [v];
    forall x | x in st'.index ensures PlaceIs(st', met', x) {
      assert x in st.index ==> PlaceIs(st, met, x);
    }
  }

  lemma NumberedStays(st: State, st': State, met: seq<nat>)
    requires Numbered(st, met) && st'.index == st.index && st'.counter == st.counter
    ensures Numbered(st', met)
  {
    forall x | x in st'.index ensures PlaceIs(st', met, x) {
      assert PlaceIs(st, met, x);
    }
  }

  lemma TracedFollowed(g: Digraph, st: State, cursor: nat, met: seq<nat>, left: seq<nat>, v: nat)
    requires Traced(g, st, cursor, met, left) && Next(st, v)
    requires v < g.n && st.dfs[|st.dfs| - 1].node in st.lowlink
    ensures Traced(g, Followed(g, st, v), cursor, if v in st.index then met else met + [v], left)
  {
    if v in st.index {
      TracedBack(g, st, Back(st, v), cursor, met, left, v);
    } else {
      TracedEntered(g, st, cursor, met, left, v);
    }
  }

  lemma TracedLeft(g: Digraph, st: State, st': State, cursor: nat, met: seq<nat>, left: seq<nat>)
    requires Traced(g, st, cursor, met, left) && Exhausted(st)
    requires st'.dfs == st.dfs[..|st.dfs| - 1] && st'.index == st.index && st'.counter == st.counter
    ensures Traced(g, st', cursor, met, left + [st.dfs[|st.dfs| - 1].node])
  {
    var frames := Opens(st.dfs);
    assert frames[|frames| - 1].todo == [];
    assert Opens(st'.dfs) == frames[..|frames| - 1];
    NumberedStays(st, st', met);
    NodeLeft(SuccLists(g), Below(g.n), Numbers(g.n), met, left, frames, Numbers(g.n)[cursor..]);
  }

  ghost predicate LatestFirst(met: seq<nat>, c: seq<nat>) {
    KeepsOrder(met, Reversed(c))
  }

  /** The node a component was entered by, listed last. */
  ghost function Root(comps: seq<seq<nat>>, k: nat): nat {
    if k < |comps| && comps[k] != [] then comps[k][|comps[k]| - 1] else 0
  }

  /** Members stand from the one met last to the one met first, and that one has been left. */
  ghost predicate RootLeft(search: Visit, comps: seq<seq<nat>>, k: nat) {
    k < |comps| && comps[k] != [] && LatestFirst(search.met, comps[k]) && Root(comps, k) in search.left
  }

  ghost predicate LeftSooner(search: Visit, comps: seq<seq<nat>>, j: nat, k: nat) {
    Before(search.left, Root(comps, j), Root(comps, k))
  }

  /** Components stand in the order in which their roots are left. */
  ghost predicate AsLeft(search: Visit, comps: seq<seq<nat>>) {
    && (forall k: nat {:trigger RootLeft(search, comps, k)} :: k < |comps| ==> RootLeft(search, comps, k))
    && forall j: nat, k: nat {:trigger LeftSooner(search, comps, j, k)} :: j < k < |comps| ==>
         LeftSooner(search, comps, j, k)
  }

  lemma RootLeftGrows(search: Visit, more: Visit, comps: seq<seq<nat>>, k: nat)
    requires RootLeft(search, comps, k)
    ensures RootLeft(Visit(search.met + more.met, search.left + more.left), comps, k)
  {
    var c := Reversed(comps[k]);
    forall i, j | 0 <= i < j < |c| ensures Before(search.met + more.met, c[i], c[j]) {
      BeforeGrows(search.met, more.met, c[i], c[j]);
    }
  }

  lemma AsLeftGrows(search: Visit, more: Visit, comps: seq<seq<nat>>)
    requires AsLeft(search, comps)
    ensures AsLeft(Visit(search.met + more.met, search.left + more.left), comps)
  {
    var all := Visit(search.met + more.met, search.left + more.left);
    forall k: nat | k < |comps| ensures RootLeft(all, comps, k) {
      assert RootLeft(search, comps, k);
      RootLeftGrows(search, more, comps, k);
    }
    forall j: nat, k: nat | j < k < |comps| ensures LeftSooner(all, comps, j, k) {
      assert LeftSooner(search, comps, j, k);
      BeforeGrows(search.left, more.left, Root(comps, j), Root(comps, k));
    }
  }

  lemma AsLeftNext(met: seq<nat>, left: seq<nat>, comps: seq<seq<nat>>, c: seq<nat>, root: nat)
    requires AsLeft(Visit(met, left), comps) && LatestFirst(met, c) && c != [] && c[|c| - 1] == root
    ensures AsLeft(Visit(met, left + [root]), comps + [c])
  {
    var search, search', all := Visit(met, left), Visit(met, left + [root]), comps + [c];
    LeftMore(met, left, comps, root);
    assert search'.left[|left|] == root;
    forall k: nat | k < |all| ensures RootLeft(search', all, k) {
      assert k < |comps| ==> RootLeft(search', comps, k) && Root(all, k) == Root(comps, k);
    }
    forall j: nat, k: nat | j < k < |all| ensures LeftSooner(search', all, j, k) {
      assert Root(all, j) == Root(comps, j);
      if k < |comps| {
        assert LeftSooner(search', comps, j, k) && Root(all, k) == Root(comps, k);
      } else {
        assert RootLeft(search, comps, j);
        var i :| 0 <= i < |left| && left[i] == Root(comps, j);
        assert search'.left[i] == Root(all, j);
      }
    }
  }

  lemma MetMore(met: seq<nat>, left: seq<nat>, comps: seq<seq<nat>>, v: nat)
    requires AsLeft(Visit(met, left), comps)
    ensures AsLeft(Visit(met + [v], left), comps)
  {
    AsLeftGrows(Visit(met, left), Visit([v], []), comps);
    assert left + [] == left;
  }

  lemma LeftMore(met: seq<nat>, left: seq<nat>, comps: seq<seq<nat>>, v: nat)
    requires AsLeft(Visit(met, left), comps)
    ensures AsLeft(Visit(met, left + [v]), comps)
  {
    AsLeftGrows(Visit(met, left), Visit([], [v]), comps);
    assert met + [] == met;
  }

  lemma StackOrder(g: Digraph, st: State, done: set<nat>, met: seq<nat>, p: nat, q: nat)
    requires Shape(g, st, done) && Numbered(st, met) && p < q < |st.sccStack|
    ensures Before(met, st.sccStack[p], st.sccStack[q])
  {
    var u, v := st.sccStack[p], st.sccStack[q];
    assert u in Elems(st.sccStack) && v in Elems(st.sccStack);
    assert st.Num(u) < st.Num(v);
    assert PlaceIs(st, met, u) && PlaceIs(st, met, v);
  }

  lemma StackKeepsOrder(g: Digraph, st: State, done: set<nat>, met: seq<nat>)
    requires Shape(g, st, done) && Numbered(st, met)
    ensures KeepsOrder(met, st.sccStack)
  {
    forall i, j | 0 <= i < j < |st.sccStack| ensures Before(met, st.sccStack[i], st.sccStack[j]) {
      StackOrder(g, st, done, met, i, j);
    }
  }

  /** A stack from a place on, read from the top, is latest first. */
  lemma PoppedLatestFirst(met: seq<nat>, s: seq<nat>, b: nat)
    requires KeepsOrder(met, s) && b <= |s|
    ensures LatestFirst(met, Reversed(s[b..]))
  {
    SuffixKeepsOrder(met, s, b);
    ReversedTwice(s[b..]);
  }

  /** A root is left with its component. */
  lemma LeftWith(g: Digraph, st: State, done: set<nat>, cursor: nat, met: seq<nat>, left: seq<nat>,
                 comps: seq<seq<nat>>, b: nat)
    requires Traced(g, st, cursor, met, left) && AsLeft(Visit(met, left), comps) && RootDone(g, st, done, b)
    ensures AsLeft(Visit(met, left + [st.sccStack[b]]), comps + [Reversed(st.sccStack[b..])])
  {
    StackKeepsOrder(g, st, done, met);
    PoppedLatestFirst(met, st.sccStack, b);
    AsLeftNext(met, left, comps, Reversed(st.sccStack[b..]), st.sccStack[b]);
  }

  /** All that is kept between steps. */
  ghost predicate Searched(g: Digraph, st: State, comps: seq<seq<nat>>, cursor: nat, met: seq<nat>, left: seq<nat>) {
    && Inv(g, st, Union(comps)) && Yielded(g, comps)
    && Traced(g, st, cursor, met, left) && AsLeft(Visit(met, left), comps)
    && forall v: nat :: v < cursor ==> v in st.index
  }

  lemma FollowedSearched(g: Digraph, st: State, comps: seq<seq<nat>>, cursor: nat, met: seq<nat>, left: seq<nat>,
                         f: Frame)
    requires Searched(g, st, comps, cursor, met, left)
    requires st.dfs != [] && st.dfs[|st.dfs| - 1] == f && f.idx < |f.succs|
    ensures f.succs[f.idx] < g.n && f.node in st.lowlink
    ensures var v := f.succs[f.idx];
            var st' := Followed(g, st, v);
            && Searched(g, st', comps, cursor, if v in st.index then met else met + [v], left)
            && (|st.index| < |st'.index| <= g.n || (st'.index == st.index && Work(st'.dfs) < Work(st.dfs)))
  {
    var v := f.succs[f.idx];
    DescendFacts(g, st, Union(comps), f);
    DescendStep(g, st, Union(comps), f);
    TracedFollowed(g, st, cursor, met, left, v);
    MetMore(met, left, comps, v);
  }

  lemma StartSearched(g: Digraph, st: State, comps: seq<seq<nat>>, cursor: nat, met: seq<nat>, left: seq<nat>)
    requires Searched(g, st, comps, cursor, met, left) && st.dfs == [] && cursor < g.n && cursor !in st.index
    ensures Searched(g, Number(g, st, cursor), comps, cursor + 1, met + [cursor], left)
    ensures |st.index| < |Number(g, st, cursor).index| <= g.n
  {
    RootNumbered(g, st, Union(comps), cursor);
    TracedRoot(g, st, cursor, met, left);
    MetMore(met, left, comps, cursor);
  }

  lemma SkipSearched(g: Digraph, st: State, comps: seq<seq<nat>>, c0: nat, cursor: nat, met: seq<nat>, left: seq<nat>)
    requires Searched(g, st, comps, c0, met, left) && st.dfs == [] && c0 <= cursor <= g.n
    requires forall v: nat :: c0 <= v < cursor ==> v in st.index
    ensures Searched(g, st, comps, cursor, met, left)
  {
    TracedSkips(g, st, c0, cursor, met, left);
  }

  lemma RootSearched(g: Digraph, st: State, comps: seq<seq<nat>>, cursor: nat, met: seq<nat>, left: seq<nat>, b: nat)
    requires Searched(g, st, comps, cursor, met, left) && RootDone(g, st, Union(comps), b)
    requires st.dfs[|st.dfs| - 1].node in st.lowlink && (|st.dfs| > 1 ==> st.dfs[|st.dfs| - 2].node in st.lowlink)
    ensures Searched(g, Emit(Merge(st), b), comps + [Reversed(st.sccStack[b..])], cursor, met, left + [st.sccStack[b]])
  {
    var root, st' := st.sccStack[b], Emit(Merge(st), b);
    RootStep(g, st, comps, b, Reversed(st.sccStack[b..]));
    LeftWith(g, st, Union(comps), cursor, met, left, comps, b);
    TracedLeft(g, st, st', cursor, met, left);
  }

  lemma InnerSearched(g: Digraph, st: State, comps: seq<seq<nat>>, cursor: nat, met: seq<nat>, left: seq<nat>)
    requires Searched(g, st, comps, cursor, met, left) && Exhausted(st)
    requires st.dfs[|st.dfs| - 1].node in st.lowlink && (|st.dfs| > 1 ==> st.dfs[|st.dfs| - 2].node in st.lowlink)
    requires st.Low(st.At(|st.dfs| - 1)) != st.Num(st.At(|st.dfs| - 1))
    ensures Searched(g, Merge(st), comps, cursor, met, left + [st.dfs[|st.dfs| - 1].node])
  {
    MergeStep(g, st, Union(comps));
    TracedLeft(g, st, Merge(st), cursor, met, left);
    LeftMore(met, left, comps, st.dfs[|st.dfs| - 1].node);
  }

  lemma AsLeftInAll(g: Digraph, st: State, cursor: nat, met: seq<nat>, left: seq<nat>, comps: seq<seq<nat>>)
    requires Traced(g, st, cursor, met, left) && AsLeft(Visit(met, left), comps)
    ensures AsLeft(Whole(g), comps)
  {
    CourseFrom(SuccLists(g), Below(g.n), Numbers(g.n), met, left, Opens(st.dfs), Numbers(g.n)[cursor..]);
    AsLeftGrows(Visit(met, left),
                Ahead(SuccLists(g), Below(g.n), Opens(st.dfs), Numbers(g.n)[cursor..], Elems(met)), comps);
  }

  class TarjanScc {
    const graph: Digraph
    var indexCounter: nat
    var sccStack: seq<nat>
    var onStack: set<nat>
    var index: map<nat, nat>
    var lowlink: map<nat, nat>
    var cursor: nat
    var dfsStack: seq<Frame>
    ghost var yielded: seq<seq<nat>>
    ghost var met: seq<nat>
    ghost var left: seq<nat>

    ghost function S(): State
      reads this
    {
      State(indexCounter, sccStack, onStack, index, lowlink, dfsStack)
    }

    ghost predicate Valid()
      reads this
    {
      Searched(graph, S(), yielded, cursor, met, left)
    }

    constructor (g: Digraph)
      requires g.Valid()
      ensures Valid() && graph == g && yielded == []
    {
      graph := g;
      indexCounter, sccStack, onStack, index, lowlink := 0, [], {}, map[], map[];
      cursor, dfsStack, yielded, met, left := 0, [], [], [], [];
      new;
      assert S().onStack == Elems(S().sccStack);
      CourseBegins(SuccLists(graph), Below(graph.n), Numbers(graph.n));
      assert Opens([]) == [] && Numbers(graph.n)[0..] == Numbers(graph.n);
    }

    ghost function Unnumbered(): nat
      reads this
    {
      if |index| <= graph.n then graph.n - |index| else 0
    }

    /** The next component, or nothing once every node has been yielded. */
    method Next() returns (scc: Option<seq<nat>>)
      requires Valid()
      modifies this
      ensures Valid()
      ensures scc.Some? ==> yielded == old(yielded) + [scc.value]
      ensures scc.None? ==> yielded == old(yielded) && Union(yielded) == Below(graph.n)
      ensures graph.Valid() && AsLeft(Whole(graph), yielded)
    {
      var more := true;
      scc := None;
      while more && scc.None?
        invariant Valid()
        invariant yielded == if scc.Some? then old(yielded) + [scc.value] else old(yielded)
        invariant !more ==> scc.None? && Union(yielded) == Below(graph.n)
        decreases scc.None?, more, Unnumbered(), Work(dfsStack)
      {
        scc, more := Turn();
      }
      AsLeftInAll(graph, S(), cursor, met, left, yielded);
    }

    method Turn() returns (scc: Option<seq<nat>>, more: bool)
      requires Valid()
      modifies this
      ensures Valid()
      ensures yielded == if scc.Some? then old(yielded) + [scc.value] else old(yielded)
      ensures !more ==> scc.None? && Union(yielded) == Below(graph.n)
      ensures more ==>
                || Unnumbered() < old(Unnumbered())
                || (Unnumbered() == old(Unnumbered()) && Work(dfsStack) < old(Work(dfsStack)))
    {
      scc, more := None, true;
      if dfsStack == [] {
        more := NextRoot();
      } else {
        var f := dfsStack[|dfsStack| - 1];
        if f.idx < |f.succs| {
          Descend(f);
        } else {
          scc := Finish(f.node);
        }
      }
    }

    /** Enter `v` with the next number and a frame of its own. */
    method Enter(v: nat)
      requires graph.Valid() && v < graph.n
      modifies this
      ensures S() == Number(graph, old(S()), v) && cursor == old(cursor) && yielded == old(yielded)
      ensures met == old(met) + [v] && left == old(left)
    {
      met := met + [v];
      index := index[v := indexCounter];
      lowlink := lowlink[v := indexCounter];
      indexCounter := indexCounter + 1;
      sccStack := sccStack + [v];
      onStack := onStack + {v};
      dfsStack := dfsStack + [Frame(v, graph.Succs(v), 0)];
    }

    method Descend(f: Frame)
      requires Valid() && dfsStack != [] && dfsStack[|dfsStack| - 1] == f && f.idx < |f.succs|
      modifies this
      ensures Valid() && yielded == old(yielded)
      ensures Unnumbered() < old(Unnumbered())
              || (Unnumbered() == old(Unnumbered()) && Work(dfsStack) < old(Work(dfsStack)))
    {
      FollowedSearched(graph, S(), yielded, cursor, met, left, f);
      Follow(f);
    }

    /** The next successor of the top frame `f`: entered when new, else a bound on the low link. */
    method Follow(f: Frame)
      requires dfsStack != [] && dfsStack[|dfsStack| - 1] == f && f.idx < |f.succs|
      requires graph.Valid() && f.succs[f.idx] < graph.n && f.node in lowlink
      modifies this
      ensures S() == Followed(graph, old(S()), f.succs[f.idx])
      ensures yielded == old(yielded) && cursor == old(cursor) && left == old(left)
      ensures met == if f.succs[f.idx] in old(index) then old(met) else old(met) + [f.succs[f.idx]]
    {
      var succ := f.succs[f.idx];
      dfsStack := dfsStack[|dfsStack| - 1 := f.(idx := f.idx + 1)];
      if succ !in index {
        Enter(succ);
      } else if succ in onStack && index[succ] < lowlink[f.node] {
        lowlink := lowlink[f.node := index[succ]];
      }
    }

    method Finish(current: nat) returns (scc: Option<seq<nat>>)
      requires Valid() && dfsStack != [] && dfsStack[|dfsStack| - 1].node == current && Exhausted(S())
      modifies this
      ensures Valid() && cursor == old(cursor) && index == old(index)
      ensures Work(dfsStack) < old(Work(dfsStack))
      ensures yielded == if scc.Some? then old(yielded) + [scc.value] else old(yielded)
    {
      ghost var st := S();
      FinishFacts(graph, st, Union(yielded), current);
      PassLow(current);
      scc := None;
      if lowlink[current] == index[current] {
        ghost var b := RootPlace(graph, st, Union(yielded), current);
        var comp := CloseRoot(current, b, st);
        scc := Some(comp);
      } else {
        InnerSearched(graph, st, yielded, cursor, met, left);
        left := left + [current];
      }
    }

    /** Yield the component of the root `current`, whose frame in `st` has just been dropped. */
    method CloseRoot(current: nat, ghost b: nat, ghost st: State) returns (comp: seq<nat>)
      requires Searched(graph, st, yielded, cursor, met, left) && RootDone(graph, st, Union(yielded), b)
      requires current in st.lowlink && current == st.dfs[|st.dfs| - 1].node == st.sccStack[b]
      requires (|st.dfs| > 1 ==> st.dfs[|st.dfs| - 2].node in st.lowlink) && S() == Merge(st)
      requires NoDup(sccStack) && onStack == Elems(sccStack)
      modifies this`sccStack, this`onStack, this`yielded, this`left
      ensures Valid() && yielded == old(yielded) + [comp]
    {
      RootSearched(graph, st, yielded, cursor, met, left, b);
      comp := PopComponent(current, b);
      yielded := yielded + [comp];
      left := left + [current];
      assert S() == Emit(Merge(st), b);
    }

    /** Hand the low link to the parent, if there is one, and drop the frame. */
    method PassLow(current: nat)
      requires dfsStack != [] && dfsStack[|dfsStack| - 1].node == current && current in lowlink
      requires |dfsStack| > 1 ==> dfsStack[|dfsStack| - 2].node in lowlink && dfsStack[|dfsStack| - 2].node != current
      modifies this`lowlink, this`dfsStack
      ensures S() == Merge(old(S())) && current in lowlink && lowlink[current] == old(lowlink[current])
    {
      var t := |dfsStack| - 1;
      if t > 0 {
        var parent := dfsStack[t - 1].node;
        if lowlink[current] < lowlink[parent] {
          lowlink := lowlink[parent := lowlink[current]];
        }
      }
      dfsStack := dfsStack[..t];
    }

    /** Pop the stack down to and including `current`. */
    method PopComponent(current: nat, ghost b: nat) returns (comp: seq<nat>)
      requires NoDup(sccStack) && onStack == Elems(sccStack)
      requires b < |sccStack| && sccStack[b] == current
      modifies this`sccStack, this`onStack
      ensures sccStack == old(sccStack)[..b] && onStack == Elems(sccStack)
      ensures comp == Reversed(old(sccStack)[b..])
    {
      comp := [];
      ghost var s0 := sccStack;
      var done := false;
      while !done
        invariant b <= |sccStack| <= |s0| && sccStack == s0[..|sccStack|] && onStack == Elems(sccStack)
        invariant comp == Reversed(s0[|sccStack|..])
        invariant if done then |sccStack| == b else b < |sccStack|
        decreases |sccStack| - b
      {
        var k := |sccStack| - 1;
        var w := sccStack[k];
        assert sccStack[..k] == s0[..k] && sccStack == s0[..k] + [w] && s0[k] == w;
        assert w !in s0[..k];
        sccStack := sccStack[..k];
        onStack := onStack - {w};
        done := w == current;
        comp := comp + [w];
      }
    }

    method NextRoot() returns (more: bool)
      requires Valid() && dfsStack == []
      modifies this
      ensures Valid() && yielded == old(yielded)
      ensures more ==> Unnumbered() < old(Unnumbered())
      ensures !more ==> Union(yielded) == Below(graph.n)
    {
      ghost var c0 := cursor;
      Skip();
      SkipSearched(graph, S(), yielded, c0, cursor, met, left);
      more := cursor < graph.n;
      if more {
        StartRoot();
      } else {
        AllNumbered(graph, S(), Union(yielded));
      }
    }

    method StartRoot()
      requires Valid() && dfsStack == [] && cursor < graph.n && cursor !in index
      modifies this
      ensures Valid() && yielded == old(yielded) && Unnumbered() < old(Unnumbered())
    {
      StartSearched(graph, S(), yielded, cursor, met, left);
      EnterRoot();
    }

    method EnterRoot()
      requires graph.Valid() && cursor < graph.n
      modifies this
      ensures S() == Number(graph, old(S()), old(cursor)) && cursor == old(cursor) + 1 && yielded == old(yielded)
      ensures met == old(met) + [old(cursor)] && left == old(left)
    {
      Enter(cursor);
      cursor := cursor + 1;
    }

    /** Past the nodes already numbered. */
    method Skip()
      requires cursor <= graph.n
      modifies this`cursor
      ensures old(cursor) <= cursor <= graph.n && forall v: nat :: old(cursor) <= v < cursor ==> v in index
      ensures cursor < graph.n ==> cursor !in index
    {
      while cursor < graph.n && cursor in index
        invariant old(cursor) <= cursor <= graph.n && forall v: nat :: old(cursor) <= v < cursor ==> v in index
      {
        cursor := cursor + 1;
      }
    }
  }

  lemma RootNumbered(g: Digraph, st: State, done: set<nat>, v: nat)
    requires Inv(g, st, done) && st.dfs == [] && v < g.n && v !in st.index
    ensures Inv(g, Number(g, st, v), done) && |st.index| < |Number(g, st, v).index| <= g.n
  {
    assert Ready(st) == st;
    NumberStep(g, st, done, v);
    NumberedMore(g, st, done, v);
  }

  lemma AllNumbered(g: Digraph, st: State, done: set<nat>)
    requires Shape(g, st, done) && st.dfs == [] && forall v: nat :: v < g.n ==> v in st.index
    ensures done == Below(g.n)
  {
    assert st.onStack == {};
  }

  lemma DescendFacts(g: Digraph, st: State, done: set<nat>, f: Frame)
    requires Shape(g, st, done) && st.dfs != [] && st.dfs[|st.dfs| - 1] == f && f.idx < |f.succs|
    ensures f.succs[f.idx] < g.n && f.node in st.lowlink && Next(st, f.succs[f.idx])
  {
    TopArc(g, st, done, f.succs[f.idx]);
    assert FrameOk(g, st, |st.dfs| - 1);
    assert st.At(|st.dfs| - 1) == f.node;
  }

  function Followed(g: Digraph, st: State, v: nat): State
    requires g.Valid() && v < g.n && |st.dfs| > 0 && st.dfs[|st.dfs| - 1].node in st.lowlink
  {
    if v in st.index then Back(st, v) else Number(g, Advance(st), v)
  }

  lemma DescendStep(g: Digraph, st: State, done: set<nat>, f: Frame)
    requires Inv(g, st, done) && st.dfs != [] && st.dfs[|st.dfs| - 1] == f && f.idx < |f.succs|
    requires f.succs[f.idx] < g.n && f.node in st.lowlink
    ensures var st' := Followed(g, st, f.succs[f.idx]);
            && Inv(g, st', done) && st.index.Keys <= st'.index.Keys
            && (|st.index| < |st'.index| <= g.n || (st'.index == st.index && Work(st'.dfs) < Work(st.dfs)))
  {
    var v := f.succs[f.idx];
    if v in st.index {
      assert Followed(g, st, v) == Back(st, v);
      BackStep(g, st, done, v);
      WorkAdvance(st);
    } else {
      assert Followed(g, st, v) == Number(g, Ready(st), v);
      NumberStep(g, st, done, v);
      NumberedMore(g, st, done, v);
    }
  }

  lemma FinishFacts(g: Digraph, st: State, done: set<nat>, current: nat)
    requires Shape(g, st, done) && Exhausted(st) && st.dfs[|st.dfs| - 1].node == current
    ensures current in st.lowlink && current in st.index && current in st.sccStack
    ensures NoDup(st.sccStack) && st.onStack == Elems(st.sccStack)
    ensures |st.dfs| > 1 ==> st.dfs[|st.dfs| - 2].node in st.lowlink && st.dfs[|st.dfs| - 2].node != current
    ensures Work(st.dfs[..|st.dfs| - 1]) < Work(st.dfs)
  {
    MergeFacts(g, st, done);
    var t := |st.dfs| - 1;
    assert FrameOk(g, st, t);
    if t > 0 {
      assert st.At(t - 1) != st.At(t);
    }
    forall i, j | 0 <= i < j < |st.sccStack| ensures st.sccStack[i] != st.sccStack[j] {
      assert st.Num(st.sccStack[i]) < st.Num(st.sccStack[j]);
    }
  }

  lemma RootPlace(g: Digraph, st: State, done: set<nat>, current: nat) returns (b: nat)
    requires Inv(g, st, done) && Exhausted(st) && st.dfs[|st.dfs| - 1].node == current
    requires current in st.lowlink && current in st.index && st.lowlink[current] == st.index[current]
    requires current in st.sccStack
    ensures RootDone(g, st, done, b) && b < |st.sccStack| && st.sccStack[b] == current
  {
    b :| b < |st.sccStack| && st.sccStack[b] == current;
    assert st.At(|st.dfs| - 1) == current;
  }

  lemma RootStep(g: Digraph, st: State, out: seq<seq<nat>>, b: nat, comp: seq<nat>)
    requires Yielded(g, out) && RootDone(g, st, Union(out), b) && comp == Reversed(st.sccStack[b..])
    requires st.dfs[|st.dfs| - 1].node in st.lowlink && (|st.dfs| > 1 ==> st.dfs[|st.dfs| - 2].node in st.lowlink)
    ensures Inv(g, Emit(Merge(st), b), Union(out + [comp])) && Yielded(g, out + [comp])
  {
    EmitStep(g, st, Union(out), b);
    SuffixReversed(g, st, Union(out), b, comp);
    YieldedNext(g, out, comp);
  }

  lemma NumberedBound(g: Digraph, st: State, done: set<nat>)
    requires Shape(g, st, done)
    ensures |st.index| <= g.n
  {
    SubsetCard(st.index.Keys, Below(g.n));
  }

  lemma NumberedMore(g: Digraph, st: State, done: set<nat>, v: nat)
    requires Inv(g, st, done) && Fresh(g, st, v)
    ensures |Number(g, Ready(st), v).index| == |st.index| + 1 <= g.n
  {
    var st' := Number(g, Ready(st), v);
    assert st'.index.Keys == st.index.Keys + {v};
    NumberShape(g, st, done, v);
    NumberedBound(g, st', done);
  }

  lemma WorkAdvance(st: State)
    requires |st.dfs| > 0 && st.dfs[|st.dfs| - 1].idx < |st.dfs[|st.dfs| - 1].succs|
    ensures Work(Advance(st).dfs) < Work(st.dfs)
  {
    assert Advance(st).dfs[..|st.dfs| - 1] == st.dfs[..|st.dfs| - 1];
  }

  lemma SuffixReversed(g: Digraph, st: State, done: set<nat>, b: nat, comp: seq<nat>)
    requires Shape(g, st, done) && b < |st.sccStack| && comp == Reversed(st.sccStack[b..])
    ensures Elems(comp) == Suffix(st, b) && NoDup(comp)
  {
    var s := st.sccStack[b..];
    forall i, j | 0 <= i < j < |s| ensures s[i] != s[j] {
      var p, q := st.sccStack[b + i], st.sccStack[b + j];
      assert st.Num(p) < st.Num(q);
    }
    ReversedSame(s);
  }

  lemma ReversedSame(s: seq<nat>)
    ensures forall x: nat :: x in Reversed(s) <==> x in s
    ensures NoDup(s) ==> NoDup(Reversed(s))
  {
    var r := Reversed(s);
    forall x: nat ensures x in r <==> x in s {
      if x in r {
        var k :| 0 <= k < |r| && r[k] == x;
        assert s[|s| - 1 - k] == x;
      }
      if x in s {
        var k :| 0 <= k < |s| && s[k] == x;
        assert r[|s| - 1 - k] == x;
      }
    }
  }

  ghost predicate In(comps: seq<seq<nat>>, k: nat, v: nat) {
    k < |comps| && v in comps[k]
  }

  ghost predicate Placed(comps: seq<seq<nat>>, v: nat) {
    exists k: nat :: In(comps, k, v)
  }

  /** Every node in exactly one component, the components exactly the classes of mutual
      reachability, and no edge from an earlier component to a later one. */
  ghost predicate ComponentPartition(g: Digraph, comps: seq<seq<nat>>) {
    && (forall k :: 0 <= k < |comps| ==> NoDup(comps[k]) && comps[k] != [])
    && (forall k: nat, v: nat {:trigger In(comps, k, v)} :: In(comps, k, v) ==> v < g.n)
    && (forall v: nat {:trigger Placed(comps, v)} :: v < g.n ==> Placed(comps, v))
    && (forall j: nat, k: nat, u: nat, v: nat {:trigger In(comps, j, u), In(comps, k, v)} ::
          In(comps, j, u) && In(comps, k, v) ==> (j == k <==> SameComponent(g, u, v)))
    && (forall j: nat, k: nat, u: nat, v: nat {:trigger In(comps, j, u), In(comps, k, v)} ::
          In(comps, j, u) && In(comps, k, v) && (u, v) in g.Arcs() ==> k <= j)
  }

  /** Running the iterator to the end. */
  method StronglyConnected(g: Digraph) returns (comps: seq<seq<nat>>)
    requires g.Valid()
    ensures ComponentPartition(g, comps) && AsLeft(Whole(g), comps)
  {
    var it := new TarjanScc(g);
    comps := [];
    while true
      invariant it.Valid() && it.graph == g && fresh(it) && it.yielded == comps
      decreases g.n - |Union(comps)|
    {
      var c := it.Next();
      if c.None? {
        break;
      }
      MoreYielded(g, comps, c.value, it.S());
      comps := comps + [c.value];
    }
    YieldedPartition(g, comps);
  }

  lemma MoreYielded(g: Digraph, comps: seq<seq<nat>>, c: seq<nat>, st: State)
    requires Yielded(g, comps + [c]) && Shape(g, st, Union(comps + [c]))
    ensures |Union(comps)| < |Union(comps + [c])| <= g.n
  {
    UnionSnoc(comps, c);
    var all := comps + [c];
    assert YieldedAt(g, all, |comps|);
    assert all[..|comps|] == comps;
    SubsetCard(Union(comps), Union(all));
    SubsetCard(Union(all), Below(g.n));
  }

  lemma InUnion(comps: seq<seq<nat>>, k: nat, v: nat)
    requires k < |comps| && v in comps[k]
    ensures v in Union(comps)
  {
  }

  lemma YieldedPartition(g: Digraph, comps: seq<seq<nat>>)
    requires Yielded(g, comps) && Union(comps) == Below(g.n)
    ensures ComponentPartition(g, comps)
  {
    forall k | 0 <= k < |comps| ensures NoDup(comps[k]) && comps[k] != [] {
      assert YieldedAt(g, comps, k);
      assert Elems(comps[k]) != {};
    }
    forall k: nat, v: nat | In(comps, k, v) ensures v < g.n {
      InUnion(comps, k, v);
    }
    forall v: nat | v < g.n ensures Placed(comps, v) {
      assert v in Union(comps);
      var c :| c in comps && v in c;
      var k: nat :| k < |comps| && comps[k] == c;
      assert In(comps, k, v);
    }
    forall j: nat, k: nat, u: nat, v: nat | In(comps, j, u) && In(comps, k, v)
      ensures j == k <==> SameComponent(g, u, v)
    {
      ClassesApart(g, comps, j, k, u, v);
    }
    forall j: nat, k: nat, u: nat, v: nat | In(comps, j, u) && In(comps, k, v) && (u, v) in g.Arcs() ensures k <= j {
      assert YieldedAt(g, comps, j) && YieldedAt(g, comps, k);
      InUnion(comps[..j + 1], j, u);
      var first, before := comps[..j + 1], comps[..k];
      assert j < k ==> forall d :: d in first ==> d in before;
      assert j < k ==> v in Union(before);
    }
  }

  /** The graph and the order of its lists leave no choice about what is yielded, and in which order. */
  lemma YieldedOnce(g: Digraph, a: seq<seq<nat>>, b: seq<seq<nat>>)
    requires g.Valid() && ComponentPartition(g, a) && ComponentPartition(g, b)
    requires AsLeft(Whole(g), a) && AsLeft(Whole(g), b)
    ensures a == b
  {
    ExploreOnce(SuccLists(g), Below(g.n), Numbers(g.n), {});
    forall x: nat ensures x in Roots(a) <==> x in Roots(b) {
      if x in Roots(a) {
        RootShared(g, a, b, x);
      }
      if x in Roots(b) {
        RootShared(g, b, a, x);
      }
    }
    RootsKeepOrder(g, a);
    RootsKeepOrder(g, b);
    OrderedOnce(Whole(g).left, Roots(a), Roots(b));
    assert |a| == |Roots(a)| && |b| == |Roots(b)|;
    forall k: nat | k < |a| ensures a[k] == b[k] {
      assert RootLeft(Whole(g), a, k) && RootLeft(Whole(g), b, k);
      assert Roots(a)[k] == Roots(b)[k];
      SameListing(g, a, b, k, k, Root(a, k));
    }
  }

  ghost function Roots(comps: seq<seq<nat>>): (r: seq<nat>)
    ensures |r| == |comps| && forall k: nat {:trigger Root(comps, k)} :: k < |r| ==> r[k] == Root(comps, k)
  {
    seq(|comps|, k requires 0 <= k < |comps| => Root(comps, k))
  }

  lemma RootsKeepOrder(g: Digraph, a: seq<seq<nat>>)
    requires g.Valid() && AsLeft(Whole(g), a)
    ensures KeepsOrder(Whole(g).left, Roots(a))
  {
    var r := Roots(a);
    forall i, j | 0 <= i < j < |r| ensures Before(Whole(g).left, r[i], r[j]) {
      assert LeftSooner(Whole(g), a, i, j) && r[i] == Root(a, i) && r[j] == Root(a, j);
    }
  }

  lemma SameCompany(g: Digraph, a: seq<seq<nat>>, b: seq<seq<nat>>, i: nat, j: nat, x: nat, y: nat)
    requires ComponentPartition(g, a) && ComponentPartition(g, b) && In(a, i, x) && In(b, j, x) && In(a, i, y)
    ensures In(b, j, y)
  {
    assert SameComponent(g, x, y) && Placed(b, y);
    var k: nat :| In(b, k, y);
  }

  /** A node two partitions both place has the same company in the same order. */
  lemma SameListing(g: Digraph, a: seq<seq<nat>>, b: seq<seq<nat>>, i: nat, j: nat, x: nat)
    requires g.Valid() && ComponentPartition(g, a) && ComponentPartition(g, b) && NoDup(Whole(g).met)
    requires AsLeft(Whole(g), a) && AsLeft(Whole(g), b)
    requires In(a, i, x) && In(b, j, x)
    ensures a[i] == b[j]
  {
    var s, t := Reversed(a[i]), Reversed(b[j]);
    forall y: nat ensures y in a[i] <==> y in b[j] {
      if In(a, i, y) {
        SameCompany(g, a, b, i, j, x, y);
      }
      if In(b, j, y) {
        SameCompany(g, b, a, j, i, x, y);
      }
    }
    ReversedSame(a[i]);
    ReversedSame(b[j]);
    assert RootLeft(Whole(g), a, i) && RootLeft(Whole(g), b, j);
    OrderedOnce(Whole(g).met, s, t);
    ReversedTwice(a[i]);
    ReversedTwice(b[j]);
  }

  lemma RootShared(g: Digraph, a: seq<seq<nat>>, b: seq<seq<nat>>, x: nat)
    requires g.Valid() && ComponentPartition(g, a) && ComponentPartition(g, b) && NoDup(Whole(g).met)
    requires AsLeft(Whole(g), a) && AsLeft(Whole(g), b) && x in Roots(a)
    ensures x in Roots(b)
  {
    var i: nat :| i < |Roots(a)| && Roots(a)[i] == x;
    assert RootLeft(Whole(g), a, i) && x == Root(a, i);
    assert In(a, i, x) && Placed(b, x);
    var j: nat :| In(b, j, x);
    SameListing(g, a, b, i, j, x);
    assert Roots(b)[j] == Root(b, j) == x;
  }

  lemma ClassesApart(g: Digraph, comps: seq<seq<nat>>, j: nat, k: nat, u: nat, v: nat)
    requires Yielded(g, comps) && j < |comps| && k < |comps| && u in comps[j] && v in comps[k]
    ensures j == k <==> SameComponent(g, u, v)
  {
    assert YieldedAt(g, comps, j) && YieldedAt(g, comps, k);
    assert u in Elems(comps[j]) && v in Elems(comps[k]);
    if j < k {
      InUnion(comps[..k], j, u);
      if SameComponent(g, u, v) {
        assert v in comps[j];
        InUnion(comps[..k], j, v);
      }
    } else if k < j {
      if SameComponent(g, u, v) {
        assert v in comps[j];
        InUnion(comps[..j], k, v);
      }
    }
  }
}
