/** Edmonds-Karp maximum flow (`src/algo/max_flow.rs`): the iterator of bottlenecks, the tables it
    keeps, the value it ends with and the amounts it reports per edge. */
module MaxFlow {
  import opened Seqs
  import opened Vec
  import opened Graphs
  import opened Flow
  import opened Residual
  import opened FlowBound

  // ----- the books -----

  /** For each pair of nodes the residual capacities and the recorded flow make up the capacity. */
  ghost predicate Balanced(g: Digraph, cap: seq<nat>, res: seq<nat>, rev: RevFlow) {
    && |res| == |cap| == |g.ends|
    && forall u: nat, v: nat {:trigger Rev(rev, v, u)} ::
         Sum(res, Parallel(g.ends, (u, v))) + Rev(rev, v, u) == Sum(cap, Parallel(g.ends, (u, v)))
  }

  /** Net amount `v` sends out. */
  ghost function Excess(g: Digraph, cap: seq<nat>, res: seq<nat>, v: nat): int {
    Net(g.ends, cap, {v}) - Net(g.ends, res, {v})
  }

  /** `total` goes from `source` to `x`, and every other node is balanced. */
  ghost predicate Carries(g: Digraph, cap: seq<nat>, res: seq<nat>, source: nat, x: nat, total: int) {
    forall v: nat {:trigger Excess(g, cap, res, v)} ::
      Excess(g, cap, res, v) == (if v == source then total else 0) - (if v == x then total else 0)
  }

  ghost predicate IsState(g: Digraph, cap: seq<nat>, source: nat, sink: nat, res: seq<nat>, rev: RevFlow, total: nat) {
    IsNetwork(g, cap, source, sink) && Balanced(g, cap, res, rev) && Carries(g, cap, res, source, sink, total)
  }

  // ----- one step of an augmentation -----

  /** The first edge from `b` to `a` in the order the storage lists them. */
  ghost predicate FirstEdge(g: Digraph, b: nat, a: nat, e: nat)
    requires g.Valid()
  {
    && b < g.n && e < |g.ends| && g.ends[e] == (b, a)
    && exists k :: 0 <= k < |g.outs[b]| && g.outs[b][k] == e
                   && forall j :: 0 <= j < k ==> g.outs[b][j] < |g.ends| && g.ends[g.outs[b][j]].1 != a
  }

  /** Tables after pushing `d` along the step; `e` is the edge whose residual changes. */
  ghost predicate Pushed(g: Digraph, st: AugmentStep, d: nat, e: nat, res: seq<nat>, rev: RevFlow,
                         res': seq<nat>, rev': RevFlow)
    requires g.Valid() && IsStep(g, st) && |res| == |g.ends|
  {
    match st
    case Forward(f) =>
      && e == f && res[e] >= d && res' == res[e := res[e] - d]
      && var p := (g.ends[e].1, g.ends[e].0); rev' == rev[p := Rev(rev, p.0, p.1) + d]
    case Reverse(a, b) =>
      && FirstEdge(g, b, a, e) && Rev(rev, a, b) >= d && res' == res[e := res[e] + d]
      && rev' == rev[(a, b) := Rev(rev, a, b) - d]
  }

  lemma PushBalanced(g: Digraph, cap: seq<nat>, st: AugmentStep, d: nat, e: nat, res: seq<nat>, rev: RevFlow,
                     res': seq<nat>, rev': RevFlow)
    requires g.Valid() && IsStep(g, st) && Balanced(g, cap, res, rev) && Pushed(g, st, d, e, res, rev, res', rev')
    ensures Balanced(g, cap, res', rev')
  {
    forall u: nat, v: nat
      ensures Sum(res', Parallel(g.ends, (u, v))) + Rev(rev', v, u) == Sum(cap, Parallel(g.ends, (u, v)))
    {
      assert Sum(res, Parallel(g.ends, (u, v))) + Rev(rev, v, u) == Sum(cap, Parallel(g.ends, (u, v)));
      SumUpdate(res, Parallel(g.ends, (u, v)), e, res'[e]);
    }
  }

  /** Pushing moves `d` from the start of the step to its end. */
  lemma PushExcess(g: Digraph, cap: seq<nat>, st: AugmentStep, d: nat, e: nat, res: seq<nat>, rev: RevFlow,
                   res': seq<nat>, rev': RevFlow, v: nat)
    requires g.Valid() && IsStep(g, st) && Balanced(g, cap, res, rev) && Pushed(g, st, d, e, res, rev, res', rev')
    ensures Excess(g, cap, res', v)
            == Excess(g, cap, res, v) + (if v == From(g, st) then d else 0) - (if v == To(g, st) then d else 0)
  {
    NetUpdate(g.ends, res, e, res'[e], v);
  }

  /** Steps leaving other nodes lose no room. */
  lemma PushKeepsRoom(g: Digraph, st: AugmentStep, d: nat, e: nat, res: seq<nat>, rev: RevFlow,
                      res': seq<nat>, rev': RevFlow, other: AugmentStep)
    requires g.Valid() && IsStep(g, st) && |res| == |g.ends| && Pushed(g, st, d, e, res, rev, res', rev')
    requires IsStep(g, other) && From(g, other) != From(g, st)
    ensures Room(res', rev', other) >= Room(res, rev, other)
  {
  }

  // ----- an augmentation under way -----

  ghost function Reached(g: Digraph, path: seq<AugmentStep>, i: nat, source: nat): nat
    requires i <= |path| && forall k: nat {:trigger path[k]} :: k < |path| ==> IsStep(g, path[k])
  {
    if i == 0 then source else To(g, path[i - 1])
  }

  /** `i` steps of the path have been pushed: the old total still reaches the sink, and `d` more
      has come as far as the end of step `i`. */
  ghost predicate Midway(g: Digraph, cap: seq<nat>, source: nat, sink: nat, path: seq<AugmentStep>, d: nat, total: nat,
                         i: nat, res: seq<nat>, rev: RevFlow)
  {
    && IsNetwork(g, cap, source, sink) && IsTrail(g, path, source, sink) && i <= |path| && Balanced(g, cap, res, rev)
    && (forall k: nat {:trigger path[k]} :: i <= k < |path| ==> Room(res, rev, path[k]) >= d)
    && forall v: nat {:trigger Excess(g, cap, res, v)} ::
         Excess(g, cap, res, v) == (if v == source then total + d else 0) - (if v == sink then total else 0)
                                   - (if v == Reached(g, path, i, source) then d else 0)
  }

  lemma MidwayStep(g: Digraph, cap: seq<nat>, source: nat, sink: nat, path: seq<AugmentStep>, d: nat, total: nat,
                   i: nat, e: nat, res: seq<nat>, rev: RevFlow, res': seq<nat>, rev': RevFlow)
    requires Midway(g, cap, source, sink, path, d, total, i, res, rev) && i < |path|
    requires Pushed(g, path[i], d, e, res, rev, res', rev')
    ensures Midway(g, cap, source, sink, path, d, total, i + 1, res', rev')
  {
    PushBalanced(g, cap, path[i], d, e, res, rev, res', rev');
    forall v: nat
      ensures Excess(g, cap, res', v) == (if v == source then total + d else 0) - (if v == sink then total else 0)
                                         - (if v == To(g, path[i]) then d else 0)
    {
      PushExcess(g, cap, path[i], d, e, res, rev, res', rev', v);
      if i > 0 {
        assert Joined(g, path, i);
      }
    }
    forall k: nat | i + 1 <= k < |path| ensures Room(res', rev', path[k]) >= d {
      PushKeepsRoom(g, path[i], d, e, res, rev, res', rev', path[k]);
    }
  }

  lemma MidwayEnd(g: Digraph, cap: seq<nat>, source: nat, sink: nat, path: seq<AugmentStep>, d: nat, total: nat,
                  res: seq<nat>, rev: RevFlow)
    requires Midway(g, cap, source, sink, path, d, total, |path|, res, rev) && source != sink
    ensures IsState(g, cap, source, sink, res, rev, total + d)
  {
    assert path != [];
    assert Reached(g, path, |path|, source) == sink;
  }

  // ----- the tables after an augmentation -----

  /** One of the steps goes forward over an edge from `u` to `v`. */
  ghost predicate Sent(g: Digraph, path: seq<AugmentStep>, u: nat, v: nat) {
    exists k: nat :: k < |path| && path[k].Forward? && path[k].edge < |g.ends| && g.ends[path[k].edge] == (u, v)
  }

  /** One of the steps goes back over the pair of edge `e`, which is listed first for its pair. */
  ghost predicate Credited(g: Digraph, path: seq<AugmentStep>, e: nat)
    requires g.Valid()
  {
    e < |g.ends| && Reverse(g.ends[e].1, g.ends[e].0) in path && FirstEdge(g, g.ends[e].0, g.ends[e].1, e)
  }

  /** What becomes of the residual capacity `x` of edge `e`. */
  ghost function Residue(g: Digraph, path: seq<AugmentStep>, d: nat, e: nat, x: nat): int
    requires g.Valid()
  {
    if Forward(e) in path then x - d else if Credited(g, path, e) then x + d else x
  }

  /** What becomes of the amount `x` recorded from `b` to `a`. */
  ghost function Recorded(g: Digraph, path: seq<AugmentStep>, d: nat, a: nat, b: nat, x: nat): int {
    if Sent(g, path, b, a) then x + d else if Reverse(a, b) in path then x - d else x
  }

  /** `d` has gone along every step of `path`, and nothing else has changed. */
  ghost predicate Augmented(g: Digraph, path: seq<AugmentStep>, d: nat, res: seq<nat>, rev: RevFlow,
                            res': seq<nat>, rev': RevFlow)
  {
    && g.Valid() && |res'| == |res| == |g.ends|
    && (forall e: nat {:trigger Residue(g, path, d, e, res[e])} {:trigger res'[e]} ::
          e < |res| ==> res'[e] == Residue(g, path, d, e, res[e]))
    && forall a: nat, b: nat {:trigger Rev(rev', a, b)} ::
         Rev(rev', a, b) == Recorded(g, path, d, a, b, Rev(rev, a, b))
  }

  lemma FirstEdgeUnique(g: Digraph, b: nat, a: nat, e: nat, f: nat)
    requires g.Valid() && FirstEdge(g, b, a, e) && FirstEdge(g, b, a, f)
    ensures e == f
  {
  }

  lemma SentNext(g: Digraph, pre: seq<AugmentStep>, st: AugmentStep, u: nat, v: nat)
    requires IsStep(g, st)
    ensures Sent(g, pre + [st], u, v) <==> Sent(g, pre, u, v) || (st.Forward? && g.ends[st.edge] == (u, v))
  {
    var q := pre + [st];
    if Sent(g, pre, u, v) {
      var k: nat :| k < |pre| && pre[k].Forward? && pre[k].edge < |g.ends| && g.ends[pre[k].edge] == (u, v);
      assert q[k] == pre[k];
    }
    if st.Forward? && g.ends[st.edge] == (u, v) {
      assert q[|pre|] == st;
    }
  }

  /** Step `i` changes entries no earlier step has touched. */
  lemma StepIsNew(g: Digraph, path: seq<AugmentStep>, source: nat, sink: nat, i: nat)
    requires g.Valid() && IsTrail(g, path, source, sink) && i < |path|
    ensures path[i] !in path[..i]
    ensures path[i].Forward? ==>
              var (u, v) := g.ends[path[i].edge];
              !Sent(g, path[..i], u, v) && Reverse(v, u) !in path[..i]
    ensures path[i].Reverse? ==> !Sent(g, path[..i], path[i].to, path[i].from)
    ensures path[i].Reverse? ==>
              forall e: nat :: e < |g.ends| && g.ends[e] == (path[i].to, path[i].from) ==> Forward(e) !in path[..i]
  {
    forall k: nat | k < i
      ensures From(g, path[..i][k]) != From(g, path[i]) && From(g, path[..i][k]) != To(g, path[i])
    {
      NoReturn(g, path, source, sink, k, i);
      assert path[..i][k] == path[k];
    }
  }

  lemma AugmentedStep(g: Digraph, path: seq<AugmentStep>, source: nat, sink: nat, i: nat, d: nat, e: nat,
                      res0: seq<nat>, rev0: RevFlow, res: seq<nat>, rev: RevFlow, res': seq<nat>, rev': RevFlow)
    requires IsTrail(g, path, source, sink) && i < |path| && Augmented(g, path[..i], d, res0, rev0, res, rev)
    requires Pushed(g, path[i], d, e, res, rev, res', rev')
    ensures Augmented(g, path[..i + 1], d, res0, rev0, res', rev')
  {
    var pre, st := path[..i], path[i];
    assert path[..i + 1] == pre + [st];
    StepIsNew(g, path, source, sink, i);
    forall f: nat | f < |res| ensures res'[f] == Residue(g, pre + [st], d, f, res0[f]) {
      assert res[f] == Residue(g, pre, d, f, res0[f]);
      if st.Reverse? && f != e && g.ends[f] == (st.to, st.from) && FirstEdge(g, st.to, st.from, f) {
        FirstEdgeUnique(g, st.to, st.from, e, f);
      }
    }
    forall a: nat, b: nat ensures Rev(rev', a, b) == Recorded(g, pre + [st], d, a, b, Rev(rev0, a, b)) {
      assert Rev(rev, a, b) == Recorded(g, pre, d, a, b, Rev(rev0, a, b));
      SentNext(g, pre, st, b, a);
    }
  }

  /** `d` is the least room along the path. */
  ghost predicate IsBottleneck(g: Digraph, res: seq<nat>, rev: RevFlow, path: seq<AugmentStep>, d: nat) {
    && |res| == |g.ends| && (forall k: nat {:trigger path[k]} :: k < |path| ==> IsStep(g, path[k]))
    && (forall k: nat {:trigger path[k]} :: k < |path| ==> d <= Room(res, rev, path[k]))
    && exists k: nat :: k < |path| && d == Room(res, rev, path[k])
  }

  method Bottleneck(g: Digraph, res: seq<nat>, rev: RevFlow, path: seq<AugmentStep>, source: nat, sink: nat)
    returns (least: nat)
    requires IsAugmenting(g, res, rev, path, source, sink) && source != sink
    ensures least > 0 && IsBottleneck(g, res, rev, path, least)
  {
    least := Room(res, rev, path[0]);
    assert Usable(g, res, rev, path[0]);
    var i := 1;
    while i < |path|
      invariant 1 <= i <= |path| && least > 0
      invariant forall k: nat {:trigger path[k]} :: k < i ==> least <= Room(res, rev, path[k])
      invariant exists k: nat :: k < i && least == Room(res, rev, path[k])
    {
      var room := Room(res, rev, path[i]);
      if room < least {
        least := room;
      }
      i := i + 1;
    }
  }

  /** Push `d` along every step of the path. */
  method Augment(g: Digraph, ghost cap: seq<nat>, ghost source: nat, ghost sink: nat, res0: seq<nat>, rev0: RevFlow,
                 path: seq<AugmentStep>, d: nat, ghost total: nat) returns (res: seq<nat>, rev: RevFlow)
    requires IsState(g, cap, source, sink, res0, rev0, total) && source != sink
    requires IsAugmenting(g, res0, rev0, path, source, sink) && IsBottleneck(g, res0, rev0, path, d)
    ensures IsState(g, cap, source, sink, res, rev, total + d)
    ensures Augmented(g, path, d, res0, rev0, res, rev)
  {
    res, rev := res0, rev0;
    var i := 0;
    while i < |path|
      invariant 0 <= i <= |path| && Midway(g, cap, source, sink, path, d, total, i, res, rev)
      invariant Augmented(g, path[..i], d, res0, rev0, res, rev)
    {
      ghost var res', rev' := res, rev;
      ghost var e;
      res, rev, e := PushStep(g, path[i], d, res, rev);
      MidwayStep(g, cap, source, sink, path, d, total, i, e, res', rev', res, rev);
      AugmentedStep(g, path, source, sink, i, d, e, res0, rev0, res', rev', res, rev);
      i := i + 1;
    }
    assert path[..i] == path;
    MidwayEnd(g, cap, source, sink, path, d, total, res, rev);
  }

  method PushStep(g: Digraph, st: AugmentStep, d: nat, res0: seq<nat>, rev0: RevFlow)
    returns (res: seq<nat>, rev: RevFlow, ghost e: nat)
    requires g.Valid() && IsStep(g, st) && |res0| == |g.ends| && Room(res0, rev0, st) >= d
    ensures Pushed(g, st, d, e, res0, rev0, res, rev)
  {
    match st
    case Forward(edge) =>
      var (tail, head) := g.ends[edge];
      res := res0[edge := res0[edge] - d];
      rev := rev0[(head, tail) := Rev(rev0, head, tail) + d];
      e := edge;
    case Reverse(from, to) =>
      rev := rev0[(from, to) := Rev(rev0, from, to) - d];
      var first := FindEdge(g, to, from);
      res := res0[first := res0[first] + d];
      e := first;
  }

  /** The first listed edge from `b` to `a`. */
  method FindEdge(g: Digraph, b: nat, a: nat) returns (e: nat)
    requires g.Valid() && (b, a) in g.ends
    ensures FirstEdge(g, b, a, e)
  {
    var edges := g.outs[b];
    assert g.Lists(edges, b, true);
    ghost var f: nat :| f < |g.ends| && g.ends[f] == (b, a);
    assert f in edges;
    var i := 0;
    while g.ends[edges[i]].1 != a
      invariant 0 <= i < |edges|
      invariant exists k :: i <= k < |edges| && edges[k] == f
      invariant forall j :: 0 <= j < i ==> g.ends[edges[j]].1 != a
      decreases |edges| - i
    {
      i := i + 1;
    }
    e := edges[i];
  }

  // ----- the value -----

  /** The conclusion drawn once no augmenting path is left. */
  lemma SaturatedIsMaximum(g: Digraph, cap: seq<nat>, source: nat, sink: nat, res: seq<nat>, rev: RevFlow, total: nat,
                           s: set<nat>)
    requires IsState(g, cap, source, sink, res, rev, total) && IsCut(g, source, sink, s) && Saturated(g, res, rev, s)
    ensures IsMaximum(g, cap, source, sink, total)
  {
    var f := SharedFlow(g, cap, source, sink, res, rev, total);
    AcrossFull(g, cap, res, rev, f, s);
    NetOfSource(g.ends, f, s, source);
    NetCrossing(g.ends, f, s);
    assert Capacity(g, cap, s) == total;
    forall f' | IsFlow(g, cap, source, sink, f') ensures Value(g, source, f') <= total {
      FlowBelowCut(g, cap, source, sink, f', s);
    }
  }

  /** No trail leaves a saturated set. */
  lemma {:induction false} TrailStays(g: Digraph, res: seq<nat>, rev: RevFlow, s: set<nat>, p: seq<AugmentStep>,
                                      source: nat, sink: nat, i: nat)
    requires Saturated(g, res, rev, s) && source in s && IsAugmenting(g, res, rev, p, source, sink) && i <= |p|
    ensures (if i == |p| then sink else From(g, p[i])) in s
  {
    if i > 0 {
      TrailStays(g, res, rev, s, p, source, sink, i - 1);
      assert Usable(g, res, rev, p[i - 1]);
      if i < |p| {
        assert Joined(g, p, i);
      }
    }
  }

  lemma NothingFits(g: Digraph, cap: seq<nat>, source: nat, sink: nat, res: seq<nat>, rev: RevFlow, total: nat)
    requires IsState(g, cap, source, sink, res, rev, total)
    requires exists s :: source in s && sink !in s && s <= Below(g.n) && Saturated(g, res, rev, s)
    ensures IsMaximum(g, cap, source, sink, total)
    ensures forall p :: !IsAugmenting(g, res, rev, p, source, sink)
  {
    var s :| source in s && sink !in s && s <= Below(g.n) && Saturated(g, res, rev, s);
    SaturatedIsMaximum(g, cap, source, sink, res, rev, total, s);
    forall p ensures !IsAugmenting(g, res, rev, p, source, sink) {
      if IsAugmenting(g, res, rev, p, source, sink) {
        TrailStays(g, res, rev, s, p, source, sink, |p|);
      }
    }
  }

  ghost function PairFlow(ends: seq<(nat, nat)>, rev: RevFlow): map<(nat, nat), nat> {
    map p: (nat, nat) | p in Elems(ends) :: Rev(rev, p.1, p.0)
  }

  /** A flow on the edges that sends between each pair what the tables record. */
  lemma SharedFlow(g: Digraph, cap: seq<nat>, source: nat, sink: nat, res: seq<nat>, rev: RevFlow, total: nat)
    returns (f: seq<int>)
    requires IsState(g, cap, source, sink, res, rev, total) && source != sink
    ensures IsFlow(g, cap, source, sink, f) && Value(g, source, f) == total
    ensures forall e: nat :: e < |g.ends| ==> Sum(f, Parallel(g.ends, g.ends[e])) == Rev(rev, g.ends[e].1, g.ends[e].0)
  {
    var need := PairFlow(g.ends, rev);
    forall p | p in need ensures need[p] <= Sum(cap, Parallel(g.ends, p)) {
      assert p == (p.0, p.1) && Rev(rev, p.1, p.0) == need[p];
      SumNatural(res, Parallel(g.ends, p));
    }
    f := Share(g.ends, cap, need);
    forall e: nat | e < |g.ends|
      ensures Sum(f, Parallel(g.ends, g.ends[e])) == Rev(rev, g.ends[e].1, g.ends[e].0)
    {
      assert g.ends[e] in need;
    }
    forall v: nat ensures Net(g.ends, f, {v}) == Excess(g, cap, res, v) {
      SameNet(g, cap, res, rev, f, v);
    }
    assert Excess(g, cap, res, source) == total;
  }

  /** Bundles that carry the recorded amounts balance as the tables do. */
  lemma SameNet(g: Digraph, cap: seq<nat>, res: seq<nat>, rev: RevFlow, f: seq<int>, v: nat)
    requires Balanced(g, cap, res, rev) && |f| == |cap|
    requires forall e: nat ::
               e < |g.ends| ==> Sum(f, Parallel(g.ends, g.ends[e])) == Rev(rev, g.ends[e].1, g.ends[e].0)
    ensures Net(g.ends, f, {v}) == Excess(g, cap, res, v)
  {
    var h := Used(cap, res);
    SumDifference(h, cap, res, Leaving(g.ends, {v}));
    SumDifference(h, cap, res, Entering(g.ends, {v}));
    forall e: nat | e < |g.ends|
      ensures Sum(f, Parallel(g.ends, g.ends[e])) == Sum(h, Parallel(g.ends, g.ends[e]))
    {
      UsedBundle(g, cap, res, rev, e);
    }
    BundleMono(g.ends, f, h, Leaving(g.ends, {v}));
    BundleMono(g.ends, h, f, Leaving(g.ends, {v}));
    BundleMono(g.ends, f, h, Entering(g.ends, {v}));
    BundleMono(g.ends, h, f, Entering(g.ends, {v}));
  }

  /** What `finish` reports per edge: capacity less residual. */
  function Used(cap: seq<nat>, res: seq<nat>): (h: seq<int>)
    requires |res| == |cap|
    ensures |h| == |cap| && forall e: nat :: e < |cap| ==> h[e] == (cap[e] as int) - (res[e] as int)
  {
    seq(|cap|, e requires 0 <= e < |cap| => (cap[e] as int) - (res[e] as int))
  }

  lemma UsedBundle(g: Digraph, cap: seq<nat>, res: seq<nat>, rev: RevFlow, e: nat)
    requires Balanced(g, cap, res, rev) && e < |g.ends|
    ensures Sum(Used(cap, res), Parallel(g.ends, g.ends[e])) == Rev(rev, g.ends[e].1, g.ends[e].0)
  {
    var (u, v) := g.ends[e];
    SumDifference(Used(cap, res), cap, res, Parallel(g.ends, (u, v)));
    assert Sum(res, Parallel(g.ends, (u, v))) + Rev(rev, v, u) == Sum(cap, Parallel(g.ends, (u, v)));
  }

  /** Edges leaving a saturated set are full, edges entering it empty. */
  lemma AcrossFull(g: Digraph, cap: seq<nat>, res: seq<nat>, rev: RevFlow, f: seq<int>, s: set<nat>)
    requires Balanced(g, cap, res, rev) && Saturated(g, res, rev, s)
    requires |f| == |cap| && forall e: nat :: e < |f| ==> 0 <= f[e] <= cap[e]
    requires forall e: nat ::
               e < |g.ends| ==> Sum(f, Parallel(g.ends, g.ends[e])) == Rev(rev, g.ends[e].1, g.ends[e].0)
    ensures Sum(f, Across(g.ends, s)) == Sum(cap, Across(g.ends, s)) && Sum(f, Backward(g.ends, s)) == 0
  {
    var zero: seq<int> := seq(|cap|, e => 0);
    forall e: nat | e < |g.ends| && e in Across(g.ends, s) ensures f[e] == cap[e] {
      var (u, v) := g.ends[e];
      var p := Parallel(g.ends, (u, v));
      forall d: nat | d in p ensures res[d] == 0 {
        assert !Usable(g, res, rev, Forward(d));
      }
      SumMono(res, zero, p);
      SumNatural(res, p);
      SumZero(zero, p);
      assert Sum(res, p) + Rev(rev, v, u) == Sum(cap, p);
      SumTight(f, cap, p, e);
    }
    SumMono(f, cap, Across(g.ends, s));
    SumMono(cap, f, Across(g.ends, s));
    forall e: nat | e < |g.ends| && e in Backward(g.ends, s) ensures f[e] == 0 {
      var (u, v) := g.ends[e];
      assert !Usable(g, res, rev, Reverse(v, u));
      SumNatural(f, Parallel(g.ends, (u, v)));
    }
    SumMono(f, zero, Backward(g.ends, s));
    SumMono(zero, f, Backward(g.ends, s));
    SumZero(zero, Backward(g.ends, s));
  }

  // ----- the amounts reported per edge -----

  /** `h` sends `total` out of the source, balances at every inner node and overfills no edge. */
  ghost predicate Reports(g: Digraph, cap: seq<nat>, source: nat, sink: nat, h: seq<int>, total: nat) {
    && |h| == |cap| && Value(g, source, h) == total
    && (forall v: nat :: v < g.n && v != source && v != sink ==> Net(g.ends, h, {v}) == 0)
    && forall e: nat :: e < |h| && e < |cap| ==> h[e] <= cap[e]
  }

  /** On every network, in every state, capacity less residual has the right value, balances and
      overfills nothing: it is a flow unless an edge has more residual than it had capacity. */
  lemma ReportedAmounts(g: Digraph, cap: seq<nat>, source: nat, sink: nat, res: seq<nat>, rev: RevFlow, total: nat)
    requires IsState(g, cap, source, sink, res, rev, total) && source != sink
    ensures Reports(g, cap, source, sink, Used(cap, res), total)
    ensures IsFlow(g, cap, source, sink, Used(cap, res)) <==> forall e: nat :: e < |cap| ==> res[e] <= cap[e]
  {
    var h := Used(cap, res);
    forall e: nat | e < |g.ends|
      ensures Sum(h, Parallel(g.ends, g.ends[e])) == Rev(rev, g.ends[e].1, g.ends[e].0)
    {
      UsedBundle(g, cap, res, rev, e);
    }
    forall v: nat ensures Net(g.ends, h, {v}) == Excess(g, cap, res, v) {
      SameNet(g, cap, res, rev, h, v);
    }
    assert Excess(g, cap, res, source) == total;
    if IsFlow(g, cap, source, sink, h) {
      forall e: nat | e < |cap| ensures res[e] <= cap[e] {
        assert 0 <= h[e];
      }
    }
  }

  /** An augmentation keeps the amounts a flow exactly when no reverse step gives back more than the
      edge listed first for its pair has in use. */
  lemma AmountsAfter(g: Digraph, cap: seq<nat>, source: nat, sink: nat, path: seq<AugmentStep>, d: nat, total: nat,
                     res: seq<nat>, rev: RevFlow, res': seq<nat>, rev': RevFlow)
    requires IsState(g, cap, source, sink, res, rev, total) && IsState(g, cap, source, sink, res', rev', total + d)
    requires source != sink && IsTrail(g, path, source, sink) && Augmented(g, path, d, res, rev, res', rev')
    requires IsFlow(g, cap, source, sink, Used(cap, res))
    ensures IsFlow(g, cap, source, sink, Used(cap, res')) <==>
            forall e: nat :: e < |cap| && Credited(g, path, e) ==> d <= Used(cap, res)[e]
  {
    ReportedAmounts(g, cap, source, sink, res, rev, total);
    ReportedAmounts(g, cap, source, sink, res', rev', total + d);
    forall e: nat | e < |cap| ensures Credited(g, path, e) ==> Forward(e) !in path {
      NotBothWays(g, path, source, sink, e);
    }
    forall e: nat | e < |cap|
      ensures res'[e] <= cap[e] <==> (Credited(g, path, e) ==> d <= Used(cap, res)[e])
    {
      assert res'[e] == Residue(g, path, d, e, res[e]);
    }
  }

  /** A trail does not go both ways between two nodes. */
  lemma NotBothWays(g: Digraph, path: seq<AugmentStep>, source: nat, sink: nat, e: nat)
    requires g.Valid() && IsTrail(g, path, source, sink) && e < |g.ends|
    ensures Reverse(g.ends[e].1, g.ends[e].0) in path ==> Forward(e) !in path
  {
    if i, j :| 0 <= i < |path| && 0 <= j < |path| && path[i] == Reverse(g.ends[e].1, g.ends[e].0)
               && path[j] == Forward(e) {
      NoReturn(g, path, source, sink, if i <= j then i else j, if i <= j then j else i);
    }
  }

  // ----- which edges the fault can touch -----

  /** An edge of positive capacity joins `a` and `b`, either way round. */
  ghost predicate Linked(g: Digraph, cap: seq<nat>, a: nat, b: nat) {
    exists e: nat :: e < |g.ends| && e < |cap| && cap[e] > 0 && (g.ends[e] == (a, b) || g.ends[e] == (b, a))
  }

  /** The links between nodes other than `x`. */
  ghost function Around(g: Digraph, cap: seq<nat>, x: nat): Rel {
    set a, b | a in Below(g.n) && b in Below(g.n) && a != x && b != x && Linked(g, cap, a, b) :: (a, b)
  }

  ghost predicate ReachPast(g: Digraph, cap: seq<nat>, a: nat, b: nat, x: nat) {
    a != x && b != x && Reach(Around(g, cap, x), a, b)
  }

  /** Some way through the network runs from `u` to `v` and some other from `v` to `u`. */
  ghost predicate Crossable(g: Digraph, cap: seq<nat>, source: nat, sink: nat, u: nat, v: nat) {
    && ReachPast(g, cap, source, u, v) && ReachPast(g, cap, v, sink, u)
    && ReachPast(g, cap, source, v, u) && ReachPast(g, cap, u, sink, v)
  }

  /** Edge `e` is listed first among parallel edges, another of which has capacity, and flow may
      cross between its ends both ways. */
  ghost predicate AtRisk(g: Digraph, cap: seq<nat>, source: nat, sink: nat, e: nat)
    requires g.Valid()
  {
    && e < |g.ends| && FirstEdge(g, g.ends[e].0, g.ends[e].1, e)
    && (exists f: nat :: f < |g.ends| && f < |cap| && f != e && g.ends[f] == g.ends[e] && cap[f] > 0)
    && Crossable(g, cap, source, sink, g.ends[e].0, g.ends[e].1)
  }

  /** What is recorded between two nodes came by a way through the network. */
  ghost predicate Explained(g: Digraph, cap: seq<nat>, source: nat, sink: nat, rev: RevFlow) {
    forall a: nat, b: nat {:trigger Rev(rev, a, b)} ::
      Rev(rev, a, b) > 0 ==> ReachPast(g, cap, source, b, a) && ReachPast(g, cap, a, sink, b)
  }

  /** More residual than capacity shows up on edges at risk only. */
  ghost predicate Contained(g: Digraph, cap: seq<nat>, source: nat, sink: nat, res: seq<nat>) {
    && g.Valid() && |res| == |cap| == |g.ends|
    && forall e: nat {:trigger res[e]} :: e < |cap| && res[e] > cap[e] ==> AtRisk(g, cap, source, sink, e)
  }

  lemma BundleHasCapacity(g: Digraph, cap: seq<nat>, u: nat, v: nat)
    requires |cap| == |g.ends| && Sum(cap, Parallel(g.ends, (u, v))) > 0
    ensures Linked(g, cap, u, v) && Linked(g, cap, v, u)
  {
    var p := Parallel(g.ends, (u, v));
    if forall e: nat :: e < |cap| && e in p ==> cap[e] == 0 {
      var zero: seq<int> := seq(|cap|, e => 0);
      SumMono(cap, zero, p);
      SumZero(zero, p);
    }
  }

  lemma StepIsLink(g: Digraph, cap: seq<nat>, res: seq<nat>, rev: RevFlow, st: AugmentStep, x: nat)
    requires g.Valid() && Balanced(g, cap, res, rev) && Usable(g, res, rev, st)
    requires From(g, st) != x && To(g, st) != x
    ensures (From(g, st), To(g, st)) in Around(g, cap, x)
  {
    match st
    case Forward(e) =>
      var (u, v) := g.ends[e];
      assert Sum(res, Parallel(g.ends, (u, v))) + Rev(rev, v, u) == Sum(cap, Parallel(g.ends, (u, v)));
      SumNatural(res, Parallel(g.ends, (u, v)));
      BundleHasCapacity(g, cap, u, v);
    case Reverse(a, b) =>
      assert Sum(res, Parallel(g.ends, (b, a))) + Rev(rev, a, b) == Sum(cap, Parallel(g.ends, (b, a)));
      SumNatural(res, Parallel(g.ends, (b, a)));
      BundleHasCapacity(g, cap, b, a);
  }

  /** Up to step `j` the trail keeps clear of the node that step leads to. */
  lemma {:induction false} TrailBefore(g: Digraph, cap: seq<nat>, source: nat, sink: nat, res: seq<nat>, rev: RevFlow,
                                       p: seq<AugmentStep>, i: nat, j: nat)
    requires g.Valid() && Balanced(g, cap, res, rev) && IsAugmenting(g, res, rev, p, source, sink) && i <= j < |p|
    ensures ReachPast(g, cap, source, From(g, p[i]), To(g, p[j]))
  {
    NoReturn(g, p, source, sink, i, j);
    if i == 0 {
      ReachRefl(Around(g, cap, To(g, p[j])), source);
    } else {
      TrailBefore(g, cap, source, sink, res, rev, p, i - 1, j);
      assert Joined(g, p, i) && Usable(g, res, rev, p[i - 1]);
      StepIsLink(g, cap, res, rev, p[i - 1], To(g, p[j]));
      ReachStep(Around(g, cap, To(g, p[j])), source, From(g, p[i - 1]), From(g, p[i]));
    }
  }

  /** After step `j` the trail keeps clear of the node that step left. */
  lemma {:induction false} TrailAfter(g: Digraph, cap: seq<nat>, source: nat, sink: nat, res: seq<nat>, rev: RevFlow,
                                      p: seq<AugmentStep>, j: nat, i: nat)
    requires g.Valid() && Balanced(g, cap, res, rev) && IsAugmenting(g, res, rev, p, source, sink) && j <= i < |p|
    ensures ReachPast(g, cap, To(g, p[i]), sink, From(g, p[j]))
    decreases |p| - i
  {
    NoReturn(g, p, source, sink, j, i);
    var r := Around(g, cap, From(g, p[j]));
    if i == |p| - 1 {
      ReachRefl(r, sink);
    } else {
      TrailAfter(g, cap, source, sink, res, rev, p, j, i + 1);
      assert Joined(g, p, i + 1) && Usable(g, res, rev, p[i + 1]);
      StepIsLink(g, cap, res, rev, p[i + 1], From(g, p[j]));
      ReachEdge(r, To(g, p[i]), To(g, p[i + 1]));
      ReachTrans(r, To(g, p[i]), To(g, p[i + 1]), sink);
    }
  }

  lemma ExplainedNext(g: Digraph, cap: seq<nat>, source: nat, sink: nat, path: seq<AugmentStep>, d: nat,
                      res: seq<nat>, rev: RevFlow, res': seq<nat>, rev': RevFlow)
    requires g.Valid() && Balanced(g, cap, res, rev) && Explained(g, cap, source, sink, rev)
    requires IsAugmenting(g, res, rev, path, source, sink) && Augmented(g, path, d, res, rev, res', rev')
    ensures Explained(g, cap, source, sink, rev')
  {
    forall a: nat, b: nat | Rev(rev', a, b) > 0
      ensures ReachPast(g, cap, source, b, a) && ReachPast(g, cap, a, sink, b)
    {
      if Sent(g, path, b, a) {
        var j: nat :| j < |path| && path[j].Forward? && path[j].edge < |g.ends| && g.ends[path[j].edge] == (b, a);
        TrailBefore(g, cap, source, sink, res, rev, path, j, j);
        TrailAfter(g, cap, source, sink, res, rev, path, j, j);
      } else {
        assert Rev(rev, a, b) > 0;
      }
    }
  }

  /** A reverse step runs against recorded flow, so the two ways cross. */
  lemma ReverseCrosses(g: Digraph, cap: seq<nat>, source: nat, sink: nat, path: seq<AugmentStep>,
                       res: seq<nat>, rev: RevFlow, v: nat, u: nat)
    requires g.Valid() && Balanced(g, cap, res, rev) && Explained(g, cap, source, sink, rev)
    requires IsAugmenting(g, res, rev, path, source, sink) && Reverse(v, u) in path
    ensures Crossable(g, cap, source, sink, u, v)
  {
    var j: nat :| j < |path| && path[j] == Reverse(v, u);
    TrailBefore(g, cap, source, sink, res, rev, path, j, j);
    TrailAfter(g, cap, source, sink, res, rev, path, j, j);
    assert Usable(g, res, rev, path[j]);
    assert Rev(rev, v, u) > 0;
  }

  /** With no capacity on the other edges of its bundle, an edge cannot be credited too much. */
  lemma LoneEdge(g: Digraph, cap: seq<nat>, res: seq<nat>, rev: RevFlow, e: nat)
    requires Balanced(g, cap, res, rev) && e < |g.ends|
    requires forall f: nat :: f < |cap| && f != e && g.ends[f] == g.ends[e] ==> cap[f] == 0
    ensures res[e] <= cap[e]
  {
    var (u, v) := g.ends[e];
    var p := Parallel(g.ends, (u, v));
    var rest := p - {e};
    assert p == rest + {e};
    assert Sum(res, p) + Rev(rev, v, u) == Sum(cap, p);
    SumUnion(res, rest, {e});
    SumUnion(cap, rest, {e});
    SumSingle(res, e);
    SumSingle(cap, e);
    SumNatural(res, rest);
    var zero: seq<int> := seq(|cap|, f => 0);
    SumMono(cap, zero, rest);
    SumZero(zero, rest);
  }

  lemma ContainedNext(g: Digraph, cap: seq<nat>, source: nat, sink: nat, path: seq<AugmentStep>, d: nat,
                      res: seq<nat>, rev: RevFlow, res': seq<nat>, rev': RevFlow)
    requires Balanced(g, cap, res, rev) && Balanced(g, cap, res', rev')
    requires Explained(g, cap, source, sink, rev) && Contained(g, cap, source, sink, res)
    requires IsAugmenting(g, res, rev, path, source, sink) && Augmented(g, path, d, res, rev, res', rev')
    ensures Contained(g, cap, source, sink, res')
  {
    forall e: nat | e < |cap| && res'[e] > cap[e] ensures AtRisk(g, cap, source, sink, e) {
      assert res'[e] == Residue(g, path, d, e, res[e]);
      if res[e] <= cap[e] {
        assert Credited(g, path, e);
        ReverseCrosses(g, cap, source, sink, path, res, rev, g.ends[e].1, g.ends[e].0);
        if forall f: nat :: f < |cap| && f != e && g.ends[f] == g.ends[e] ==> cap[f] == 0 {
          LoneEdge(g, cap, res', rev', e);
        }
      }
    }
  }

  ghost predicate AtTerminal(g: Digraph, source: nat, sink: nat, e: nat) {
    && e < |g.ends|
    && var (u, v) := g.ends[e];
       u == v || u == source || u == sink || v == source || v == sink
  }

  /** No edge is at risk when no two share tail and head, or when every bundle of parallel edges
      touches a terminal, consists of loops, or has capacity on the edge listed first only. */
  lemma SafeNetwork(g: Digraph, cap: seq<nat>, source: nat, sink: nat)
    requires IsNetwork(g, cap, source, sink)
    requires g.EdgeSimple() || forall e: nat, f: nat ::
               e < |cap| && f < |cap| && e != f && g.ends[e] == g.ends[f] ==>
                 AtTerminal(g, source, sink, e) || (FirstEdge(g, g.ends[e].0, g.ends[e].1, e) ==> cap[f] == 0)
    ensures forall e: nat :: !AtRisk(g, cap, source, sink, e)
  {
    forall e: nat, f: nat | e < |cap| && f < |cap| && e != f && g.EdgeSimple() ensures g.ends[e] != g.ends[f] {
      assert e < f || f < e;
    }
  }

  // ----- how the residual network changes -----

  /** An augmentation opens only steps back over its path and closes only steps of it. */
  lemma AugmentedFollows(g: Digraph, path: seq<AugmentStep>, source: nat, sink: nat, d: nat, res: seq<nat>,
                         rev: RevFlow, res': seq<nat>, rev': RevFlow)
    requires IsTrail(g, path, source, sink) && Augmented(g, path, d, res, rev, res', rev')
    ensures Follows(g, path, res, rev, res', rev')
  {
    forall st | Usable(g, res', rev', st) && !Usable(g, res, rev, st) ensures LeadsBack(g, st, path) {
      match st
      case Forward(e) =>
        assert res'[e] == Residue(g, path, d, e, res[e]);
        var i: nat :| i < |path| && path[i] == Reverse(g.ends[e].1, g.ends[e].0);
        assert IsOpposite(g, st, path, i);
      case Reverse(a, b) =>
        assert Rev(rev', a, b) == Recorded(g, path, d, a, b, Rev(rev, a, b));
        var i: nat :| i < |path| && path[i].Forward? && path[i].edge < |g.ends| && g.ends[path[i].edge] == (b, a);
        assert IsOpposite(g, st, path, i);
    }
    forall st | Usable(g, res, rev, st) && !Usable(g, res', rev', st) ensures st in path {
      match st
      case Forward(e) =>
        assert res'[e] == Residue(g, path, d, e, res[e]);
      case Reverse(a, b) =>
        assert Rev(rev', a, b) == Recorded(g, path, d, a, b, Rev(rev, a, b));
    }
  }

  /** The narrowest step of the path is filled up. */
  lemma BottleneckFills(g: Digraph, path: seq<AugmentStep>, source: nat, sink: nat, d: nat, res: seq<nat>,
                        rev: RevFlow, res': seq<nat>, rev': RevFlow, i: nat)
    requires IsTrail(g, path, source, sink) && Augmented(g, path, d, res, rev, res', rev')
    requires i < |path| && Room(res, rev, path[i]) == d
    ensures !Usable(g, res', rev', path[i])
  {
    match path[i]
    case Forward(e) =>
      assert res'[e] == Residue(g, path, d, e, res[e]);
    case Reverse(a, b) =>
      assert Rev(rev', a, b) == Recorded(g, path, d, a, b, Rev(rev, a, b));
      forall k: nat | k < |path| && path[k].Forward? ensures g.ends[path[k].edge] != (b, a) {
        NoReturn(g, path, source, sink, if i <= k then i else k, if i <= k then k else i);
      }
  }

  /** Each augmentation counts its narrowest step once more. */
  lemma FilledNext(g: Digraph, path: seq<AugmentStep>, source: nat, sink: nat, d: nat, res: seq<nat>, rev: RevFlow,
                   res': seq<nat>, rev': RevFlow, filled: multiset<AugmentStep>)
    returns (filled': multiset<AugmentStep>)
    requires sink < g.n && IsStraight(g, res, rev, path, source, sink) && IsBottleneck(g, res, rev, path, d)
    requires Augmented(g, path, d, res, rev, res', rev') && Counted(g, source, res, rev, filled)
    ensures Counted(g, source, res', rev', filled') && |filled'| == |filled| + 1
  {
    var i: nat :| i < |path| && d == Room(res, rev, path[i]);
    AugmentedFollows(g, path, source, sink, d, res, rev, res', rev');
    BottleneckFills(g, path, source, sink, d, res, rev, res', rev', i);
    CountedNext(g, path, source, sink, res, rev, res', rev', filled, i);
    filled' := filled + multiset{path[i]};
  }

  // ----- the iterator -----

  lemma StartState(g: Digraph, cap: seq<nat>, source: nat, sink: nat)
    requires IsNetwork(g, cap, source, sink)
    ensures IsState(g, cap, source, sink, cap, map[], 0)
    ensures Explained(g, cap, source, sink, map[]) && Contained(g, cap, source, sink, cap)
    ensures Counted(g, source, cap, map[], multiset{})
  {
  }

  class EdmondsKarpFlows {
    const graph: Digraph
    const source: nat
    const sink: nat
    const originalCap: seq<nat>
    var residual: seq<nat>
    var reverseFlow: RevFlow
    var totalFlow: nat
    var done: bool
    ghost var filled: multiset<AugmentStep>

    ghost predicate Valid()
      reads this
    {
      && IsState(graph, originalCap, source, sink, residual, reverseFlow, totalFlow)
      && Explained(graph, originalCap, source, sink, reverseFlow)
      && Contained(graph, originalCap, source, sink, residual)
      && Counted(graph, source, residual, reverseFlow, filled)
      && (done ==> IsMaximum(graph, originalCap, source, sink, totalFlow))
    }

    constructor (g: Digraph, cap: seq<nat>, s: nat, t: nat)
      requires IsNetwork(g, cap, s, t)
      ensures Valid() && graph == g && originalCap == cap && source == s && sink == t
      ensures residual == cap && reverseFlow == map[] && totalFlow == 0 && !done && |filled| == 0
    {
      graph, source, sink, originalCap := g, s, t, cap;
      residual, reverseFlow, totalFlow, done := cap, map[], 0, false;
      filled := multiset{};
      new;
      StartState(g, cap, s, t);
    }

    /** Augment along a shortest path by its bottleneck, or find that no path is left; `filled` has
        one entry for each augmentation so far.  Requires distinct terminals: with equal ones the
        search returns an empty path, which has no bottleneck. */
    method Next() returns (step: Option<nat>, ghost path: seq<AugmentStep>)
      requires Valid() && source != sink
      modifies this
      ensures Valid()
      ensures step.None? <==>
              old(done) || forall p :: !IsAugmenting(graph, old(residual), old(reverseFlow), p, source, sink)
      ensures |filled| == (if step.Some? then |old(filled)| + 1 else |old(filled)|) <= graph.n * |graph.ends|
      ensures step.None? ==>
                && done && totalFlow == old(totalFlow)
                && residual == old(residual) && reverseFlow == old(reverseFlow)
      ensures step.Some? ==>
                && !old(done) && !done && step.value > 0 && totalFlow == old(totalFlow) + step.value
                && IsShortest(graph, old(residual), old(reverseFlow), path, source, sink)
                && IsForemost(graph, old(residual), old(reverseFlow), path, source, sink)
                && IsBottleneck(graph, old(residual), old(reverseFlow), path, step.value)
                && Augmented(graph, path, step.value, old(residual), old(reverseFlow), residual, reverseFlow)
    {
      path := [];
      FewAugmentations(graph, source, residual, reverseFlow, filled);
      if done {
        return None, path;
      }
      var found := BfsAugmentingPath(graph, residual, reverseFlow, source, sink);
      if found.None? {
        done := true;
        NothingFits(graph, originalCap, source, sink, residual, reverseFlow, totalFlow);
        return None, path;
      }
      path := found.value;
      var bottleneck := Bottleneck(graph, residual, reverseFlow, found.value, source, sink);
      ghost var res, rev := residual, reverseFlow;
      residual, reverseFlow :=
        Augment(graph, originalCap, source, sink, residual, reverseFlow, found.value, bottleneck, totalFlow);
      ExplainedNext(graph, originalCap, source, sink, path, bottleneck, res, rev, residual, reverseFlow);
      ContainedNext(graph, originalCap, source, sink, path, bottleneck, res, rev, residual, reverseFlow);
      filled := FilledNext(graph, path, source, sink, bottleneck, res, rev, residual, reverseFlow, filled);
      FewAugmentations(graph, source, residual, reverseFlow, filled);
      totalFlow := totalFlow + bottleneck;
      step := Some(bottleneck);
    }

    /** Run to the end, which comes after at most as many augmentations as nodes times edges; the
        value is the maximum flow.  The amounts reported per edge have that
        value, balance at every inner node and overfill no edge; one below zero sits on an edge at
        risk, and they form a flow exactly when there is none. */
    method Finish() returns (total: nat, flows: seq<int>)
      requires Valid() && source != sink
      modifies this
      ensures Valid() && done && total == totalFlow && IsMaximum(graph, originalCap, source, sink, total)
      ensures old(done) ==> residual == old(residual) && totalFlow == old(totalFlow)
      ensures |old(filled)| <= |filled| <= graph.n * |graph.ends|
      ensures flows == Used(originalCap, residual)
      ensures Reports(graph, originalCap, source, sink, flows, total)
      ensures forall e: nat :: e < |flows| && flows[e] < 0 ==> AtRisk(graph, originalCap, source, sink, e)
      ensures IsFlow(graph, originalCap, source, sink, flows) <==> forall e: nat :: e < |flows| ==> flows[e] >= 0
    {
      var step := Some(0);
      while step.Some?
        invariant Valid() && (step.None? ==> done)
        invariant old(done) ==> done && residual == old(residual) && totalFlow == old(totalFlow)
        invariant |old(filled)| <= |filled|
        decreases graph.n * |graph.ends| - |filled|, step.Some?
      {
        ghost var path;
        step, path := Next();
      }
      FewAugmentations(graph, source, residual, reverseFlow, filled);
      total := totalFlow;
      flows := Used(originalCap, residual);
      ReportedAmounts(graph, originalCap, source, sink, residual, reverseFlow, totalFlow);
    }
  }
}
