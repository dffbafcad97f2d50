/** Layer assignment for drawing (`src/convert/aa.rs`): Kosaraju's components, their condensation,
    and longest-path levels. */
module Layers {
  import opened Seqs
  import opened Vec
  import opened Graphs
  import opened DepthFirst

  datatype RenderEdge = RenderEdge(from: nat, to: nat, bidirectional: bool)

  // ----- the directed relation -----

  ghost predicate ArrowBy(e: RenderEdge, u: nat, v: nat) {
    (e.from == u && e.to == v) || (e.bidirectional && e.to == u && e.from == v)
  }

  ghost predicate Arrow(edges: seq<RenderEdge>, u: nat, v: nat) {
    exists k :: 0 <= k < |edges| && ArrowBy(edges[k], u, v)
  }

  /** Arrows between nodes of the component. */
  ghost function Arrows(edges: seq<RenderEdge>, comp: set<nat>): Rel {
    set u, v | u in comp && v in comp && Arrow(edges, u, v) :: (u, v)
  }

  ghost predicate Same(r: Rel, u: nat, v: nat) {
    Reach(r, u, v) && Reach(r, v, u)
  }

  lemma SameTrans(r: Rel, u: nat, v: nat, w: nat)
    requires Same(r, u, v) && Same(r, v, w)
    ensures Same(r, u, w) && Same(r, v, u)
  {
    ReachTrans(r, u, v, w);
    ReachTrans(r, w, v, u);
  }

  /** `l[u]` names exactly the nodes `u` has an arrow to. */
  ghost predicate IsAdjacency(edges: seq<RenderEdge>, n: nat, l: Lists) {
    && |l| == n
    && forall u: nat, v: nat {:trigger Arrow(edges, u, v)} :: u < n ==> (v in l[u] <==> Arrow(edges, u, v))
  }

  ghost predicate IsReverse(edges: seq<RenderEdge>, n: nat, l: Lists) {
    && |l| == n
    && forall u: nat, v: nat {:trigger Arrow(edges, u, v)} :: v < n ==> (u in l[v] <==> Arrow(edges, u, v))
  }

  function Append(l: Lists, u: nat, v: nat): (r: Lists)
    requires u < |l|
    ensures |r| == |l|
    ensures forall i: nat, x: nat :: i < |r| ==> (x in r[i] <==> x in l[i] || (i == u && x == v))
  {
    l[u := l[u] + [v]]
  }

  /** Adjacency with one more edge: both ways if it is bidirectional. */
  function Extended(l: Lists, from: nat, to: nat, bidirectional: bool): (r: Lists)
    requires from < |l| && to < |l|
    ensures |r| == |l|
    ensures forall u: nat, v: nat :: u < |r| ==>
              (v in r[u] <==> v in l[u] || ArrowBy(RenderEdge(from, to, bidirectional), u, v))
  {
    var r := Append(l, from, to);
    if bidirectional then Append(r, to, from) else r
  }

  /** Where the edges lead from `u`, in their order. */
  ghost function Heads(edges: seq<RenderEdge>, u: nat): seq<nat> {
    if edges == [] then []
    else
      var e := edges[|edges| - 1];
      Heads(edges[..|edges| - 1], u)
      + (if e.from == u then [e.to] else []) + (if e.bidirectional && e.to == u then [e.from] else [])
  }

  /** The adjacency lists of `n` nodes, each in the order of the edges. */
  ghost function AllHeads(edges: seq<RenderEdge>, n: nat): (l: Lists)
    ensures |l| == n && forall u: nat :: u < n ==> l[u] == Heads(edges, u)
  {
    seq(n, u requires 0 <= u < n => Heads(edges, u))
  }

  lemma HeadsNext(edges: seq<RenderEdge>, n: nat, k: nat)
    requires k < |edges| && edges[k].from < n && edges[k].to < n
    ensures var e := edges[k];
            AllHeads(edges[..k + 1], n) == Extended(AllHeads(edges[..k], n), e.from, e.to, e.bidirectional)
  {
    var e := edges[k];
    assert edges[..k + 1][..k] == edges[..k];
    var l, l' := AllHeads(edges[..k], n), AllHeads(edges[..k + 1], n);
    assert forall u: nat :: u < n ==>
             l'[u] == l[u] + (if e.from == u then [e.to] else [])
                      + (if e.bidirectional && e.to == u then [e.from] else []);
    assert forall u: nat :: u < n ==> l'[u] == Extended(l, e.from, e.to, e.bidirectional)[u];
  }

  method BuildAdjacency(edges: seq<RenderEdge>, n: nat) returns (outgoing: Lists, incoming: Lists)
    requires forall k :: 0 <= k < |edges| ==> edges[k].from < n && edges[k].to < n
    ensures IsAdjacency(edges, n, outgoing) && IsReverse(edges, n, incoming)
    ensures outgoing == AllHeads(edges, n)
  {
    outgoing, incoming := seq(n, _ => []), seq(n, _ => []);
    for k := 0 to |edges|
      invariant IsAdjacency(edges[..k], n, outgoing) && IsReverse(edges[..k], n, incoming)
      invariant outgoing == AllHeads(edges[..k], n)
    {
      HeadsNext(edges, n, k);
      var e := edges[k];
      ghost var out0, in0 := outgoing, incoming;
      outgoing := Extended(outgoing, e.from, e.to, e.bidirectional);
      incoming := Extended(incoming, e.to, e.from, e.bidirectional);
      AdjacencyNext(edges, n, k, out0, in0);
    }
    assert edges[..|edges|] == edges;
  }

  lemma AdjacencyNext(edges: seq<RenderEdge>, n: nat, k: nat, outgoing: Lists, incoming: Lists)
    requires k < |edges| && edges[k].from < n && edges[k].to < n
    requires IsAdjacency(edges[..k], n, outgoing) && IsReverse(edges[..k], n, incoming)
    ensures var e := edges[k];
            && IsAdjacency(edges[..k + 1], n, Extended(outgoing, e.from, e.to, e.bidirectional))
            && IsReverse(edges[..k + 1], n, Extended(incoming, e.to, e.from, e.bidirectional))
  {
    var e := edges[k];
    var out, inn :=
      Extended(outgoing, e.from, e.to, e.bidirectional), Extended(incoming, e.to, e.from, e.bidirectional);
    forall u: nat, v: nat | u < n ensures v in out[u] <==> Arrow(edges[..k + 1], u, v) {
      ArrowNext(edges, k, u, v);
      assert v in outgoing[u] <==> Arrow(edges[..k], u, v);
    }
    forall u: nat, v: nat | v < n ensures u in inn[v] <==> Arrow(edges[..k + 1], u, v) {
      ArrowNext(edges, k, u, v);
      assert u in incoming[v] <==> Arrow(edges[..k], u, v);
    }
  }

  lemma ArrowNext(edges: seq<RenderEdge>, k: nat, u: nat, v: nat)
    requires k < |edges|
    ensures Arrow(edges[..k + 1], u, v) <==> Arrow(edges[..k], u, v) || ArrowBy(edges[k], u, v)
  {
    if i :| 0 <= i < |edges[..k]| && ArrowBy(edges[..k][i], u, v) {
      assert ArrowBy(edges[..k + 1][i], u, v);
    }
    if ArrowBy(edges[k], u, v) {
      assert ArrowBy(edges[..k + 1][k], u, v);
    }
  }

  // ----- finish order -----

  ghost predicate OnStack(stack: seq<(nat, nat)>, x: nat) {
    exists i: nat :: i < |stack| && stack[i].0 == x
  }

  /** Frame `i`: a seen node, with `before[i]` the nodes seen before it. */
  ghost predicate FrameOk(r: Rel, comp: set<nat>, out: Lists, stack: seq<(nat, nat)>, before: seq<set<nat>>,
                          seen: set<nat>, i: nat)
    requires i < |stack| == |before|
  {
    && stack[i].0 in seen && stack[i].0 !in before[i] && before[i] <= seen
    && stack[i].0 < |out| && stack[i].1 <= |out[stack[i].0]|
    && (forall j :: 0 <= j < stack[i].1 && out[stack[i].0][j] in comp ==> out[stack[i].0][j] in seen)
    && (forall z {:trigger Reach(r, stack[i].0, z)} :: z in seen && z !in before[i] ==> Reach(r, stack[i].0, z))
  }

  /** What was finished before frame `i` leads nowhere seen since. */
  ghost predicate BeforeClosed(r: Rel, before: seq<set<nat>>, fin: seq<nat>, i: nat)
    requires i < |before|
  {
    forall x, y {:trigger (x, y) in r} :: (x, y) in r && x in before[i] && x in fin ==> y in before[i]
  }

  /** A node of the component of `x` is finished no earlier than position `i`. */
  ghost predicate LedFrom(r: Rel, fin: seq<nat>, x: nat, i: nat) {
    exists j: nat :: i <= j < |fin| && Same(r, x, fin[j])
  }

  ghost predicate HeldOpen(r: Rel, stack: seq<(nat, nat)>, x: nat) {
    exists k: nat :: k < |stack| && Same(r, x, stack[k].0)
  }

  ghost predicate Leads(r: Rel, comp: set<nat>, stack: seq<(nat, nat)>, seen: set<nat>, fin: seq<nat>, x: nat, i: nat) {
    i < |fin| && x in comp && Reach(r, x, fin[i]) ==> x !in seen || HeldOpen(r, stack, x) || LedFrom(r, fin, x, i)
  }

  ghost predicate Nested(stack: seq<(nat, nat)>, before: seq<set<nat>>) {
    && |stack| == |before|
    && forall i: nat, k: nat {:trigger stack[i], before[k]} :: i < k < |stack| ==>
         stack[i].0 in before[k] && before[i] <= before[k]
  }

  ghost predicate Dfs(r: Rel, comp: set<nat>, out: Lists, stack: seq<(nat, nat)>, before: seq<set<nat>>, seen: set<nat>,
                      fin: seq<nat>)
  {
    && Nested(stack, before) && seen <= comp && NoDup(fin)
    && (forall x {:trigger x in fin} :: x in fin <==> x in seen && !OnStack(stack, x))
    && (forall i: nat {:trigger FrameOk(r, comp, out, stack, before, seen, i)} :: i < |stack| ==>
          FrameOk(r, comp, out, stack, before, seen, i))
    && (forall x, y {:trigger (x, y) in r} :: (x, y) in r && x in fin ==> y in seen)
    && (forall i: nat {:trigger BeforeClosed(r, before, fin, i)} :: i < |stack| ==> BeforeClosed(r, before, fin, i))
    && (forall x: nat, i: nat {:trigger Leads(r, comp, stack, seen, fin, x, i)} ::
          Leads(r, comp, stack, seen, fin, x, i))
  }

  /** The arrows inside the component, as the search reads them. */
  ghost predicate Reads(r: Rel, comp: set<nat>, out: Lists) {
    && (forall u {:trigger u in comp} :: u in comp ==> u < |out|)
    && (forall u: nat, v: nat {:trigger (u, v) in r} :: (u, v) in r <==>
          u in comp && v in comp && u < |out| && v in out[u])
  }

  /** A new node goes on the stack: as a root, or by an arrow from the top. */
  lemma PushStep(r: Rel, comp: set<nat>, out: Lists, stack: seq<(nat, nat)>, before: seq<set<nat>>, seen: set<nat>,
                 fin: seq<nat>, v: nat)
    requires Dfs(r, comp, out, stack, before, seen, fin) && Reads(r, comp, out) && v in comp && v !in seen
    requires stack != [] ==> (stack[|stack| - 1].0, v) in r
    ensures Dfs(r, comp, out, stack + [(v, 0)], before + [seen], seen + {v}, fin)
  {
    var stack', before', seen' := stack + [(v, 0)], before + [seen], seen + {v};
    PushFrames(r, comp, out, stack, before, seen, v);
    forall x ensures OnStack(stack', x) <==> OnStack(stack, x) || x == v {
      if i: nat :| i < |stack| && stack[i].0 == x {
        assert stack'[i].0 == x;
      }
      assert stack'[|stack|].0 == v;
    }
    forall i: nat | i < |stack'| ensures BeforeClosed(r, before', fin, i) {
      if i < |stack| {
        assert BeforeClosed(r, before, fin, i);
      }
    }
    forall x: nat, i: nat ensures Leads(r, comp, stack', seen', fin, x, i) {
      assert Leads(r, comp, stack, seen, fin, x, i);
      if x == v {
        ReachRefl(r, v);
        assert Same(r, x, stack'[|stack|].0);
        assert HeldOpen(r, stack', x);
      } else if HeldOpen(r, stack, x) {
        var k: nat :| k < |stack| && Same(r, x, stack[k].0);
        assert Same(r, x, stack'[k].0);
        assert HeldOpen(r, stack', x);
      }
    }
  }

  lemma PushFrames(r: Rel, comp: set<nat>, out: Lists, stack: seq<(nat, nat)>, before: seq<set<nat>>, seen: set<nat>,
                   v: nat)
    requires Nested(stack, before) && v in comp && v !in seen && v < |out|
    requires forall i: nat {:trigger FrameOk(r, comp, out, stack, before, seen, i)} :: i < |stack| ==>
               FrameOk(r, comp, out, stack, before, seen, i)
    requires stack != [] ==> (stack[|stack| - 1].0, v) in r
    ensures Nested(stack + [(v, 0)], before + [seen])
    ensures forall i: nat {:trigger FrameOk(r, comp, out, stack + [(v, 0)], before + [seen], seen + {v}, i)} ::
              i < |stack| + 1 ==> FrameOk(r, comp, out, stack + [(v, 0)], before + [seen], seen + {v}, i)
  {
    var stack', before', seen' := stack + [(v, 0)], before + [seen], seen + {v};
    forall i: nat | i < |stack'| ensures FrameOk(r, comp, out, stack', before', seen', i) {
      if i < |stack| {
        assert FrameOk(r, comp, out, stack, before, seen, i);
        var t := |stack| - 1;
        assert FrameOk(r, comp, out, stack, before, seen, t);
        assert i < t ==> before[i] <= before[t];
        ReachStep(r, stack[i].0, stack[t].0, v);
      } else {
        ReachRefl(r, v);
      }
    }
    forall i: nat, k: nat | i < k < |stack'| ensures stack'[i].0 in before'[k] && before'[i] <= before'[k] {
      assert FrameOk(r, comp, out, stack, before, seen, i);
      if k < |stack| {
        assert stack[i].0 in before[k];
      }
    }
  }

  /** The next arrow of frame `t` leads out of the component or to a node seen. */
  lemma SkipStep(r: Rel, comp: set<nat>, out: Lists, stack: seq<(nat, nat)>, before: seq<set<nat>>, seen: set<nat>,
                 fin: seq<nat>, t: nat)
    requires Dfs(r, comp, out, stack, before, seen, fin) && t < |stack|
    requires var (u, j) := stack[t]; u < |out| && j < |out[u]| && (out[u][j] in comp ==> out[u][j] in seen)
    ensures Dfs(r, comp, out, stack[t := (stack[t].0, stack[t].1 + 1)], before, seen, fin)
  {
    var stack' := stack[t := (stack[t].0, stack[t].1 + 1)];
    assert forall i :: 0 <= i < |stack| ==> stack'[i].0 == stack[i].0;
    forall i: nat | i < |stack'| ensures FrameOk(r, comp, out, stack', before, seen, i) {
      assert FrameOk(r, comp, out, stack, before, seen, i);
    }
    forall x ensures OnStack(stack', x) <==> OnStack(stack, x) {
      if i: nat :| i < |stack| && stack[i].0 == x {
        assert stack'[i].0 == x;
      }
      if i: nat :| i < |stack'| && stack'[i].0 == x {
        assert stack[i].0 == x;
      }
    }
    forall x: nat, i: nat ensures Leads(r, comp, stack', seen, fin, x, i) {
      assert Leads(r, comp, stack, seen, fin, x, i);
      if HeldOpen(r, stack, x) {
        var k: nat :| k < |stack| && Same(r, x, stack[k].0);
        assert Same(r, x, stack'[k].0);
      }
    }
    forall i: nat, k: nat | i < k < |stack'| ensures stack'[i].0 in before[k] && before[i] <= before[k] {
      assert stack[i].0 in before[k];
    }
    forall i: nat | i < |stack'| ensures BeforeClosed(r, before, fin, i) {
      assert BeforeClosed(r, before, fin, i);
    }
  }

  /** A seen node that reaches the top of the stack shares its component with a node of the stack. */
  lemma ReachesTop(r: Rel, comp: set<nat>, out: Lists, stack: seq<(nat, nat)>, before: seq<set<nat>>, seen: set<nat>,
                   fin: seq<nat>, x: nat)
    requires Dfs(r, comp, out, stack, before, seen, fin) && stack != [] && x in seen
    requires Reach(r, x, stack[|stack| - 1].0)
    ensures HeldOpen(r, stack, x)
  {
    var t := |stack| - 1;
    var u := stack[t].0;
    assert FrameOk(r, comp, out, stack, before, seen, t);
    if x !in before[t] {
      assert Same(r, x, u);
    } else {
      var k := FirstBefore(stack, before, x);
      if k < t {
        assert stack[k].0 in before[t];
      }
      assert BeforeClosed(r, before, fin, k);
      var p :| PathFrom(r, p, x, u);
      var i := Crossing(r, before[k], p);
      assert (p[i], p[i + 1]) in r;
      assert FrameOk(r, comp, out, stack, before, seen, k);
      assert p[i] in seen && p[i] !in fin;
      var j: nat :| j < |stack| && stack[j].0 == p[i];
      assert FrameOk(r, comp, out, stack, before, seen, j);
      var outer, inner := stack[k].0, before[j];
      assert j > k ==> outer in inner;
      assert j < k;
      if j < k - 1 {
        assert stack[j].0 in before[k - 1];
      }
      assert x !in before[j];
      assert PathFrom(r, p[..i + 1], x, p[i]);
      assert Same(r, x, stack[j].0);
    }
  }

  lemma FirstBefore(stack: seq<(nat, nat)>, before: seq<set<nat>>, x: nat) returns (k: nat)
    requires Nested(stack, before) && |before| > 0 && x in before[|before| - 1]
    ensures k < |before| && x in before[k] && (k > 0 ==> x !in before[k - 1])
  {
    k := |before| - 1;
    while k > 0 && x in before[k - 1]
      invariant k < |before| && x in before[k]
    {
      k := k - 1;
    }
  }

  /** The top node is finished. */
  lemma PopStep(r: Rel, comp: set<nat>, out: Lists, stack: seq<(nat, nat)>, before: seq<set<nat>>, seen: set<nat>,
                fin: seq<nat>)
    requires Dfs(r, comp, out, stack, before, seen, fin) && Reads(r, comp, out) && stack != []
    requires var (u, j) := stack[|stack| - 1]; u < |out| && j >= |out[u]|
    ensures var t := |stack| - 1; Dfs(r, comp, out, stack[..t], before[..t], seen, fin + [stack[t].0])
  {
    var t := |stack| - 1;
    var u := stack[t].0;
    var stack', before', fin' := stack[..t], before[..t], fin + [u];
    assert FrameOk(r, comp, out, stack, before, seen, t);
    PopOnStack(r, comp, out, stack, before, seen);
    assert OnStack(stack, u) && u !in fin;
    forall i: nat | i < |stack'| ensures FrameOk(r, comp, out, stack', before', seen, i) {
      assert FrameOk(r, comp, out, stack, before, seen, i);
    }
    forall i: nat, k: nat | i < k < |stack'| ensures stack'[i].0 in before'[k] && before'[i] <= before'[k] {
      assert stack[i].0 in before[k];
    }
    forall i: nat | i < |stack'| ensures BeforeClosed(r, before', fin', i) {
      assert BeforeClosed(r, before, fin, i);
      assert stack[i].0 in before[t] && before[i] <= before[t];
    }
    forall x: nat, i: nat ensures Leads(r, comp, stack', seen, fin', x, i) {
      PopLeads(r, comp, out, stack, before, seen, fin, x, i);
    }
  }

  lemma PopOnStack(r: Rel, comp: set<nat>, out: Lists, stack: seq<(nat, nat)>, before: seq<set<nat>>, seen: set<nat>)
    requires Nested(stack, before) && stack != []
    requires forall i: nat {:trigger FrameOk(r, comp, out, stack, before, seen, i)} :: i < |stack| ==>
               FrameOk(r, comp, out, stack, before, seen, i)
    ensures forall x :: OnStack(stack[..|stack| - 1], x) <==> OnStack(stack, x) && x != stack[|stack| - 1].0
  {
    var t := |stack| - 1;
    assert FrameOk(r, comp, out, stack, before, seen, t);
    forall x ensures OnStack(stack[..t], x) <==> OnStack(stack, x) && x != stack[t].0 {
      if i: nat :| i < |stack| && stack[i].0 == x {
        if i < t {
          assert stack[..t][i].0 == x;
          assert x in before[t];
        }
      }
      if i: nat :| i < t && stack[..t][i].0 == x {
        assert stack[i].0 == x;
      }
    }
  }

  lemma PopLeads(r: Rel, comp: set<nat>, out: Lists, stack: seq<(nat, nat)>, before: seq<set<nat>>, seen: set<nat>,
                 fin: seq<nat>, x: nat, i: nat)
    requires Dfs(r, comp, out, stack, before, seen, fin) && stack != []
    ensures Leads(r, comp, stack[..|stack| - 1], seen, fin + [stack[|stack| - 1].0], x, i)
  {
    var t := |stack| - 1;
    var u := stack[t].0;
    var stack', fin' := stack[..t], fin + [u];
    if i < |fin'| && x in comp && Reach(r, x, fin'[i]) && x in seen {
      if i < |fin| {
        assert fin'[i] == fin[i];
        assert Leads(r, comp, stack, seen, fin, x, i);
      } else {
        ReachesTop(r, comp, out, stack, before, seen, fin, x);
      }
      if HeldOpen(r, stack, x) {
        var k: nat :| k < |stack| && Same(r, x, stack[k].0);
        if k < t {
          assert Same(r, x, stack'[k].0);
          assert HeldOpen(r, stack', x);
        } else {
          assert Same(r, x, fin'[|fin|]);
          assert LedFrom(r, fin', x, i);
        }
      } else {
        var j: nat :| i <= j < |fin| && Same(r, x, fin[j]);
        assert Same(r, x, fin'[j]);
        assert LedFrom(r, fin', x, i);
      }
    }
  }

  /** Whoever reaches a node has a companion that finishes no earlier. */
  ghost predicate FinishOrdered(r: Rel, comp: set<nat>, fin: seq<nat>) {
    && NoDup(fin) && Elems(fin) == comp
    && forall x: nat, i: nat {:trigger LedFrom(r, fin, x, i)} :: i < |fin| && x in comp && Reach(r, x, fin[i]) ==>
         LedFrom(r, fin, x, i)
  }

  /** Arrows a frame has still to look at. */
  ghost function Untried(out: Lists, frame: (nat, nat)): seq<nat> {
    if frame.0 < |out| && frame.1 <= |out[frame.0]| then out[frame.0][frame.1..] else []
  }

  ghost function Opens(out: Lists, stack: seq<(nat, nat)>): (r: seq<Open>)
    ensures |r| == |stack| && forall i :: 0 <= i < |r| ==> r[i] == Open(stack[i].0, Untried(out, stack[i]))
  {
    seq(|stack|, i requires 0 <= i < |stack| => Open(stack[i].0, Untried(out, stack[i])))
  }

  /** The search so far is the start of the recursive one. */
  ghost predicate Traced(comp: set<nat>, out: Lists, start: seq<nat>, stack: seq<(nat, nat)>, seen: set<nat>,
                         met: seq<nat>, fin: seq<nat>, roots: seq<nat>)
  {
    seen == Elems(met) && OnCourse(out, comp, start, met, fin, Opens(out, stack), roots)
  }

  lemma OpensMore(out: Lists, stack: seq<(nat, nat)>, frame: (nat, nat))
    ensures Opens(out, stack + [frame]) == Opens(out, stack) + [Open(frame.0, Untried(out, frame))]
  {
  }

  /** The frames as the innermost looks at its next arrow. */
  lemma Advanced(out: Lists, stack: seq<(nat, nat)>, u: nat, j: nat)
    requires u < |out| && j < |out[u]|
    ensures var rest := Untried(out, (u, j + 1));
            && Opens(out, stack + [(u, j)]) == Opens(out, stack) + [Open(u, [out[u][j]] + rest)]
            && Opens(out, stack + [(u, j + 1)]) == Opens(out, stack) + [Open(u, rest)]
  {
    OpensMore(out, stack, (u, j));
    OpensMore(out, stack, (u, j + 1));
    assert out[u][j..] == [out[u][j]] + out[u][j + 1..];
  }

  lemma TracedSkip(comp: set<nat>, out: Lists, start: seq<nat>, stack: seq<(nat, nat)>, u: nat, j: nat, seen: set<nat>,
                   met: seq<nat>, fin: seq<nat>, roots: seq<nat>)
    requires Traced(comp, out, start, stack + [(u, j)], seen, met, fin, roots)
    requires u < |out| && j < |out[u]| && (out[u][j] in comp ==> out[u][j] in seen)
    ensures Traced(comp, out, start, stack + [(u, j + 1)], seen, met, fin, roots)
  {
    Advanced(out, stack, u, j);
    var lower, rest := Opens(out, stack), Untried(out, (u, j + 1));
    var frames := lower + [Open(u, [out[u][j]] + rest)];
    assert frames[..|lower|] == lower;
    NeighborPassed(out, comp, start, met, fin, frames, roots, lower + [Open(u, rest)]);
  }

  lemma TracedPush(comp: set<nat>, out: Lists, start: seq<nat>, stack: seq<(nat, nat)>, u: nat, j: nat, seen: set<nat>,
                   met: seq<nat>, fin: seq<nat>, roots: seq<nat>)
    requires Traced(comp, out, start, stack + [(u, j)], seen, met, fin, roots)
    requires u < |out| && j < |out[u]| && out[u][j] in comp && out[u][j] !in seen
    ensures var v := out[u][j];
            Traced(comp, out, start, stack + [(u, j + 1)] + [(v, 0)], seen + {v}, met + [v], fin, roots)
  {
    var v := out[u][j];
    Advanced(out, stack, u, j);
    assert v in comp && v < |out| && out[v][0..] == out[v];
    OpensMore(out, stack + [(u, j + 1)], (v, 0));
    var lower, rest := Opens(out, stack), Untried(out, (u, j + 1));
    var frames := lower + [Open(u, [v] + rest)];
    assert frames[..|lower|] == lower;
    assert lower + [Open(u, rest)] + [Open(v, out[v])] == lower + [Open(u, rest), Open(v, out[v])];
    NeighborMet(out, comp, start, met, fin, frames, roots, lower + [Open(u, rest), Open(v, out[v])]);
    assert Elems(met + [v]) == Elems(met) + {v};
  }

  lemma TracedRoot(comp: set<nat>, out: Lists, start: seq<nat>, seen: set<nat>, met: seq<nat>, fin: seq<nat>,
                   roots: seq<nat>)
    requires Traced(comp, out, start, [], seen, met, fin, roots) && roots != [] && roots[0] in comp
    ensures if roots[0] in seen then Traced(comp, out, start, [], seen, met, fin, roots[1..])
            else Traced(comp, out, start, [(roots[0], 0)], seen + {roots[0]}, met + [roots[0]], fin, roots[1..])
  {
    var v := roots[0];
    assert Opens(out, []) == [];
    if v in seen {
      RootPassed(out, comp, start, met, fin, roots);
    } else {
      RootMet(out, comp, start, met, fin, roots);
      assert out[v][0..] == out[v];
      assert Opens(out, [(v, 0)]) == [Open(v, out[v])];
      assert Elems(met + [v]) == Elems(met) + {v};
    }
  }

  lemma TracedPop(comp: set<nat>, out: Lists, start: seq<nat>, stack: seq<(nat, nat)>, u: nat, j: nat, seen: set<nat>,
                  met: seq<nat>, fin: seq<nat>, roots: seq<nat>)
    requires Traced(comp, out, start, stack + [(u, j)], seen, met, fin, roots) && u < |out| && j >= |out[u]|
    ensures Traced(comp, out, start, stack, seen, met, fin + [u], roots)
  {
    OpensMore(out, stack, (u, j));
    assert Untried(out, (u, j)) == [];
    var frames := Opens(out, stack) + [Open(u, [])];
    assert frames[..|frames| - 1] == Opens(out, stack);
    NodeLeft(out, comp, start, met, fin, frames, roots);
  }

  /** Depth-first search over the component, nodes listed as they are finished. */
  method FinishOrder(component: seq<nat>, outgoing: Lists, ghost r: Rel) returns (order: seq<nat>)
    requires Reads(r, Elems(component), outgoing)
    ensures FinishOrdered(r, Elems(component), order)
    ensures Fits(outgoing, Elems(component))
    ensures order == Explore(outgoing, Elems(component), component, {}).left
  {
    ghost var comp := Elems(component);
    var allowed := set v | v in component;
    var seen := {};
    ghost var met: seq<nat> := [];
    order := [];
    DfsStart(r, comp, outgoing);
    CourseBegins(outgoing, comp, component);
    assert Opens(outgoing, []) == [] && component[0..] == component;
    var k := 0;
    while k < |component|
      invariant 0 <= k <= |component| && Dfs(r, comp, outgoing, [], [], seen, order)
      invariant Traced(comp, outgoing, component, [], seen, met, order, component[k..])
      invariant Elems(component[..k]) <= seen
    {
      assert component[k] in component && component[k..][1..] == component[k + 1..];
      TracedRoot(comp, outgoing, component, seen, met, order, component[k..]);
      if component[k] !in seen {
        seen, order, met := FinishTree(component[k], allowed, outgoing, seen, order, r, comp, component, met,
                                       component[k + 1..]);
      }
      assert component[..k + 1] == component[..k] + [component[k]];
      k := k + 1;
    }
    assert component[..k] == component && component[k..] == [];
    CourseEnds(outgoing, comp, component, met, order);
    OrderDone(r, comp, outgoing, seen, order);
  }

  lemma DfsStart(r: Rel, comp: set<nat>, out: Lists)
    ensures Dfs(r, comp, out, [], [], {}, [])
  {
  }

  lemma OrderDone(r: Rel, comp: set<nat>, out: Lists, seen: set<nat>, order: seq<nat>)
    requires Dfs(r, comp, out, [], [], seen, order) && comp <= seen
    ensures FinishOrdered(r, comp, order)
  {
    forall x ensures x in order <==> x in comp {
      assert !OnStack([], x);
    }
    forall x: nat, i: nat | i < |order| && x in comp && Reach(r, x, order[i]) ensures LedFrom(r, order, x, i) {
      assert Leads(r, comp, [], seen, order, x, i);
      assert !HeldOpen(r, [], x);
    }
  }

  /** One tree of the search. */
  method FinishTree(start: nat, allowed: set<nat>, outgoing: Lists, seen0: set<nat>, order0: seq<nat>, ghost r: Rel,
                    ghost comp: set<nat>, ghost all: seq<nat>, ghost met0: seq<nat>, ghost roots: seq<nat>)
    returns (seen: set<nat>, order: seq<nat>, ghost met: seq<nat>)
    requires allowed == comp && start in comp && start !in seen0 && Reads(r, comp, outgoing)
    requires Dfs(r, comp, outgoing, [], [], seen0, order0)
    requires Traced(comp, outgoing, all, [(start, 0)], seen0 + {start}, met0 + [start], order0, roots)
    ensures Dfs(r, comp, outgoing, [], [], seen, order) && seen0 <= seen && start in seen
    ensures Traced(comp, outgoing, all, [], seen, met, order, roots)
  {
    PushStep(r, comp, outgoing, [], [], seen0, order0, start);
    seen, order, met := seen0 + {start}, order0, met0 + [start];
    var stack := [(start, 0)];
    ghost var before := [seen0];
    assert [] + [(start, 0)] == stack && [] + [seen0] == before;
    while stack != []
      invariant Dfs(r, comp, outgoing, stack, before, seen, order) && seen0 <= seen && start in seen
      invariant Traced(comp, outgoing, all, stack, seen, met, order, roots)
      decreases |comp| - |seen|, TreeWork(outgoing, stack)
    {
      seen, order, stack, before, met :=
        SearchTurn(allowed, outgoing, seen, order, stack, r, comp, before, all, met, roots);
    }
    assert before == [];
  }

  /** Arrows still to be looked at by the frames. */
  ghost function TreeWork(out: Lists, stack: seq<(nat, nat)>): nat {
    if stack == [] then 0
    else var (u, j) := stack[|stack| - 1];
         TreeWork(out, stack[..|stack| - 1]) + 1 + if u < |out| && j < |out[u]| then |out[u]| - j else 0
  }

  method SearchTurn(allowed: set<nat>, outgoing: Lists, seen0: set<nat>, order0: seq<nat>, stack0: seq<(nat, nat)>,
                    ghost r: Rel, ghost comp: set<nat>, ghost before0: seq<set<nat>>, ghost all: seq<nat>,
                    ghost met0: seq<nat>, ghost roots: seq<nat>)
    returns (seen: set<nat>, order: seq<nat>, stack: seq<(nat, nat)>, ghost before: seq<set<nat>>,
             ghost met: seq<nat>)
    requires allowed == comp && stack0 != [] && Reads(r, comp, outgoing)
    requires Dfs(r, comp, outgoing, stack0, before0, seen0, order0)
    requires Traced(comp, outgoing, all, stack0, seen0, met0, order0, roots)
    ensures Dfs(r, comp, outgoing, stack, before, seen, order) && seen0 <= seen
    ensures Traced(comp, outgoing, all, stack, seen, met, order, roots)
    ensures |seen0| <= |comp|
    ensures (|seen0| < |seen| <= |comp| || (seen == seen0 && TreeWork(outgoing, stack) < TreeWork(outgoing, stack0)))
  {
    seen, order, stack, before, met := seen0, order0, stack0, before0, met0;
    var t := |stack| - 1;
    var (node, nextIndex) := stack[t];
    ghost var lower := stack0[..t];
    assert stack0 == lower + [(node, nextIndex)];
    assert FrameOk(r, comp, outgoing, stack0, before0, seen0, t);
    SubsetCard(seen0, comp);
    if nextIndex < |outgoing[node]| {
      var next := outgoing[node][nextIndex];
      if next in allowed && next !in seen {
        assert next in outgoing[node] && (node, next) in r;
        PushStep(r, comp, outgoing, stack0, before0, seen0, order0, next);
        SkipStep(r, comp, outgoing, stack0 + [(next, 0)], before0 + [seen0], seen0 + {next}, order0, t);
        TracedPush(comp, outgoing, all, lower, node, nextIndex, seen0, met0, order0, roots);
        stack := stack[t := (node, nextIndex + 1)] + [(next, 0)];
        assert stack == lower + [(node, nextIndex + 1)] + [(next, 0)];
        assert stack == (stack0 + [(next, 0)])[t := (node, nextIndex + 1)];
        seen := seen + {next};
        before, met := before0 + [seen0], met0 + [next];
        SubsetCard(seen, comp);
      } else {
        SkipStep(r, comp, outgoing, stack0, before0, seen0, order0, t);
        TracedSkip(comp, outgoing, all, lower, node, nextIndex, seen0, met0, order0, roots);
        stack := stack[t := (node, nextIndex + 1)];
        assert stack == lower + [(node, nextIndex + 1)];
        assert stack[..t] == stack0[..t];
      }
    } else {
      PopStep(r, comp, outgoing, stack0, before0, seen0, order0);
      TracedPop(comp, outgoing, all, lower, node, nextIndex, seen0, met0, order0, roots);
      order := order + [node];
      stack := stack[..t];
      before := before0[..t];
    }
  }

  // ----- components -----

  type Ids = map<nat, nat>

  ghost predicate HasId(ids: Ids, x: nat, k: nat) {
    x in ids && ids[x] == k
  }

  /** Lists and ids agree. */
  ghost predicate Grouped(comp: set<nat>, sccs: Lists, ids: Ids) {
    && ids.Keys <= comp
    && (forall x: nat, k: nat {:trigger HasId(ids, x, k)} :: HasId(ids, x, k) <==> k < |sccs| && x in sccs[k])
    && (forall x {:trigger ids[x]} :: x in ids ==> ids[x] < |sccs|)
    && (forall k :: 0 <= k < |sccs| ==> Upward(sccs[k]) && sccs[k] != [])
  }

  /** Ids are shared just within strongly connected components, and arrows lead to ids no smaller. */
  ghost predicate Classed(r: Rel, comp: set<nat>, ids: Ids) {
    && (forall x: nat, y: nat {:trigger Same(r, x, y)} :: x in ids && y in comp ==>
          (Same(r, x, y) <==> HasId(ids, y, ids[x])))
    && (forall x: nat, y: nat {:trigger (x, y) in r} :: (x, y) in r && y in ids ==> x in ids && ids[x] <= ids[y])
  }

  ghost predicate Sorted(r: Rel, comp: set<nat>, order: seq<nat>, i: nat, sccs: Lists, ids: Ids) {
    && Grouped(comp, sccs, ids) && Classed(r, comp, ids)
    && forall j {:trigger order[j]} :: i <= j < |order| ==> order[j] in ids
  }

  /** Everything gathered so far reaches the start; of the nodes listed, all that lead to them are
      numbered. */
  ghost predicate Gathering(r: Rel, comp: set<nat>, ids0: Ids, start: nat, id: nat, ids: Ids, members: seq<nat>,
                            stack: seq<nat>)
  {
    && ids0.Keys <= ids.Keys <= comp && start in ids && start !in ids0
    && (forall x {:trigger ids[x]} :: x in ids ==> ids[x] == if x in ids0 then ids0[x] else id)
    && (forall x {:trigger Reach(r, x, start)} :: x in ids && x !in ids0 ==> Reach(r, x, start))
    && NoDup(members + stack) && (forall x: nat :: x in members + stack <==> x in ids && x !in ids0)
    && (forall x: nat, y: nat {:trigger (x, y) in r} :: (x, y) in r && y in members ==> x in ids)
  }

  /** `incoming` names, for each node of the component, the nodes with an arrow to it. */
  ghost predicate ReadsBack(r: Rel, comp: set<nat>, inc: Lists) {
    && (forall u {:trigger u in comp} :: u in comp ==> u < |inc|)
    && (forall u: nat, v: nat {:trigger (u, v) in r} :: (u, v) in r <==>
          u in comp && v in comp && v < |inc| && u in inc[v])
  }

  /** Some member of `a` stands behind every member of `b`. */
  ghost predicate Behind(order: seq<nat>, a: seq<nat>, b: seq<nat>) {
    exists x: nat :: BehindAll(order, x, b) && x in a
  }

  ghost predicate BehindAll(order: seq<nat>, x: nat, b: seq<nat>) {
    forall y: nat {:trigger Before(order, y, x)} :: y in b ==> Before(order, y, x)
  }

  /** Each list holds the member of them all that comes last once the earlier lists are gone. */
  ghost predicate LatestFirst(order: seq<nat>, lists: Lists) {
    forall j: nat, k: nat {:trigger PairBehind(order, lists, j, k)} :: j < k < |lists| ==>
      PairBehind(order, lists, j, k)
  }

  ghost predicate PairBehind(order: seq<nat>, lists: Lists, j: nat, k: nat) {
    j < |lists| && k < |lists| && Behind(order, lists[j], lists[k])
  }

  /** Every list holds a node from place `i` on. */
  ghost predicate StartedFrom(order: seq<nat>, i: nat, lists: Lists) {
    forall j: nat {:trigger lists[j]} :: j < |lists| ==> exists p: nat :: i <= p < |order| && order[p] in lists[j]
  }

  lemma LatestNext(order: seq<nat>, i: nat, sccs: Lists, c: seq<nat>)
    requires i < |order| && LatestFirst(order, sccs) && StartedFrom(order, i + 1, sccs)
    requires order[i] in c && forall y: nat :: y in c ==> y in order[..i + 1]
    ensures LatestFirst(order, sccs + [c]) && StartedFrom(order, i, sccs + [c])
  {
    var all := sccs + [c];
    forall j: nat, k: nat | j < k < |all| ensures PairBehind(order, all, j, k) {
      assert all[j] == sccs[j];
      if k < |sccs| {
        assert PairBehind(order, sccs, j, k);
      } else {
        var p: nat :| i + 1 <= p < |order| && order[p] in sccs[j];
        forall y: nat | y in c ensures Before(order, y, order[p]) {
          var q :| 0 <= q < i + 1 && order[..i + 1][q] == y;
          assert order[q] == y;
        }
        assert BehindAll(order, order[p], c);
      }
    }
    forall j: nat | j < |all| ensures exists p: nat :: i <= p < |order| && order[p] in all[j] {
      if j < |sccs| {
        var p: nat :| i + 1 <= p < |order| && order[p] in sccs[j];
        assert order[p] in all[j];
      } else {
        assert order[i] in all[j];
      }
    }
  }

  /** What is gathered at place `i` stands no later: all behind it has ids already. */
  lemma GatheredInFront(r: Rel, comp: set<nat>, order: seq<nat>, i: nat, sccs: Lists, ids0: Ids, members: seq<nat>,
                        ids: Ids)
    requires FinishOrdered(r, comp, order) && i < |order| && Sorted(r, comp, order, i + 1, sccs, ids0)
    requires Gathering(r, comp, ids0, order[i], |sccs|, ids, members, [])
    ensures order[i] in members && forall y: nat :: y in members ==> y in order[..i + 1]
  {
    assert members + [] == members;
    forall y: nat | y in members ensures y in order[..i + 1] {
      assert y in ids && y in comp && y in Elems(order);
      var q :| 0 <= q < |order| && order[q] == y;
      assert q <= i;
      assert order[..i + 1][q] == y;
    }
  }

  method Components(order: seq<nat>, incoming: Lists, allowed: set<nat>, ghost r: Rel)
    returns (sccs: Lists, componentOf: Ids)
    requires ReadsBack(r, allowed, incoming) && FinishOrdered(r, allowed, order)
    ensures Sorted(r, allowed, order, 0, sccs, componentOf) && componentOf.Keys == allowed
    ensures LatestFirst(order, sccs)
  {
    sccs, componentOf := [], map[];
    var i := |order|;
    while i > 0
      invariant 0 <= i <= |order| && Sorted(r, allowed, order, i, sccs, componentOf)
      invariant LatestFirst(order, sccs) && StartedFrom(order, i, sccs)
    {
      i := i - 1;
      var start := order[i];
      assert start in allowed;
      if start !in componentOf {
        var members;
        ghost var ids0 := componentOf;
        members, componentOf := Gather(start, |sccs|, incoming, allowed, componentOf, r);
        ComponentFound(r, allowed, order, i, sccs, ids0, members, componentOf);
        GatheredInFront(r, allowed, order, i, sccs, ids0, members, componentOf);
        LatestNext(order, i, sccs, Ascending(members));
        sccs := sccs + [Ascending(members)];
      }
    }
    forall x: nat ensures x in componentOf <==> x in allowed {
      if x in allowed {
        assert x in order;
      }
    }
  }

  /** `sort_unstable` on node numbers. */
  function Ascending(s: seq<nat>): (r: seq<nat>)
    ensures |r| == |s| && forall x: nat :: x in r <==> x in s
  {
    var d := SortDescending(s, Itself);
    ReversedMembers(d);
    Reversed(d)
  }

  lemma ReversedMembers(d: seq<nat>)
    ensures forall x: nat :: x in Reversed(d) <==> x in d
  {
    forall x: nat ensures x in Reversed(d) <==> x in d {
      if x in d {
        var k :| 0 <= k < |d| && d[k] == x;
        assert Reversed(d)[|d| - 1 - k] == x;
      }
    }
  }

  lemma AscendingFacts(s: seq<nat>)
    requires NoDup(s)
    ensures Upward(Ascending(s))
  {
    StrictIndices(s, SortDescending(s, Itself));
  }

  /** Backwards from the start over nodes without an id. */
  method Gather(start: nat, id: nat, incoming: Lists, allowed: set<nat>, ids0: Ids, ghost r: Rel)
    returns (members: seq<nat>, ids: Ids)
    requires ReadsBack(r, allowed, incoming) && start in allowed && start !in ids0 && ids0.Keys <= allowed
    ensures Gathering(r, allowed, ids0, start, id, ids, members, [])
  {
    ids, members := ids0[start := id], [];
    var stack := [start];
    ReachRefl(r, start);
    while stack != []
      invariant Gathering(r, allowed, ids0, start, id, ids, members, stack)
      decreases |allowed| - |ids.Keys|, |stack|
    {
      var t := |stack| - 1;
      var node := stack[t];
      assert node in members + stack;
      members, stack, ids := GatherFrom(node, id, incoming, allowed, ids0, ids, members, stack, start, r);
    }
  }

  method GatherFrom(node: nat, id: nat, incoming: Lists, allowed: set<nat>, ghost ids0: Ids, idsIn: Ids,
                    membersIn: seq<nat>, stackIn: seq<nat>, ghost start: nat, ghost r: Rel)
    returns (members: seq<nat>, stack: seq<nat>, ids: Ids)
    requires ReadsBack(r, allowed, incoming) && Gathering(r, allowed, ids0, start, id, idsIn, membersIn, stackIn)
    requires stackIn != [] && node == stackIn[|stackIn| - 1]
    ensures Gathering(r, allowed, ids0, start, id, ids, members, stack)
    ensures |idsIn.Keys| < |ids.Keys| <= |allowed| || (ids == idsIn && |stack| < |stackIn|)
  {
    members, stack, ids := membersIn + [node], stackIn[..|stackIn| - 1], idsIn;
    assert node in membersIn + stackIn;
    MoveOver(membersIn, stackIn);
    var preds := incoming[node];
    var i := 0;
    while i < |preds|
      invariant 0 <= i <= |preds| && members == membersIn + [node]
      invariant GatherLoop(r, allowed, ids0, start, id, ids, members, stack, node)
      invariant forall j :: 0 <= j < i && preds[j] in allowed ==> preds[j] in ids
      invariant if ids == idsIn then stack == stackIn[..|stackIn| - 1] else |idsIn.Keys| < |ids.Keys|
    {
      var next := preds[i];
      if next in allowed && next !in ids {
        assert (next, node) in r;
        GatherMore(r, allowed, ids0, start, id, ids, members, stack, node, next);
        ids := ids[next := id];
        stack := stack + [next];
      }
      i := i + 1;
    }
    SubsetCard(ids.Keys, allowed);
    forall x: nat | (x, node) in r ensures x in ids {
      assert x in preds;
    }
  }

  /** As `Gathering`, while the nodes that lead to `node` are being looked at. */
  ghost predicate GatherLoop(r: Rel, comp: set<nat>, ids0: Ids, start: nat, id: nat, ids: Ids, members: seq<nat>,
                             stack: seq<nat>, node: nat)
  {
    && ids0.Keys <= ids.Keys <= comp && start in ids && start !in ids0
    && (forall x {:trigger ids[x]} :: x in ids ==> ids[x] == if x in ids0 then ids0[x] else id)
    && (forall x {:trigger Reach(r, x, start)} :: x in ids && x !in ids0 ==> Reach(r, x, start))
    && NoDup(members + stack) && (forall x: nat :: x in members + stack <==> x in ids && x !in ids0)
    && (forall x: nat, y: nat {:trigger (x, y) in r} :: (x, y) in r && y in members && y != node ==> x in ids)
    && node in members
  }

  lemma MoveOver(members: seq<nat>, stack: seq<nat>)
    requires stack != [] && NoDup(members + stack)
    ensures var t := |stack| - 1; NoDup((members + [stack[t]]) + stack[..t])
    ensures var t := |stack| - 1; forall x: nat :: x in (members + [stack[t]]) + stack[..t] <==> x in members + stack
  {
    var t := |stack| - 1;
    var a, b := members + stack, (members + [stack[t]]) + stack[..t];
    var m := |members|;
    assert forall i :: 0 <= i < |b| ==> b[i] == if i < m then a[i] else if i == m then a[|a| - 1] else a[i - 1];
    forall i, j | 0 <= i < j < |b| ensures b[i] != b[j] {
      var p := if i < m then i else if i == m then |a| - 1 else i - 1;
      var q := if j < m then j else if j == m then |a| - 1 else j - 1;
      assert b[i] == a[p] && b[j] == a[q] && p != q;
    }
    forall x: nat ensures x in b <==> x in a {
      if x in a {
        var i :| 0 <= i < |a| && a[i] == x;
        assert b[if i < m then i else if i == |a| - 1 then m else i + 1] == x;
      }
    }
  }

  lemma GatherMore(r: Rel, comp: set<nat>, ids0: Ids, start: nat, id: nat, ids: Ids, members: seq<nat>, stack: seq<nat>,
                   node: nat, next: nat)
    requires GatherLoop(r, comp, ids0, start, id, ids, members, stack, node) && next in comp && next !in ids
    requires (next, node) in r
    ensures GatherLoop(r, comp, ids0, start, id, ids[next := id], members, stack + [next], node)
    ensures |ids[next := id].Keys| == |ids.Keys| + 1
  {
    var all, all' := members + stack, members + (stack + [next]);
    assert all' == all + [next];
    assert node in all;
    ReachEdge(r, next, node);
    ReachTrans(r, next, node, start);
    assert next !in all;
    assert forall i :: 0 <= i < |all| ==> all[i] in all;
    assert ids[next := id].Keys == ids.Keys + {next};
  }

  /** What was gathered from the latest unnumbered node is its whole component. */
  lemma ComponentFound(r: Rel, comp: set<nat>, order: seq<nat>, i: nat, sccs: Lists, ids0: Ids, members: seq<nat>,
                       ids: Ids)
    requires FinishOrdered(r, comp, order) && i < |order| && Sorted(r, comp, order, i + 1, sccs, ids0)
    requires order[i] !in ids0
    requires (forall u: nat, v: nat :: (u, v) in r ==> u in comp && v in comp)
    requires Gathering(r, comp, ids0, order[i], |sccs|, ids, members, [])
    ensures Sorted(r, comp, order, i, sccs + [Ascending(members)], ids)
  {
    var start, id := order[i], |sccs|;
    assert members + [] == members;
    FoundGrouped(r, comp, sccs, ids0, start, members, ids);
    forall x: nat, y: nat | x in ids && y in comp ensures Same(r, x, y) <==> HasId(ids, y, ids[x]) {
      FoundClass(r, comp, order, i, sccs, ids0, members, ids, x, y);
    }
    forall x: nat, y: nat | (x, y) in r && y in ids ensures x in ids && ids[x] <= ids[y] {
    }
  }

  lemma FoundGrouped(r: Rel, comp: set<nat>, sccs: Lists, ids0: Ids, start: nat, members: seq<nat>, ids: Ids)
    requires Grouped(comp, sccs, ids0) && Gathering(r, comp, ids0, start, |sccs|, ids, members, [])
    ensures Grouped(comp, sccs + [Ascending(members)], ids)
  {
    var sccs' := sccs + [Ascending(members)];
    assert members + [] == members;
    forall x: nat, k: nat ensures HasId(ids, x, k) <==> k < |sccs'| && x in sccs'[k] {
      assert HasId(ids0, x, k) <==> k < |sccs| && x in sccs[k];
    }
    AscendingFacts(members);
    assert start in members;
    forall k | 0 <= k < |sccs'| ensures Upward(sccs'[k]) && sccs'[k] != [] {
    }
  }

  lemma FoundClass(r: Rel, comp: set<nat>, order: seq<nat>, i: nat, sccs: Lists, ids0: Ids, members: seq<nat>, ids: Ids,
                   x: nat, y: nat)
    requires FinishOrdered(r, comp, order) && i < |order| && Sorted(r, comp, order, i + 1, sccs, ids0)
    requires order[i] !in ids0
    requires (forall u: nat, v: nat :: (u, v) in r ==> u in comp && v in comp)
    requires Gathering(r, comp, ids0, order[i], |sccs|, ids, members, []) && x in ids && y in comp
    ensures Same(r, x, y) <==> HasId(ids, y, ids[x])
  {
    var start := order[i];
    assert members + [] == members;
    if x in ids0 {
      assert Same(r, x, y) <==> HasId(ids0, y, ids0[x]);
      assert ids0[x] < |sccs|;
    } else {
      GatheredIsSame(r, comp, order, i, sccs, ids0, members, ids, x);
      if y in ids && y !in ids0 {
        GatheredIsSame(r, comp, order, i, sccs, ids0, members, ids, y);
        SameTrans(r, x, start, y);
      } else if y in ids0 {
        assert Same(r, y, x) <==> HasId(ids0, x, ids0[y]);
        assert ids0[y] < |sccs|;
      } else if Same(r, x, y) {
        BackIntoGathered(r, comp, order, i, sccs, ids0, members, ids);
        var outside := set v | v in comp && v !in ids;
        ReachStays(r, outside, y, x);
      }
    }
  }

  /** No arrow leads from an unnumbered node to a numbered one. */
  lemma BackIntoGathered(r: Rel, comp: set<nat>, order: seq<nat>, i: nat, sccs: Lists, ids0: Ids, members: seq<nat>,
                         ids: Ids)
    requires Sorted(r, comp, order, i + 1, sccs, ids0) && i < |order|
    requires Gathering(r, comp, ids0, order[i], |sccs|, ids, members, [])
    requires forall u: nat, v: nat :: (u, v) in r ==> u in comp && v in comp
    ensures forall u: nat, v: nat {:trigger (u, v) in r} :: (u, v) in r && v in ids ==> u in ids
  {
    assert members + [] == members;
    forall u: nat, v: nat | (u, v) in r && v in ids ensures u in ids {
      assert v in ids0 || v in members;
    }
  }

  lemma GatheredIsSame(r: Rel, comp: set<nat>, order: seq<nat>, i: nat, sccs: Lists, ids0: Ids, members: seq<nat>,
                       ids: Ids, x: nat)
    requires FinishOrdered(r, comp, order) && i < |order| && Sorted(r, comp, order, i + 1, sccs, ids0)
    requires order[i] !in ids0
    requires Gathering(r, comp, ids0, order[i], |sccs|, ids, members, []) && x in ids && x !in ids0
    ensures Same(r, x, order[i])
  {
    assert Reach(r, x, order[i]);
    assert LedFrom(r, order, x, i);
    var j: nat :| i <= j < |order| && Same(r, x, order[j]);
    if j > i {
      NumberedTogether(r, comp, order, i, sccs, ids0, j, x);
      assert false;
    }
  }

  /** Who shares a component with a node numbered earlier was numbered with it. */
  lemma NumberedTogether(r: Rel, comp: set<nat>, order: seq<nat>, i: nat, sccs: Lists, ids0: Ids, j: nat, x: nat)
    requires Sorted(r, comp, order, i + 1, sccs, ids0) && i < j < |order| && Same(r, x, order[j]) && x in comp
    ensures x in ids0
  {
    assert Same(r, order[j], x) && order[j] in ids0;
    assert HasId(ids0, x, ids0[order[j]]);
  }

  // ----- condensation and levels -----

  /** `succ[a]` names, once each, the other components an arrow leads to from component `a`. */
  ghost predicate Condenses(r: Rel, ids: Ids, succ: Lists) {
    && (forall a: nat, b: nat {:trigger Crosses(r, ids, a, b)} :: a < |succ| ==>
          (b in succ[a] <==> Crosses(r, ids, a, b)))
    && (forall a :: 0 <= a < |succ| ==> NoDup(succ[a]))
    && (forall a, b :: 0 <= a < |succ| && b in succ[a] ==> b < |succ|)
  }

  ghost predicate CrossedBy(r: Rel, ids: Ids, a: nat, b: nat, x: nat, y: nat) {
    (x, y) in r && HasId(ids, x, a) && HasId(ids, y, b)
  }

  /** An arrow leads from component `a` to another component `b`. */
  ghost predicate Crosses(r: Rel, ids: Ids, a: nat, b: nat) {
    a != b && exists x: nat, y: nat :: CrossedBy(r, ids, a, b, x, y)
  }

  ghost function PredsOf(succ: Lists, t: nat): set<nat> {
    set a: nat | a < |succ| && t in succ[a]
  }

  ghost predicate IndegreeIs(succ: Lists, indegree: seq<nat>, gone: set<nat>, t: nat)
    requires t < |indegree|
  {
    indegree[t] == |PredsOf(succ, t) - gone|
  }

  /** The edges read so far, as arrows. */
  ghost predicate Condensing(edges: seq<RenderEdge>, comp: set<nat>, ids: Ids, k: nat, succ: Lists, indegree: seq<nat>)
    requires k <= |edges|
  {
    && Condenses(Arrows(edges[..k], comp), ids, succ) && |indegree| == |succ|
    && forall t: nat {:trigger IndegreeIs(succ, indegree, {}, t)} :: t < |succ| ==> IndegreeIs(succ, indegree, {}, t)
  }

  method Condense(edges: seq<RenderEdge>, allowed: set<nat>, componentOf: Ids, sccCount: nat)
    returns (successors: Lists, indegree: seq<nat>)
    requires componentOf.Keys == allowed && forall x :: x in componentOf ==> componentOf[x] < sccCount
    ensures |successors| == sccCount && Condensing(edges, allowed, componentOf, |edges|, successors, indegree)
  {
    successors, indegree := seq(sccCount, _ => []), seq(sccCount, _ => 0);
    CondenseStart(edges, allowed, componentOf, successors, indegree);
    for k := 0 to |edges|
      invariant |successors| == sccCount && Condensing(edges, allowed, componentOf, k, successors, indegree)
    {
      var e := edges[k];
      ghost var succ0 := successors;
      if e.from in allowed && e.to in allowed {
        var source, target := componentOf[e.from], componentOf[e.to];
        successors, indegree := Link(successors, indegree, source, target);
        if e.bidirectional {
          successors, indegree := Link(successors, indegree, target, source);
        }
      }
      CondenseNext(edges, allowed, componentOf, k, succ0, successors);
    }
  }

  lemma CondenseStart(edges: seq<RenderEdge>, comp: set<nat>, ids: Ids, succ: Lists, indegree: seq<nat>)
    requires |indegree| == |succ| && (forall a :: 0 <= a < |succ| ==> succ[a] == [] && indegree[a] == 0)
    ensures Condensing(edges, comp, ids, 0, succ, indegree)
  {
    forall a: nat, b: nat ensures !Crosses(Arrows(edges[..0], comp), ids, a, b) {
      assert edges[..0] == [];
    }
    forall t: nat | t < |succ| ensures IndegreeIs(succ, indegree, {}, t) {
      assert PredsOf(succ, t) == {};
    }
  }

  /** Components the lists hold, ways in counted. */
  ghost predicate Counted(succ: Lists, indegree: seq<nat>) {
    && |indegree| == |succ| && (forall a :: 0 <= a < |succ| ==> NoDup(succ[a]))
    && (forall a, b :: 0 <= a < |succ| && b in succ[a] ==> b < |succ|)
    && forall t: nat {:trigger IndegreeIs(succ, indegree, {}, t)} :: t < |succ| ==> IndegreeIs(succ, indegree, {}, t)
  }

  /** Enter `target` among the successors of `source` unless it is there, or the same. */
  method Link(succ0: Lists, indegree0: seq<nat>, source: nat, target: nat) returns (succ: Lists, indegree: seq<nat>)
    requires Counted(succ0, indegree0) && source < |succ0| && target < |succ0|
    ensures Counted(succ, indegree) && |succ| == |succ0|
    ensures forall a: nat, b: nat {:trigger b in succ[a]} :: a < |succ| ==>
              (b in succ[a] <==> b in succ0[a] || (a == source && b == target && a != b))
  {
    succ, indegree := succ0, indegree0;
    if source != target && target !in succ[source] {
      LinkCounted(succ, indegree, source, target);
      succ := succ[source := succ[source] + [target]];
      indegree := indegree[target := indegree[target] + 1];
    }
  }

  lemma LinkCounted(succ: Lists, indegree: seq<nat>, source: nat, target: nat)
    requires Counted(succ, indegree) && source < |succ| && target < |succ| && target !in succ[source]
    ensures Counted(succ[source := succ[source] + [target]], indegree[target := indegree[target] + 1])
  {
    var succ', indegree' := succ[source := succ[source] + [target]], indegree[target := indegree[target] + 1];
    assert forall a, b {:trigger b in succ'[a]} :: 0 <= a < |succ| ==>
             (b in succ'[a] <==> b in succ[a] || (a == source && b == target));
    forall t: nat | t < |succ| ensures IndegreeIs(succ', indegree', {}, t) {
      assert IndegreeIs(succ, indegree, {}, t);
      PredsLinked(succ, succ', source, target, t);
    }
    assert NoDup(succ'[source]) by {
      assert forall i :: 0 <= i < |succ[source]| ==> succ[source][i] in succ[source];
    }
  }

  lemma PredsLinked(succ: Lists, succ': Lists, source: nat, target: nat, t: nat)
    requires |succ'| == |succ| && source < |succ|
    requires forall a, b {:trigger b in succ'[a]} :: 0 <= a < |succ| ==>
               (b in succ'[a] <==> b in succ[a] || (a == source && b == target))
    ensures PredsOf(succ', t) - {} == (if t == target then PredsOf(succ, t) + {source} else PredsOf(succ, t) - {})
  {
  }

  lemma CondenseNext(edges: seq<RenderEdge>, comp: set<nat>, ids: Ids, k: nat, succ0: Lists, succ: Lists)
    requires k < |edges| && ids.Keys == comp && |succ| == |succ0| && forall x :: x in ids ==> ids[x] < |succ|
    requires Condenses(Arrows(edges[..k], comp), ids, succ0)
    requires (forall a :: 0 <= a < |succ| ==> NoDup(succ[a])) && forall a, b :: 0 <= a < |succ| && b in succ[a] ==>
               b < |succ|
    requires var e := edges[k];
             forall a: nat, b: nat {:trigger b in succ[a]} :: a < |succ| ==>
               (b in succ[a] <==> b in succ0[a] || (a != b && LinksBy(e, ids, a, b)))
    ensures Condenses(Arrows(edges[..k + 1], comp), ids, succ)
  {
    forall a: nat, b: nat | a < |succ| ensures b in succ[a] <==> Crosses(Arrows(edges[..k + 1], comp), ids, a, b) {
      CrossesNext(edges, comp, ids, k, a, b);
      assert b in succ0[a] <==> Crosses(Arrows(edges[..k], comp), ids, a, b);
    }
  }

  /** The edge itself leads from component `a` to component `b`. */
  ghost predicate LinksBy(e: RenderEdge, ids: Ids, a: nat, b: nat) {
    (HasId(ids, e.from, a) && HasId(ids, e.to, b)) || (e.bidirectional && HasId(ids, e.to, a) && HasId(ids, e.from, b))
  }

  lemma CrossesNext(edges: seq<RenderEdge>, comp: set<nat>, ids: Ids, k: nat, a: nat, b: nat)
    requires k < |edges| && ids.Keys == comp
    ensures Crosses(Arrows(edges[..k + 1], comp), ids, a, b) <==>
              Crosses(Arrows(edges[..k], comp), ids, a, b) || (a != b && LinksBy(edges[k], ids, a, b))
  {
    var r, r' := Arrows(edges[..k], comp), Arrows(edges[..k + 1], comp);
    var e := edges[k];
    if Crosses(r', ids, a, b) {
      var x: nat, y: nat :| CrossedBy(r', ids, a, b, x, y);
      ArrowNext(edges, k, x, y);
      if Arrow(edges[..k], x, y) {
        assert CrossedBy(r, ids, a, b, x, y);
      }
    }
    if Crosses(r, ids, a, b) {
      var x: nat, y: nat :| CrossedBy(r, ids, a, b, x, y);
      ArrowNext(edges, k, x, y);
      assert CrossedBy(r', ids, a, b, x, y);
    }
    if a != b && HasId(ids, e.from, a) && HasId(ids, e.to, b) {
      ArrowNext(edges, k, e.from, e.to);
      assert CrossedBy(r', ids, a, b, e.from, e.to);
    }
    if a != b && e.bidirectional && HasId(ids, e.to, a) && HasId(ids, e.from, b) {
      ArrowNext(edges, k, e.to, e.from);
      assert CrossedBy(r', ids, a, b, e.to, e.from);
    }
  }

  // ----- levels -----

  /** Arrows between components lead to larger ids. */
  ghost predicate Rises(succ: Lists) {
    forall a, b :: 0 <= a < |succ| && b in succ[a] ==> a < b < |succ|
  }

  ghost predicate Raised(succ: Lists, level: seq<nat>, a: nat, b: nat) {
    a < |succ| && a < |level| && b < |level| && (b in succ[a] ==> level[b] >= level[a] + 1)
  }

  /** A level above zero is one more than that of some predecessor done. */
  ghost predicate Explained(succ: Lists, level: seq<nat>, gone: set<nat>, t: nat) {
    t < |level| && (level[t] == 0 || exists a: nat :: a in gone && ExplainedBy(succ, level, t, a))
  }

  ghost predicate ExplainedBy(succ: Lists, level: seq<nat>, t: nat, a: nat) {
    a < |succ| && a < |level| && t < |level| && t in succ[a] && level[t] == level[a] + 1
  }

  /** Ways in that are still counted, with the first `k` successors of `source` taken off already. */
  ghost predicate CountedBut(succ: Lists, indegree: seq<nat>, gone: set<nat>, source: nat, k: nat, t: nat)
    requires t < |indegree| && source < |succ| && k <= |succ[source]|
  {
    indegree[t] == |PredsOf(succ, t) - (if t in succ[source][..k] then gone + {source} else gone)|
  }

  ghost predicate Kahn(succ: Lists, gone: set<nat>, queue: seq<nat>, indegree: seq<nat>, level: seq<nat>) {
    && |indegree| == |level| == |succ| && Rises(succ)
    && (forall a :: 0 <= a < |succ| ==> NoDup(succ[a]))
    && (forall t: nat {:trigger IndegreeIs(succ, indegree, gone, t)} :: t < |succ| ==>
          IndegreeIs(succ, indegree, gone, t))
    && NoDup(queue) && (forall t :: t in gone ==> t < |succ|) && (forall t :: t in queue ==> t < |succ| && t !in gone)
    && (forall t: nat {:trigger indegree[t]} :: t < |succ| ==> (indegree[t] == 0 <==> t in gone || t in queue))
    && (forall a: nat, b: nat {:trigger Raised(succ, level, a, b)} :: a in gone && b < |succ| ==>
          Raised(succ, level, a, b))
    && (forall t: nat {:trigger Explained(succ, level, gone, t)} :: t < |succ| ==> Explained(succ, level, gone, t))
  }

  /** `source` has left the queue, and its first `k` successors have been told. */
  ghost predicate KahnLoop(succ: Lists, gone: set<nat>, source: nat, k: nat, queue: seq<nat>, indegree: seq<nat>,
                           level: seq<nat>)
  {
    && |indegree| == |level| == |succ| && Rises(succ)
    && (forall a :: 0 <= a < |succ| ==> NoDup(succ[a]))
    && source < |succ| && source !in gone && k <= |succ[source]| && source !in queue
    && (forall t: nat {:trigger CountedBut(succ, indegree, gone, source, k, t)} :: t < |succ| ==>
          CountedBut(succ, indegree, gone, source, k, t))
    && NoDup(queue) && (forall t :: t in gone ==> t < |succ|) && (forall t :: t in queue ==> t < |succ| && t !in gone)
    && (forall t: nat {:trigger indegree[t]} :: t < |succ| ==>
          (indegree[t] == 0 <==> t in gone || t == source || t in queue))
    && (forall a: nat, b: nat {:trigger Raised(succ, level, a, b)} :: a in gone && b < |succ| ==>
          Raised(succ, level, a, b))
    && (forall b {:trigger b in succ[source][..k]} :: b in succ[source][..k] ==>
          b < |level| && level[b] >= level[source] + 1)
    && (forall t: nat {:trigger Explained(succ, level, gone + {source}, t)} :: t < |succ| ==>
          Explained(succ, level, gone + {source}, t))
  }

  lemma KahnPop(succ: Lists, gone: set<nat>, queue: seq<nat>, indegree: seq<nat>, level: seq<nat>)
    requires Kahn(succ, gone, queue, indegree, level) && queue != []
    ensures KahnLoop(succ, gone, queue[0], 0, queue[1..], indegree, level)
  {
    var source := queue[0];
    assert source in queue;
    forall t: nat | t < |succ| ensures CountedBut(succ, indegree, gone, source, 0, t) {
      assert IndegreeIs(succ, indegree, gone, t);
    }
    forall t: nat | t < |succ| ensures Explained(succ, level, gone + {source}, t) {
      assert Explained(succ, level, gone, t);
    }
    forall t ensures t in queue <==> t == source || t in queue[1..] {
      assert queue == [source] + queue[1..];
    }
  }

  lemma KahnDone(succ: Lists, gone: set<nat>, source: nat, queue: seq<nat>, indegree: seq<nat>, level: seq<nat>)
    requires source < |succ| && KahnLoop(succ, gone, source, |succ[source]|, queue, indegree, level)
    ensures Kahn(succ, gone + {source}, queue, indegree, level)
  {
    assert succ[source][..|succ[source]|] == succ[source];
    forall t: nat | t < |succ| ensures IndegreeIs(succ, indegree, gone + {source}, t) {
      assert CountedBut(succ, indegree, gone, source, |succ[source]|, t);
      if t !in succ[source] {
        assert PredsOf(succ, t) - (gone + {source}) == PredsOf(succ, t) - gone;
      }
    }
    forall a: nat, b: nat | a in gone + {source} && b < |succ| ensures Raised(succ, level, a, b) {
      if a in gone {
        assert Raised(succ, level, a, b);
      }
    }
  }

  function Told(level: seq<nat>, source: nat, target: nat): (r: seq<nat>)
    requires source < |level| && target < |level|
    ensures |r| == |level|
  {
    level[target := if level[target] >= level[source] + 1 then level[target] else level[source] + 1]
  }

  /** The next successor hears of its predecessor. */
  lemma KahnTell(succ: Lists, gone: set<nat>, source: nat, k: nat, queue: seq<nat>, indegree: seq<nat>, level: seq<nat>)
    requires KahnLoop(succ, gone, source, k, queue, indegree, level) && k < |succ[source]|
    ensures var t := succ[source][k];
            && t < |succ| && t != source && indegree[t] > 0
            && var indegree' := indegree[t := indegree[t] - 1];
               KahnLoop(succ, gone, source, k + 1, if indegree'[t] == 0 then queue + [t]
                        else queue, indegree', Told(level, source, t))
  {
    var t := succ[source][k];
    assert t in succ[source] && source < t;
    TellCounts(succ, gone, source, k, indegree);
    var indegree', level' := indegree[t := indegree[t] - 1], Told(level, source, t);
    assert indegree[t] > 0;
    assert t !in gone && t !in queue;
    assert succ[source][..k + 1] == succ[source][..k] + [t];
    forall a: nat, b: nat | a in gone && b < |succ| ensures Raised(succ, level', a, b) {
      assert Raised(succ, level, a, b);
    }
    forall x: nat | x < |succ| ensures Explained(succ, level', gone + {source}, x) {
      TellExplains(succ, gone, source, level, t, x);
    }
  }

  lemma TellCounts(succ: Lists, gone: set<nat>, source: nat, k: nat, indegree: seq<nat>)
    requires |indegree| == |succ| && source < |succ| && source !in gone && k < |succ[source]| && NoDup(succ[source])
    requires succ[source][k] < |succ|
    requires forall t: nat {:trigger CountedBut(succ, indegree, gone, source, k, t)} :: t < |succ| ==>
               CountedBut(succ, indegree, gone, source, k, t)
    ensures indegree[succ[source][k]] > 0
    ensures var t, k' := succ[source][k], k + 1;
            var indegree' := indegree[t := indegree[t] - 1];
            forall x: nat {:trigger CountedBut(succ, indegree', gone, source, k', x)} :: x < |succ| ==>
              CountedBut(succ, indegree', gone, source, k', x)
  {
    var t := succ[source][k];
    assert t in succ[source] && t !in succ[source][..k];
    assert succ[source][..k + 1] == succ[source][..k] + [t];
    assert CountedBut(succ, indegree, gone, source, k, t);
    assert source in PredsOf(succ, t) - gone;
    assert PredsOf(succ, t) - gone == (PredsOf(succ, t) - (gone + {source})) + {source};
    var indegree', k' := indegree[t := indegree[t] - 1], k + 1;
    forall x: nat | x < |succ| ensures CountedBut(succ, indegree', gone, source, k', x) {
      assert CountedBut(succ, indegree, gone, source, k, x);
    }
  }

  lemma TellExplains(succ: Lists, gone: set<nat>, source: nat, level: seq<nat>, t: nat, x: nat)
    requires |level| == |succ| && source < |succ| && t in succ[source] && t < |succ| && t !in gone && t != source
    requires x < |succ|
    requires Explained(succ, level, gone + {source}, x)
    ensures Explained(succ, Told(level, source, t), gone + {source}, x)
  {
    var level' := Told(level, source, t);
    if x == t && level[t] < level[source] + 1 {
      assert ExplainedBy(succ, level', x, source);
    } else if level[x] != 0 {
      var a: nat :| a in gone + {source} && ExplainedBy(succ, level, x, a);
      assert ExplainedBy(succ, level', x, a);
    }
  }

  /** Every component has its turn. */
  lemma {:induction false} AllGone(succ: Lists, gone: set<nat>, indegree: seq<nat>, level: seq<nat>, t: nat)
    requires Kahn(succ, gone, [], indegree, level) && t < |succ|
    ensures t in gone
    decreases t
  {
    forall a | a in PredsOf(succ, t) ensures a in gone {
      AllGone(succ, gone, indegree, level, a);
    }
    assert PredsOf(succ, t) - gone == {};
    assert IndegreeIs(succ, indegree, gone, t);
  }

  /** Each arrow climbs, and nothing is higher than an arrow makes it. */
  ghost predicate Leveled(succ: Lists, level: seq<nat>) {
    && |level| == |succ|
    && (forall a: nat, b: nat {:trigger Raised(succ, level, a, b)} :: a < |succ| && b < |succ| ==>
          Raised(succ, level, a, b))
    && forall t: nat {:trigger Explained(succ, level, Below(|succ|), t)} :: t < |succ| ==>
         Explained(succ, level, Below(|succ|), t)
  }

  lemma KahnEnds(succ: Lists, gone: set<nat>, indegree: seq<nat>, level: seq<nat>)
    requires Kahn(succ, gone, [], indegree, level)
    ensures Leveled(succ, level)
  {
    forall t: nat | t < |succ| ensures t in gone {
      AllGone(succ, gone, indegree, level, t);
    }
    assert gone == Below(|succ|);
  }

  /** Components without a way in first, each other once its last predecessor is done. */
  method Levels(successors: Lists, indegree0: seq<nat>) returns (level: seq<nat>)
    requires Counted(successors, indegree0) && Rises(successors)
    ensures Leveled(successors, level)
  {
    var indegree := indegree0;
    var queue := Roots(indegree);
    level := seq(|successors|, _ => 0);
    ghost var gone: set<nat> := {};
    KahnStart(successors, queue, indegree, level);
    while queue != []
      invariant Kahn(successors, gone, queue, indegree, level)
      decreases |successors| - |gone|
    {
      var source := queue[0];
      assert source in queue;
      KahnPop(successors, gone, queue, indegree, level);
      queue, indegree, level := TellSuccessors(successors, source, queue[1..], indegree, level, gone);
      SubsetCard(gone + {source}, Below(|successors|));
      gone := gone + {source};
    }
    KahnEnds(successors, gone, indegree, level);
  }

  method Roots(indegree: seq<nat>) returns (queue: seq<nat>)
    ensures NoDup(queue) && forall t: nat :: t in queue <==> t < |indegree| && indegree[t] == 0
  {
    queue := [];
    for i := 0 to |indegree|
      invariant NoDup(queue) && forall t: nat :: t in queue <==> t < i && indegree[t] == 0
    {
      if indegree[i] == 0 {
        assert forall k :: 0 <= k < |queue| ==> queue[k] in queue;
        queue := queue + [i];
      }
    }
  }

  lemma KahnStart(succ: Lists, queue: seq<nat>, indegree: seq<nat>, level: seq<nat>)
    requires Counted(succ, indegree) && Rises(succ) && |level| == |succ| && forall t :: 0 <= t < |level| ==>
               level[t] == 0
    requires NoDup(queue) && forall t: nat :: t in queue <==> t < |indegree| && indegree[t] == 0
    ensures Kahn(succ, {}, queue, indegree, level)
  {
  }

  method TellSuccessors(successors: Lists, source: nat, queue0: seq<nat>, indegree0: seq<nat>, level0: seq<nat>,
                        ghost gone: set<nat>)
    returns (queue: seq<nat>, indegree: seq<nat>, level: seq<nat>)
    requires KahnLoop(successors, gone, source, 0, queue0, indegree0, level0)
    ensures Kahn(successors, gone + {source}, queue, indegree, level)
  {
    queue, indegree, level := queue0, indegree0, level0;
    var k := 0;
    while k < |successors[source]|
      invariant 0 <= k <= |successors[source]| && KahnLoop(successors, gone, source, k, queue, indegree, level)
    {
      var target := successors[source][k];
      KahnTell(successors, gone, source, k, queue, indegree, level);
      level := Told(level, source, target);
      indegree := indegree[target := indegree[target] - 1];
      if indegree[target] == 0 {
        queue := queue + [target];
      }
      k := k + 1;
    }
    KahnDone(successors, gone, source, queue, indegree, level);
  }

  // ----- levels of nodes -----

  /** What the levels mean: equal within a strongly connected component, climbing along every other
      arrow, and no higher than some arrow makes them. */
  ghost predicate NodeLeveled(r: Rel, comp: set<nat>, level: seq<nat>) {
    && (forall u :: u in comp ==> u < |level|)
    && (forall u: nat, v: nat {:trigger Same(r, u, v)} :: u in comp && v in comp && Same(r, u, v) ==>
          level[u] == level[v])
    && (forall u: nat, v: nat {:trigger (u, v) in r} :: (u, v) in r && u in comp && v in comp && !Same(r, u, v) ==>
          level[u] < level[v])
    && (forall v: nat {:trigger Propped(r, comp, level, v)} :: v in comp ==> Propped(r, comp, level, v))
  }

  /** A node above the ground has an arrow into its component from exactly one level below. */
  ghost predicate Propped(r: Rel, comp: set<nat>, level: seq<nat>, v: nat) {
    v < |level| && (level[v] > 0 ==> exists u: nat, w: nat :: StepUp(r, comp, level, v, u, w))
  }

  ghost predicate StepUp(r: Rel, comp: set<nat>, level: seq<nat>, v: nat, u: nat, w: nat) {
    && u in comp && w in comp && u < |level| && v < |level|
    && (u, w) in r && Same(r, w, v) && !Same(r, u, w) && level[v] == level[u] + 1
  }

  /** How often a path passes from one strongly connected component to another. */
  ghost function Changes(r: Rel, p: seq<nat>): nat {
    if |p| <= 1 then 0
    else Changes(r, p[..|p| - 1]) + if Same(r, p[|p| - 2], p[|p| - 1]) then 0 else 1
  }

  lemma {:induction false} PathClimbs(r: Rel, comp: set<nat>, level: seq<nat>, p: seq<nat>)
    requires NodeLeveled(r, comp, level) && IsPath(r, p) && forall i :: 0 <= i < |p| ==> p[i] in comp
    ensures Changes(r, p) <= level[p[|p| - 1]]
    decreases |p|
  {
    if |p| > 1 {
      var k := |p| - 1;
      PathClimbs(r, comp, level, p[..k]);
      assert (p[k - 1], p[k]) in r;
      assert p[..k][k - 1] == p[k - 1];
    }
  }

  lemma {:induction false} PathInside(r: Rel, a: seq<nat>, q: seq<nat>, v: nat)
    requires a != [] && IsPath(r, q) && a[|a| - 1] == q[0] && q[|q| - 1] == v && Same(r, q[0], v)
    ensures Changes(r, a + q[1..]) == Changes(r, a)
    decreases |q|
  {
    if |q| == 1 {
      assert a + q[1..] == a;
    } else {
      var k := |q| - 1;
      InsideSame(r, q, k - 1);
      InsideSame(r, q, k);
      SameTrans(r, q[0], v, q[0]);
      assert Same(r, q[k - 1], q[k]) by {
        SameTrans(r, q[0], q[k - 1], q[0]);
        SameTrans(r, q[k - 1], q[0], q[k]);
      }
      PathInside(r, a, q[..k], q[k - 1]);
      var s := a + q[1..];
      assert s[..|s| - 1] == a + q[..k][1..];
      assert s[|s| - 1] == q[k] && s[|s| - 2] == q[k - 1];
    }
  }

  /** A path that returns to its component never leaves it. */
  lemma InsideSame(r: Rel, q: seq<nat>, j: nat)
    requires IsPath(r, q) && j < |q| && Same(r, q[0], q[|q| - 1])
    ensures Same(r, q[0], q[j])
  {
    assert PathFrom(r, q[..j + 1], q[0], q[j]);
    assert PathFrom(r, q[j..], q[j], q[|q| - 1]);
    ReachTrans(r, q[j], q[|q| - 1], q[0]);
  }

  lemma {:induction false} PathAttains(r: Rel, comp: set<nat>, level: seq<nat>, v: nat) returns (p: seq<nat>)
    requires NodeLeveled(r, comp, level) && v in comp
    ensures IsPath(r, p) && p[|p| - 1] == v && Changes(r, p) == level[v]
    decreases level[v]
  {
    if level[v] == 0 {
      p := [v];
    } else {
      assert Propped(r, comp, level, v);
      var u: nat, w: nat :| StepUp(r, comp, level, v, u, w);
      var a := PathAttains(r, comp, level, u);
      p := OneMoreChange(r, a, u, w, v);
    }
  }

  /** A path prolonged by an arrow into another component and on inside that component. */
  lemma OneMoreChange(r: Rel, a: seq<nat>, u: nat, w: nat, v: nat) returns (p: seq<nat>)
    requires IsPath(r, a) && a[|a| - 1] == u && (u, w) in r && !Same(r, u, w) && Same(r, w, v)
    ensures IsPath(r, p) && p[|p| - 1] == v && Changes(r, p) == Changes(r, a) + 1
  {
    var b := a + [w];
    assert b[..|b| - 1] == a;
    forall i | 0 <= i < |b| - 1 ensures (b[i], b[i + 1]) in r {
      assert i < |a| - 1 ==> (a[i], a[i + 1]) in r;
    }
    var q :| PathFrom(r, q, w, v);
    PathInside(r, b, q, v);
    PathJoin(r, b, q, b[0], w, v);
    p := b + q[1..];
  }

  /** The level of a node is the greatest number of component changes on a path to it. */
  lemma LevelIsLongest(r: Rel, comp: set<nat>, level: seq<nat>, v: nat)
    requires NodeLeveled(r, comp, level) && v in comp && forall x: nat, y: nat :: (x, y) in r ==> x in comp && y in comp
    ensures exists p :: IsPath(r, p) && p[|p| - 1] == v && Changes(r, p) == level[v]
    ensures forall p :: IsPath(r, p) && p[|p| - 1] == v ==> Changes(r, p) <= level[v]
  {
    var q := PathAttains(r, comp, level, v);
    forall p | IsPath(r, p) && p[|p| - 1] == v ensures Changes(r, p) <= level[v] {
      forall i | 0 <= i < |p| ensures p[i] in comp {
        if i < |p| - 1 {
          assert (p[i], p[i + 1]) in r;
        }
      }
      PathClimbs(r, comp, level, p);
    }
  }

  lemma NodesLeveled(r: Rel, comp: set<nat>, order: seq<nat>, sccs: Lists, ids: Ids, succ: Lists, sccLevel: seq<nat>,
                     level: seq<nat>)
    requires Sorted(r, comp, order, 0, sccs, ids) && ids.Keys == comp && |succ| == |sccs| == |sccLevel|
    requires Condenses(r, ids, succ) && Leveled(succ, sccLevel)
    requires forall x: nat :: x in comp ==> x < |level| && level[x] == sccLevel[ids[x]]
    requires forall x: nat, y: nat :: (x, y) in r ==> x in comp && y in comp
    ensures NodeLeveled(r, comp, level)
  {
    forall u: nat, v: nat | (u, v) in r && u in comp && v in comp && !Same(r, u, v) ensures level[u] < level[v] {
      assert CrossedBy(r, ids, ids[u], ids[v], u, v) && ids[u] != ids[v];
      assert Crosses(r, ids, ids[u], ids[v]);
      assert Raised(succ, sccLevel, ids[u], ids[v]);
    }
    forall u: nat, v: nat | u in comp && v in comp && Same(r, u, v) ensures level[u] == level[v] {
    }
    forall v: nat | v in comp ensures Propped(r, comp, level, v) {
      if level[v] > 0 {
        var t := ids[v];
        assert Explained(succ, sccLevel, Below(|succ|), t);
        var a: nat :| a in Below(|succ|) && ExplainedBy(succ, sccLevel, t, a);
        assert Crosses(r, ids, a, t);
        var x: nat, y: nat :| CrossedBy(r, ids, a, t, x, y);
        assert Same(r, y, v) by {
          assert HasId(ids, v, ids[y]);
        }
        assert StepUp(r, comp, level, v, x, y);
      }
    }
  }

  ghost predicate Within(component: seq<nat>, n: nat) {
    forall i :: 0 <= i < |component| ==> component[i] < n
  }

  /** `layer` is what the first `n` of the component hold at the positions `at`: those of level `l`,
      ascending. */
  ghost predicate LaidOut(component: seq<nat>, n: nat, level: seq<nat>, l: nat, layer: seq<nat>, at: seq<nat>)
    requires Within(component, |level|)
  {
    && n <= |component| && |at| == |layer| && Upward(at)
    && (forall k {:trigger at[k]} :: 0 <= k < |at| ==>
          at[k] < n && layer[k] == component[at[k]] && level[component[at[k]]] == l)
    && forall i: nat {:trigger component[i]} :: i < n && level[component[i]] == l ==> i in at
  }

  /** The nodes of level `l` among the first `n`, in the order of the component. */
  ghost predicate IsLayer(component: seq<nat>, n: nat, level: seq<nat>, l: nat, layer: seq<nat>)
    requires Within(component, |level|)
  {
    exists at: seq<nat> :: LaidOut(component, n, level, l, layer, at)
  }

  lemma LayerNext(component: seq<nat>, n: nat, level: seq<nat>, l: nat, layer: seq<nat>)
    requires Within(component, |level|) && n < |component| && IsLayer(component, n, level, l, layer)
    ensures IsLayer(component, n + 1, level, l, if level[component[n]] == l then layer + [component[n]] else layer)
  {
    var at: seq<nat> :| LaidOut(component, n, level, l, layer, at);
    if level[component[n]] == l {
      var at', layer' := at + [n], layer + [component[n]];
      forall i: nat | i < n + 1 && level[component[i]] == l ensures i in at' {
        assert i == n ==> at'[|at|] == n;
      }
      assert LaidOut(component, n + 1, level, l, layer', at');
    } else {
      assert LaidOut(component, n + 1, level, l, layer, at);
    }
  }

  /** A layer holds just the nodes of its level, each once. */
  lemma LayerMembers(component: seq<nat>, level: seq<nat>, l: nat, layer: seq<nat>)
    requires Within(component, |level|) && IsLayer(component, |component|, level, l, layer)
    ensures forall x: nat :: x in layer <==> x in component && level[x] == l
    ensures NoDup(component) ==> NoDup(layer)
  {
    var at: seq<nat> :| LaidOut(component, |component|, level, l, layer, at);
    forall x: nat | x in layer ensures x in component && level[x] == l {
      var k :| 0 <= k < |layer| && layer[k] == x;
      assert component[at[k]] == x;
    }
    forall x: nat | x in component && level[x] == l ensures x in layer {
      var i :| 0 <= i < |component| && component[i] == x;
      var k :| 0 <= k < |at| && at[k] == i;
      assert layer[k] == x;
    }
    forall a, b | 0 <= a < b < |layer| && NoDup(component) ensures layer[a] != layer[b] {
      assert at[a] < at[b] < |component|;
    }
  }

  /** Nothing but the level and the order of the component decides what a layer is. */
  lemma LayerUnique(component: seq<nat>, level: seq<nat>, l: nat, a: seq<nat>, b: seq<nat>)
    requires Within(component, |level|)
    requires IsLayer(component, |component|, level, l, a) && IsLayer(component, |component|, level, l, b)
    ensures a == b
  {
    var p: seq<nat> :| LaidOut(component, |component|, level, l, a, p);
    var q: seq<nat> :| LaidOut(component, |component|, level, l, b, q);
    forall i: nat ensures i in p <==> i in q {
      if i in p {
        var k :| 0 <= k < |p| && p[k] == i;
        assert component[p[k]] == a[k];
      }
      if i in q {
        var k :| 0 <= k < |q| && q[k] == i;
        assert component[q[k]] == b[k];
      }
    }
    SameUpward(p, q);
    forall k | 0 <= k < |a| ensures a[k] == b[k] {
      assert component[p[k]] == a[k] && component[q[k]] == b[k];
    }
  }

  /** `levels_from_assignment`. */
  method LevelsFromAssignment(component: seq<nat>, level: seq<nat>) returns (layers: Lists)
    requires Within(component, |level|)
    ensures |layers| > 0 && forall i :: 0 <= i < |component| ==> level[component[i]] < |layers|
    ensures forall l: nat :: l < |layers| ==> IsLayer(component, |component|, level, l, layers[l])
    ensures component != [] ==> layers[|layers| - 1] != []
  {
    var top := 0;
    ghost var highest := 0;
    for i := 0 to |component|
      invariant forall k :: 0 <= k < i ==> level[component[k]] <= top
      invariant if i == 0 then top == 0 else 0 <= highest < i && level[component[highest]] == top
    {
      if level[component[i]] > top || i == 0 {
        highest := i;
      }
      if level[component[i]] > top {
        top := level[component[i]];
      }
    }
    layers := seq(top + 1, _ => []);
    assert forall l: nat :: l < |layers| ==> LaidOut(component, 0, level, l, layers[l], []);
    for i := 0 to |component|
      invariant |layers| == top + 1
      invariant forall l: nat :: l < |layers| ==> IsLayer(component, i, level, l, layers[l])
    {
      var node := component[i];
      forall l: nat | l < |layers|
        ensures IsLayer(component, i + 1, level, l, if level[node] == l then layers[l] + [node] else layers[l])
      {
        LayerNext(component, i, level, l, layers[l]);
      }
      layers := layers[level[node] := layers[level[node]] + [node]];
    }
    if component != [] {
      LayerMembers(component, level, top, layers[top]);
      assert component[highest] in layers[top];
    }
  }

  /** `at[k]` is where the k-th group stands among the components. */
  ghost predicate Picks(sccs: Lists, n: nat, groups: Lists, at: seq<nat>) {
    && n <= |sccs| && |at| == |groups| && Upward(at)
    && (forall k {:trigger at[k]} :: 0 <= k < |at| ==> at[k] < n && groups[k] == sccs[at[k]] && |groups[k]| > 1)
    && forall i: nat {:trigger sccs[i]} :: i < n && |sccs[i]| > 1 ==> i in at
  }

  /** The strongly connected components of more than one node, in their order. */
  method CyclicGroups(sccs: Lists) returns (groups: Lists)
    ensures exists at: seq<nat> :: Picks(sccs, |sccs|, groups, at)
  {
    groups := [];
    ghost var at: seq<nat> := [];
    for i := 0 to |sccs|
      invariant Picks(sccs, i, groups, at)
    {
      PicksNext(sccs, i, groups, at);
      if |sccs[i]| > 1 {
        groups, at := groups + [sccs[i]], at + [i];
      }
    }
  }

  lemma PicksNext(sccs: Lists, n: nat, groups: Lists, at: seq<nat>)
    requires Picks(sccs, n, groups, at) && n < |sccs|
    ensures if |sccs[n]| > 1 then Picks(sccs, n + 1, groups + [sccs[n]], at + [n]) else Picks(sccs, n + 1, groups, at)
  {
    if |sccs[n]| > 1 {
      var at', groups' := at + [n], groups + [sccs[n]];
      assert at'[|at|] == n;
      forall i: nat | i < n + 1 && |sccs[i]| > 1 ensures i in at' {
        if i < n {
          var k :| 0 <= k < |at| && at[k] == i;
          assert at'[k] == i;
        }
      }
      forall k | 0 <= k < |at'| ensures at'[k] < n + 1 && groups'[k] == sccs[at'[k]] && |groups'[k]| > 1 {
        assert k < |at| ==> at'[k] == at[k] && groups'[k] == groups[k];
      }
      assert Upward(at');
    }
  }

  method SpreadLevels(nodeCount: nat, sccs: Lists, sccLevel: seq<nat>, ghost comp: set<nat>, ghost ids: Ids)
    returns (level: seq<nat>)
    requires Grouped(comp, sccs, ids) && |sccLevel| == |sccs| && forall x :: x in ids ==> x < nodeCount
    ensures |level| == nodeCount && forall x: nat :: x in ids ==> level[x] == sccLevel[ids[x]]
  {
    level := seq(nodeCount, _ => 0);
    for k := 0 to |sccs|
      invariant |level| == nodeCount
      invariant forall x: nat :: x in ids && ids[x] < k ==> level[x] == sccLevel[ids[x]]
    {
      for i := 0 to |sccs[k]|
        invariant |level| == nodeCount
        invariant forall x: nat :: x in ids && ids[x] < k ==> level[x] == sccLevel[ids[x]]
        invariant forall j :: 0 <= j < i ==> sccs[k][j] < nodeCount && level[sccs[k][j]] == sccLevel[k]
      {
        var node := sccs[k][i];
        assert HasId(ids, node, k) by {
          assert node in sccs[k];
        }
        level := level[node := sccLevel[k]];
      }
      forall x: nat | x in ids && ids[x] == k ensures level[x] == sccLevel[k] {
        assert HasId(ids, x, k);
      }
    }
  }

  /** `directed_layers`: layers by level, and the groups drawn as cycles. */
  method DirectedLayers(component: seq<nat>, nodeCount: nat, edges: seq<RenderEdge>)
    returns (layers: Lists, cyclicGroups: Lists, ghost level: seq<nat>)
    requires forall k :: 0 <= k < |edges| ==> edges[k].from < nodeCount && edges[k].to < nodeCount
    requires Within(component, nodeCount)
    ensures |level| == nodeCount && NodeLeveled(Arrows(edges, Elems(component)), Elems(component), level)
    ensures forall i :: 0 <= i < |component| ==> level[component[i]] < |layers|
    ensures forall l: nat :: l < |layers| ==> IsLayer(component, |component|, level, l, layers[l])
    ensures |layers| > 0 && (component != [] ==> layers[|layers| - 1] != [])
    ensures CyclesGrouped(Arrows(edges, Elems(component)), Elems(component), cyclicGroups)
    ensures LatestFirst(Explore(AllHeads(edges, nodeCount), Elems(component), component, {}).left, cyclicGroups)
  {
    ghost var r := Arrows(edges, Elems(component));
    var outgoing, incoming := BuildAdjacency(edges, nodeCount);
    var allowed := set x | x in component;
    assert allowed == Elems(component);
    assert Reads(r, allowed, outgoing) && ReadsBack(r, allowed, incoming);
    var order := FinishOrder(component, outgoing, r);
    var sccs, componentOf := Components(order, incoming, allowed, r);
    var successors, indegree := Condense(edges, allowed, componentOf, |sccs|);
    assert edges[..|edges|] == edges;
    CondensedRises(r, allowed, order, sccs, componentOf, successors);
    var sccLevel := Levels(successors, indegree);
    var nodeLevel := SpreadLevels(nodeCount, sccs, sccLevel, allowed, componentOf);
    NodesLeveled(r, allowed, order, sccs, componentOf, successors, sccLevel, nodeLevel);
    level := nodeLevel;
    cyclicGroups := CyclicGroups(sccs);
    ghost var at: seq<nat> :| Picks(sccs, |sccs|, cyclicGroups, at);
    GroupsAreCycles(r, allowed, order, sccs, componentOf, cyclicGroups, at);
    PickedLatestFirst(order, sccs, cyclicGroups, at);
    layers := LevelsFromAssignment(component, nodeLevel);
  }

  lemma PickedLatestFirst(order: seq<nat>, sccs: Lists, groups: Lists, at: seq<nat>)
    requires LatestFirst(order, sccs) && Picks(sccs, |sccs|, groups, at)
    ensures LatestFirst(order, groups)
  {
    forall j: nat, k: nat | j < k < |groups| ensures PairBehind(order, groups, j, k) {
      assert groups[j] == sccs[at[j]] && groups[k] == sccs[at[k]];
      assert PairBehind(order, sccs, at[j], at[k]);
    }
  }

  lemma CondensedRises(r: Rel, comp: set<nat>, order: seq<nat>, sccs: Lists, ids: Ids, succ: Lists)
    requires Sorted(r, comp, order, 0, sccs, ids) && Condenses(r, ids, succ)
    ensures Rises(succ)
  {
    forall a, b | 0 <= a < |succ| && b in succ[a] ensures a < b < |succ| {
      assert Crosses(r, ids, a, b);
      var x: nat, y: nat :| CrossedBy(r, ids, a, b, x, y);
    }
  }

  /** The groups are just the strongly connected components of two nodes or more, each once; no path
      leads from a group back to an earlier one. */
  ghost predicate CyclesGrouped(r: Rel, comp: set<nat>, groups: Lists) {
    && (forall i, x {:trigger InGroup(groups, i, x)} :: InGroup(groups, i, x) ==> x in comp)
    && (forall i, x, y {:trigger InGroup(groups, i, x), Same(r, x, y)} ::
          InGroup(groups, i, x) && y in comp ==> (InGroup(groups, i, y) <==> Same(r, x, y)))
    && (forall x: nat, y: nat {:trigger Same(r, x, y)} ::
          x in comp && y in comp && x != y && Same(r, x, y) ==> IsGrouped(groups, x))
    && (forall i :: 0 <= i < |groups| ==> Upward(groups[i]) && |groups[i]| > 1)
    && forall i, j, x, y {:trigger InGroup(groups, i, x), InGroup(groups, j, y)} ::
         i < j && InGroup(groups, i, x) && InGroup(groups, j, y) ==> !Reach(r, y, x)
  }

  ghost predicate InGroup(groups: Lists, i: nat, x: nat) {
    i < |groups| && x in groups[i]
  }

  ghost predicate IsGrouped(groups: Lists, x: nat) {
    exists i :: InGroup(groups, i, x)
  }

  lemma GroupsAreCycles(r: Rel, comp: set<nat>, order: seq<nat>, sccs: Lists, ids: Ids, groups: Lists, at: seq<nat>)
    requires Sorted(r, comp, order, 0, sccs, ids) && ids.Keys == comp && Picks(sccs, |sccs|, groups, at)
    requires forall a, b :: (a, b) in r ==> b in comp
    ensures CyclesGrouped(r, comp, groups)
  {
    forall i: nat, x: nat ensures InGroup(groups, i, x) <==> i < |at| && HasId(ids, x, at[i]) {
      assert i < |at| ==> (HasId(ids, x, at[i]) <==> x in sccs[at[i]]);
    }
    forall i | 0 <= i < |groups| ensures Upward(groups[i]) && |groups[i]| > 1 {
      assert groups[i] == sccs[at[i]];
    }
    forall i: nat, x: nat, y: nat | InGroup(groups, i, x) && y in comp
      ensures InGroup(groups, i, y) <==> Same(r, x, y)
    {
      assert HasId(ids, x, at[i]) && (HasId(ids, y, at[i]) <==> InGroup(groups, i, y));
    }
    forall x: nat, y: nat | x in comp && y in comp && x != y && Same(r, x, y) ensures IsGrouped(groups, x) {
      var k := ids[x];
      assert HasId(ids, x, k) && HasId(ids, y, k);
      assert x in sccs[k] && y in sccs[k];
      TwoMembers(sccs[k], x, y);
      var i: nat :| i < |at| && at[i] == k;
      assert InGroup(groups, i, x);
    }
    forall i: nat, j: nat, x: nat, y: nat | i < j && InGroup(groups, i, x) && InGroup(groups, j, y)
      ensures !Reach(r, y, x)
    {
      assert HasId(ids, x, at[i]) && HasId(ids, y, at[j]) && at[i] < at[j];
      NoWayBack(r, comp, ids, x, y);
    }
  }

  lemma NoWayBack(r: Rel, comp: set<nat>, ids: Ids, x: nat, y: nat)
    requires Classed(r, comp, ids) && ids.Keys == comp && forall a, b :: (a, b) in r ==> b in comp
    requires x in ids && y in ids && ids[x] < ids[y]
    ensures !Reach(r, y, x)
  {
    var later := set z | z in ids && ids[y] <= ids[z];
    assert Closed(r, later);
    if Reach(r, y, x) {
      ReachStays(r, later, y, x);
    }
  }

  lemma TwoMembers(s: seq<nat>, x: nat, y: nat)
    requires x in s && y in s && x != y
    ensures |s| > 1
  {
  }
}
