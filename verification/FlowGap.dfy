/** Where the per-edge amounts of Edmonds-Karp (`src/algo/max_flow.rs`) stop being a flow: a family
    of networks with one pair of parallel edges on which every run of the iterator is forced. */
module FlowGap {
  import opened Seqs
  import opened Graphs
  import opened Flow
  import opened Residual
  import opened MaxFlow

  /** Source 0, sink 3.  The short way is 0, 1, 2, 3 with edges 1 and 2 both from 1 to 2; 0, 4, 5, 2
      leads to node 2 and 1, 6, 7, 3 from node 1. */
  function Detour(): Digraph {
    Digraph(8, [(0, 1), (1, 2), (1, 2), (2, 3), (0, 4), (4, 5), (5, 2), (1, 6), (6, 7), (7, 3)],
            [[0, 4], [1, 2, 7], [3], [], [5], [6], [8], [9]],
            [[], [0], [1, 2, 6], [3, 9], [4], [5], [7], [8]])
  }

  /** The parallel edges hold `p` and `q`, the short way as much as both, the long ways `r`. */
  function Capacities(p: nat, q: nat, r: nat): seq<nat> {
    [p + q, p, q, p + q, r, r, r, r, r, r]
  }

  function Least(a: nat, b: nat): nat {
    if a < b then a else b
  }

  lemma DetourListed(e: nat)
    requires e < 10
    ensures e in Detour().outs[Detour().ends[e].0] && e in Detour().ins[Detour().ends[e].1]
  {
    var g := Detour();
    var out, into := [0, 0, 1, 0, 1, 0, 0, 2, 0, 0], [0, 0, 1, 0, 0, 0, 2, 0, 0, 1];
    assert g.outs[g.ends[e].0][out[e]] == e;
    assert g.ins[g.ends[e].1][into[e]] == e;
  }

  lemma DetourLists(v: nat, tail: bool)
    requires v < 8
    ensures Detour().Lists(if tail then Detour().outs[v] else Detour().ins[v], v, tail)
  {
    var g := Detour();
    forall e: nat | e < 10 && g.End(e, tail) == v ensures e in if tail then g.outs[v] else g.ins[v] {
      DetourListed(e);
    }
  }

  lemma DetourValid()
    ensures Detour().Valid()
  {
    forall v | 0 <= v < 8
      ensures Detour().Lists(Detour().outs[v], v, true) && Detour().Lists(Detour().ins[v], v, false)
    {
      DetourLists(v, true);
      DetourLists(v, false);
    }
  }

  lemma FirstOfTwins()
    ensures Detour().Valid() && FirstEdge(Detour(), 1, 2, 1) && !FirstEdge(Detour(), 1, 2, 2)
  {
    DetourValid();
    var g := Detour();
    assert g.outs[1][0] == 1 && g.ends[g.outs[1][0]].1 == 2;
  }

  lemma PastEdge(g: Digraph, cap: seq<nat>, a: nat, x: nat, e: nat)
    requires g.Valid() && |cap| == |g.ends| && e < |g.ends| && cap[e] > 0
    requires (a == g.ends[e].0 && a != x) || ReachPast(g, cap, a, g.ends[e].0, x)
    requires g.ends[e].1 != x
    ensures ReachPast(g, cap, a, g.ends[e].1, x)
  {
    var (b, c) := g.ends[e];
    assert Linked(g, cap, b, c);
    ReachRefl(Around(g, cap, x), a);
    ReachStep(Around(g, cap, x), a, b, c);
  }

  lemma CrossesToTwo(cap: seq<nat>)
    requires |cap| == 10 && forall e :: 0 <= e < 10 ==> cap[e] > 0
    ensures ReachPast(Detour(), cap, 0, 1, 2) && ReachPast(Detour(), cap, 0, 2, 1)
  {
    DetourValid();
    var g := Detour();
    PastEdge(g, cap, 0, 2, 0);
    PastEdge(g, cap, 0, 1, 4);
    PastEdge(g, cap, 0, 1, 5);
    PastEdge(g, cap, 0, 1, 6);
  }

  lemma CrossesFromTwo(cap: seq<nat>)
    requires |cap| == 10 && forall e :: 0 <= e < 10 ==> cap[e] > 0
    ensures ReachPast(Detour(), cap, 2, 3, 1) && ReachPast(Detour(), cap, 1, 3, 2)
  {
    DetourValid();
    var g := Detour();
    PastEdge(g, cap, 2, 1, 3);
    PastEdge(g, cap, 1, 2, 7);
    PastEdge(g, cap, 1, 2, 8);
    PastEdge(g, cap, 1, 2, 9);
  }

  /** The edge listed first is at risk, whatever the capacities. */
  lemma TwinAtRisk(p: nat, q: nat, r: nat)
    requires p > 0 && q > 0 && r > 0
    ensures Detour().Valid() && AtRisk(Detour(), Capacities(p, q, r), 0, 3, 1)
  {
    FirstOfTwins();
    CrossesToTwo(Capacities(p, q, r));
    CrossesFromTwo(Capacities(p, q, r));
    assert Detour().ends[2] == (1, 2) && Capacities(p, q, r)[2] > 0;
  }

  // ----- while the short way has room -----

  predicate OnShortWay(u: nat, v: nat) {
    (u, v) == (0, 1) || (u, v) == (1, 2) || (u, v) == (2, 3)
  }

  function ShortResidual(p: nat, q: nat, r: nat, w: nat, x: nat): seq<nat>
    requires w <= p && x <= q
  {
    [p + q - w - x, p - w, q - x, p + q - w - x, r, r, r, r, r, r]
  }

  /** `w` and `x` have gone over the parallel edges, and nothing over the long ways. */
  ghost predicate ShortWay(p: nat, q: nat, r: nat, w: nat, x: nat, res: seq<nat>, rev: RevFlow) {
    && w <= p && x <= q && res == ShortResidual(p, q, r, w, x)
    && forall a: nat, b: nat {:trigger Rev(rev, a, b)} ::
         Rev(rev, a, b) == if OnShortWay(b, a) then w + x else 0
  }

  lemma ShortWayStep(p: nat, q: nat, r: nat, w: nat, x: nat, res: seq<nat>, rev: RevFlow, st: AugmentStep)
    requires ShortWay(p, q, r, w, x, res, rev) && Usable(Detour(), res, rev, st)
    ensures From(Detour(), st) == 0 ==> (st == Forward(0) && w + x < p + q) || st == Forward(4)
    ensures From(Detour(), st) == 1 ==>
              || (st == Forward(1) && w < p) || (st == Forward(2) && x < q)
              || st == Forward(7) || st == Reverse(1, 0)
    ensures From(Detour(), st) == 2 ==> (st == Forward(3) && w + x < p + q) || st == Reverse(2, 1)
    ensures From(Detour(), st) == 4 ==> st == Forward(5)
    ensures From(Detour(), st) == 5 ==> st == Forward(6)
    ensures From(Detour(), st) == 6 ==> st == Forward(8)
    ensures From(Detour(), st) == 7 ==> st == Forward(9)
  {
  }

  lemma StepAt(g: Digraph, res: seq<nat>, rev: RevFlow, path: seq<AugmentStep>, u: nat, v: nat, i: nat)
    requires IsAugmenting(g, res, rev, path, u, v) && i < |path|
    ensures Usable(g, res, rev, path[i])
    ensures From(g, path[i]) == if i == 0 then u else To(g, path[i - 1])
    ensures forall k: nat :: k <= i ==> From(g, path[k]) != To(g, path[i])
    ensures To(g, path[i]) != v ==> i + 1 < |path|
    ensures To(g, path[i]) == v ==> i + 1 == |path|
  {
    assert i > 0 ==> Joined(g, path, i);
    if i + 1 < |path| {
      assert Joined(g, path, i + 1);
    }
    forall k: nat | k <= i ensures From(g, path[k]) != To(g, path[i]) {
      NoReturn(g, path, u, v, k, i);
    }
  }

  function ShortPath(k: nat): seq<AugmentStep> {
    [Forward(0), Forward(k), Forward(3)]
  }

  /** No trail of three steps or fewer takes another way than the short one. */
  lemma ShortTrail(p: nat, q: nat, r: nat, w: nat, x: nat, res: seq<nat>, rev: RevFlow, path: seq<AugmentStep>)
    requires ShortWay(p, q, r, w, x, res, rev)
    requires IsAugmenting(Detour(), res, rev, path, 0, 3) && |path| <= 3
    ensures (path == ShortPath(1) && w < p) || (path == ShortPath(2) && x < q)
  {
    var g := Detour();
    StepAt(g, res, rev, path, 0, 3, 0);
    ShortWayStep(p, q, r, w, x, res, rev, path[0]);
    StepAt(g, res, rev, path, 0, 3, 1);
    ShortWayStep(p, q, r, w, x, res, rev, path[1]);
    StepAt(g, res, rev, path, 0, 3, 2);
    ShortWayStep(p, q, r, w, x, res, rev, path[2]);
  }

  lemma ShortWayOpen(p: nat, q: nat, r: nat, w: nat, x: nat, res: seq<nat>, rev: RevFlow, k: nat)
    requires ShortWay(p, q, r, w, x, res, rev) && ((k == 1 && w < p) || (k == 2 && x < q))
    ensures IsAugmenting(Detour(), res, rev, ShortPath(k), 0, 3)
  {
    var path := ShortPath(k);
    assert Joined(Detour(), path, 1) && Joined(Detour(), path, 2);
  }

  /** The next augmentation fills one of the parallel edges. */
  lemma ShortWayNext(p: nat, q: nat, r: nat, w: nat, x: nat, res: seq<nat>, rev: RevFlow,
                     path: seq<AugmentStep>, d: nat, res': seq<nat>, rev': RevFlow)
    requires ShortWay(p, q, r, w, x, res, rev) && (w < p || x < q)
    requires IsShortest(Detour(), res, rev, path, 0, 3) && IsBottleneck(Detour(), res, rev, path, d)
    requires Augmented(Detour(), path, d, res, rev, res', rev')
    ensures (w < p && d == p - w && ShortWay(p, q, r, p, x, res', rev')) ||
            (x < q && d == q - x && ShortWay(p, q, r, w, q, res', rev'))
  {
    ShortWayOpen(p, q, r, w, x, res, rev, if w < p then 1 else 2);
    ShortTrail(p, q, r, w, x, res, rev, path);
    var k := path[1].edge;
    assert path == ShortPath(k) && d == res[k];
    ShortWayPushed(p, q, r, w, x, res, rev, k, res', rev');
  }

  lemma ShortWayPushed(p: nat, q: nat, r: nat, w: nat, x: nat, res: seq<nat>, rev: RevFlow, k: nat,
                       res': seq<nat>, rev': RevFlow)
    requires ShortWay(p, q, r, w, x, res, rev) && (k == 1 || k == 2)
    requires Augmented(Detour(), ShortPath(k), res[k], res, rev, res', rev')
    ensures ShortWay(p, q, r, if k == 1 then p else w, if k == 2 then q else x, res', rev')
  {
    var w', x' := if k == 1 then p else w, if k == 2 then q else x;
    forall e: nat | e < 10 ensures res'[e] == ShortResidual(p, q, r, w', x')[e] {
      assert res'[e] == Residue(Detour(), ShortPath(k), res[k], e, res[e]);
      ShortPathHas(k, e);
    }
    assert res' == ShortResidual(p, q, r, w', x');
    forall a: nat, b: nat ensures Rev(rev', a, b) == if OnShortWay(b, a) then w' + x' else 0 {
      assert Rev(rev', a, b) == Recorded(Detour(), ShortPath(k), res[k], a, b, Rev(rev, a, b));
      ShortPathSends(k, b, a);
    }
  }

  lemma ShortPathHas(k: nat, e: nat)
    ensures Forward(e) in ShortPath(k) <==> e == 0 || e == k || e == 3
    ensures forall a, b :: Reverse(a, b) !in ShortPath(k)
  {
    var path := ShortPath(k);
    assert path[0] == Forward(0) && path[1] == Forward(k) && path[2] == Forward(3);
  }

  lemma ShortPathSends(k: nat, u: nat, v: nat)
    requires k == 1 || k == 2
    ensures Sent(Detour(), ShortPath(k), u, v) <==> OnShortWay(u, v)
  {
    var path := ShortPath(k);
    assert path[0] == Forward(0) && path[1] == Forward(k) && path[2] == Forward(3);
  }

  // ----- once it is full -----

  /** Out to node 2, back over the parallel edges, and on from node 1. */
  function LongPath(): seq<AugmentStep> {
    [Forward(4), Forward(5), Forward(6), Reverse(2, 1), Forward(7), Forward(8), Forward(9)]
  }

  predicate OnLongWay(u: nat, v: nat) {
    || (u, v) == (0, 4) || (u, v) == (4, 5) || (u, v) == (5, 2)
    || (u, v) == (1, 6) || (u, v) == (6, 7) || (u, v) == (7, 3)
  }

  lemma LongTrail(p: nat, q: nat, r: nat, res: seq<nat>, rev: RevFlow, path: seq<AugmentStep>)
    requires ShortWay(p, q, r, p, q, res, rev) && IsAugmenting(Detour(), res, rev, path, 0, 3)
    ensures path == LongPath()
  {
    var g := Detour();
    StepAt(g, res, rev, path, 0, 3, 0);
    ShortWayStep(p, q, r, p, q, res, rev, path[0]);
    StepAt(g, res, rev, path, 0, 3, 1);
    ShortWayStep(p, q, r, p, q, res, rev, path[1]);
    StepAt(g, res, rev, path, 0, 3, 2);
    ShortWayStep(p, q, r, p, q, res, rev, path[2]);
    StepAt(g, res, rev, path, 0, 3, 3);
    ShortWayStep(p, q, r, p, q, res, rev, path[3]);
    assert path[..4] == LongPath()[..4];
    LongTrailEnd(p, q, r, res, rev, path);
  }

  lemma LongTrailEnd(p: nat, q: nat, r: nat, res: seq<nat>, rev: RevFlow, path: seq<AugmentStep>)
    requires ShortWay(p, q, r, p, q, res, rev) && IsAugmenting(Detour(), res, rev, path, 0, 3)
    requires |path| > 4 && path[..4] == LongPath()[..4]
    ensures path == LongPath()
  {
    var g := Detour();
    assert path[3] == path[..4][3] && path[0] == path[..4][0];
    StepAt(g, res, rev, path, 0, 3, 4);
    ShortWayStep(p, q, r, p, q, res, rev, path[4]);
    StepAt(g, res, rev, path, 0, 3, 5);
    ShortWayStep(p, q, r, p, q, res, rev, path[5]);
    StepAt(g, res, rev, path, 0, 3, 6);
    ShortWayStep(p, q, r, p, q, res, rev, path[6]);
    assert path[4..] == LongPath()[4..];
    assert path == path[..4] + path[4..];
  }

  lemma LongWayOpen(p: nat, q: nat, r: nat, res: seq<nat>, rev: RevFlow)
    requires ShortWay(p, q, r, p, q, res, rev) && p > 0 && r > 0
    ensures IsAugmenting(Detour(), res, rev, LongPath(), 0, 3)
  {
    var g, path := Detour(), LongPath();
    assert g.ends[1] == (1, 2);
    forall i: nat | i < 7
      ensures Usable(g, res, rev, path[i])
      ensures From(g, path[i]) == [0, 4, 5, 2, 1, 6, 7][i] && To(g, path[i]) == [4, 5, 2, 1, 6, 7, 3][i]
    {
    }
    LongWayTrail();
  }

  /** Steps through distinct nodes make a trail. */
  lemma TrailOfNodes(g: Digraph, path: seq<AugmentStep>, nodes: seq<nat>)
    requires |nodes| == |path| + 1 && NoDup(nodes)
    requires forall i: nat {:trigger path[i]} ::
               i < |path| ==> IsStep(g, path[i]) && From(g, path[i]) == nodes[i] && To(g, path[i]) == nodes[i + 1]
    ensures IsTrail(g, path, nodes[0], nodes[|path|])
  {
    forall i: nat | 0 < i < |path| ensures Joined(g, path, i) {
      assert path[i - 1] in path;
    }
  }

  lemma LongWayTrail()
    ensures IsTrail(Detour(), LongPath(), 0, 3)
  {
    var g, path, nodes := Detour(), LongPath(), [0, 4, 5, 2, 1, 6, 7, 3];
    assert path[0] == Forward(4) && path[1] == Forward(5) && path[2] == Forward(6) && path[3] == Reverse(2, 1);
    assert path[4] == Forward(7) && path[5] == Forward(8) && path[6] == Forward(9);
    assert g.ends[1] == (1, 2);
    TrailOfNodes(g, path, nodes);
  }

  /** The amounts after the detour: what it took back is credited to edge 1. */
  function LongResidual(r: nat, d: nat): seq<nat>
    requires d <= r
  {
    [0, d, 0, 0, r - d, r - d, r - d, r - d, r - d, r - d]
  }

  function LongRecord(p: nat, q: nat, d: nat, a: nat, b: nat): int {
    if OnLongWay(b, a) then d else if (a, b) == (2, 1) then p + q - d else if OnShortWay(b, a) then p + q else 0
  }

  ghost predicate LongWay(p: nat, q: nat, r: nat, d: nat, res: seq<nat>, rev: RevFlow) {
    && d <= r && d <= p + q && res == LongResidual(r, d)
    && forall a: nat, b: nat {:trigger Rev(rev, a, b)} ::
         Rev(rev, a, b) == LongRecord(p, q, d, a, b)
  }

  lemma LongPathHas(st: AugmentStep)
    ensures st in LongPath() <==>
            || st == Forward(4) || st == Forward(5) || st == Forward(6) || st == Reverse(2, 1)
            || st == Forward(7) || st == Forward(8) || st == Forward(9)
  {
    var path := LongPath();
    assert path[0] == Forward(4) && path[1] == Forward(5) && path[2] == Forward(6) && path[3] == Reverse(2, 1);
    assert path[4] == Forward(7) && path[5] == Forward(8) && path[6] == Forward(9);
  }

  lemma LongPathSends(u: nat, v: nat)
    ensures Sent(Detour(), LongPath(), u, v) <==> OnLongWay(u, v)
  {
    var path := LongPath();
    assert path[0] == Forward(4) && path[1] == Forward(5) && path[2] == Forward(6) && path[3] == Reverse(2, 1);
    assert path[4] == Forward(7) && path[5] == Forward(8) && path[6] == Forward(9);
  }

  lemma LongBottleneck(p: nat, q: nat, r: nat, res: seq<nat>, rev: RevFlow, d: nat)
    requires ShortWay(p, q, r, p, q, res, rev) && IsBottleneck(Detour(), res, rev, LongPath(), d)
    ensures d == Least(r, p + q)
  {
    var path := LongPath();
    assert Room(res, rev, path[0]) == r;
    assert Room(res, rev, path[3]) == p + q;
  }

  /** The next augmentation goes over the detour. */
  lemma LongWayNext(p: nat, q: nat, r: nat, res: seq<nat>, rev: RevFlow, d: nat, res': seq<nat>, rev': RevFlow)
    requires ShortWay(p, q, r, p, q, res, rev) && d <= r && d <= p + q
    requires Augmented(Detour(), LongPath(), d, res, rev, res', rev')
    ensures LongWay(p, q, r, d, res', rev')
  {
    forall e: nat | e < 10 ensures res'[e] == LongResidual(r, d)[e] {
      assert res'[e] == Residue(Detour(), LongPath(), d, e, res[e]);
      LongPathResidue(d, e, res[e]);
    }
    assert res' == LongResidual(r, d);
    forall a: nat, b: nat ensures Rev(rev', a, b) == LongRecord(p, q, d, a, b) {
      assert Rev(rev', a, b) == Recorded(Detour(), LongPath(), d, a, b, Rev(rev, a, b));
      LongPathSends(b, a);
      LongPathHas(Reverse(a, b));
    }
  }

  lemma LongPathResidue(d: nat, e: nat, x: nat)
    requires e < 10
    ensures Detour().Valid()
    ensures Residue(Detour(), LongPath(), d, e, x) == if e >= 4 then x - d else if e == 1 then x + d else x
  {
    FirstOfTwins();
    LongPathHas(Forward(e));
    LongPathHas(Reverse(Detour().ends[e].1, Detour().ends[e].0));
  }

  lemma LongWayStep(p: nat, q: nat, r: nat, res: seq<nat>, rev: RevFlow, st: AugmentStep)
    requires LongWay(p, q, r, Least(r, p + q), res, rev) && Usable(Detour(), res, rev, st)
    ensures From(Detour(), st) == 0 ==> st == Forward(4) && p + q < r
    ensures From(Detour(), st) == 4 ==> st == Forward(5) || st == Reverse(4, 0)
    ensures From(Detour(), st) == 5 ==> st == Forward(6) || st == Reverse(5, 4)
    ensures From(Detour(), st) == 2 ==> st == Reverse(2, 5) || (st == Reverse(2, 1) && r < p + q)
  {
  }

  /** After the detour nothing fits any more. */
  lemma LongWaySpent(p: nat, q: nat, r: nat, res: seq<nat>, rev: RevFlow, path: seq<AugmentStep>)
    requires LongWay(p, q, r, Least(r, p + q), res, rev)
    ensures !IsAugmenting(Detour(), res, rev, path, 0, 3)
  {
    var g := Detour();
    if IsAugmenting(g, res, rev, path, 0, 3) {
      StepAt(g, res, rev, path, 0, 3, 0);
      LongWayStep(p, q, r, res, rev, path[0]);
      StepAt(g, res, rev, path, 0, 3, 1);
      LongWayStep(p, q, r, res, rev, path[1]);
      StepAt(g, res, rev, path, 0, 3, 2);
      LongWayStep(p, q, r, res, rev, path[2]);
      StepAt(g, res, rev, path, 0, 3, 3);
      LongWayStep(p, q, r, res, rev, path[3]);
    }
  }

  // ----- the run -----

  function Reported(p: nat, q: nat, d: nat): seq<int> {
    [p + q, p - d, q, p + q, d, d, d, d, d, d]
  }

  lemma ReportedIs(p: nat, q: nat, r: nat, d: nat)
    requires d <= r
    ensures Used(Capacities(p, q, r), LongResidual(r, d)) == Reported(p, q, d)
    ensures (forall e: nat :: e < 10 ==> Reported(p, q, d)[e] >= 0) <==> d <= p
  {
    var cap, res, h := Capacities(p, q, r), LongResidual(r, d), Reported(p, q, d);
    forall e: nat | e < 10 ensures h[e] == (cap[e] as int) - (res[e] as int) {
    }
    assert h[1] == p - d;
  }

  /** On these networks the iterator ends with the right value, takes from edge 1 all that the
      detour gave back, and so reports a flow if and only if the detour fits edge 1 alone. */
  method RunDetour(p: nat, q: nat, r: nat) returns (total: nat, flows: seq<int>)
    requires p > 0 && q > 0 && r > 0
    ensures IsNetwork(Detour(), Capacities(p, q, r), 0, 3)
    ensures IsMaximum(Detour(), Capacities(p, q, r), 0, 3, total)
    ensures total == p + q + Least(r, p + q) && flows == Reported(p, q, Least(r, p + q))
    ensures IsFlow(Detour(), Capacities(p, q, r), 0, 3, flows) <==> r <= p
  {
    DetourValid();
    var run := new EdmondsKarpFlows(Detour(), Capacities(p, q, r), 0, 3);
    assert ShortWay(p, q, r, 0, 0, run.residual, run.reverseFlow);
    FillShortWay(run, p, q, r);
    TakeDetour(run, p, q, r);
    total, flows := run.Finish();
    ReportedIs(p, q, r, Least(r, p + q));
  }

  /** Two augmentations fill the parallel edges, in either order. */
  method FillShortWay(run: EdmondsKarpFlows, ghost p: nat, ghost q: nat, ghost r: nat)
    requires run.Valid() && run.graph == Detour() && run.source == 0 && run.sink == 3 && p > 0 && q > 0
    requires ShortWay(p, q, r, 0, 0, run.residual, run.reverseFlow) && run.totalFlow == 0 && !run.done
    modifies run
    ensures run.Valid() && ShortWay(p, q, r, p, q, run.residual, run.reverseFlow)
    ensures run.totalFlow == p + q && !run.done
  {
    ghost var w, x := FillOne(run, p, q, r, 0, 0);
    w, x := FillOne(run, p, q, r, w, x);
  }

  method FillOne(run: EdmondsKarpFlows, ghost p: nat, ghost q: nat, ghost r: nat, ghost w: nat, ghost x: nat)
    returns (ghost w': nat, ghost x': nat)
    requires run.Valid() && run.graph == Detour() && run.source == 0 && run.sink == 3 && (w < p || x < q)
    requires ShortWay(p, q, r, w, x, run.residual, run.reverseFlow) && run.totalFlow == w + x && !run.done
    modifies run
    ensures run.Valid() && ShortWay(p, q, r, w', x', run.residual, run.reverseFlow)
    ensures run.totalFlow == w' + x' && !run.done
    ensures (w < p && w' == p && x' == x) || (x < q && w' == w && x' == q)
  {
    ghost var res, rev := run.residual, run.reverseFlow;
    ShortWayOpen(p, q, r, w, x, res, rev, if w < p then 1 else 2);
    ghost var path;
    var step;
    step, path := run.Next();
    ShortWayNext(p, q, r, w, x, res, rev, path, step.value, run.residual, run.reverseFlow);
    if w < p && step.value == p - w && ShortWay(p, q, r, p, x, run.residual, run.reverseFlow) {
      w', x' := p, x;
    } else {
      w', x' := w, q;
    }
  }

  /** A third goes over the detour, and there is no fourth. */
  method TakeDetour(run: EdmondsKarpFlows, ghost p: nat, ghost q: nat, ghost r: nat)
    requires run.Valid() && run.graph == Detour() && run.source == 0 && run.sink == 3 && p > 0 && r > 0
    requires ShortWay(p, q, r, p, q, run.residual, run.reverseFlow) && !run.done
    modifies run
    ensures run.Valid() && LongWay(p, q, r, Least(r, p + q), run.residual, run.reverseFlow)
    ensures run.totalFlow == old(run.totalFlow) + Least(r, p + q) && run.done
  {
    ghost var res, rev := run.residual, run.reverseFlow;
    LongWayOpen(p, q, r, res, rev);
    ghost var path;
    var step;
    step, path := run.Next();
    LongTrail(p, q, r, res, rev, path);
    LongBottleneck(p, q, r, res, rev, step.value);
    LongWayNext(p, q, r, res, rev, step.value, run.residual, run.reverseFlow);
    res, rev := run.residual, run.reverseFlow;
    forall p' ensures !IsAugmenting(Detour(), res, rev, p', 0, 3) {
      LongWaySpent(p, q, r, res, rev, p');
    }
    step, path := run.Next();
  }
}
