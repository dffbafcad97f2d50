/** Networks: sums over edge sets, flows, cuts, and the weak and strong duality facts behind
    maximum flow. */
module Flow {
  import opened Seqs
  import opened Graphs

  // ----- sums over a set of edges -----

  ghost function Sum(w: seq<int>, sel: set<nat>): int {
    if w == [] then 0
    else Sum(w[..|w| - 1], sel) + if |w| - 1 in sel then w[|w| - 1] else 0
  }

  lemma {:induction false} SumUpdate(w: seq<int>, sel: set<nat>, e: nat, x: int)
    requires e < |w|
    ensures Sum(w[e := x], sel) == Sum(w, sel) + if e in sel then x - w[e] else 0
  {
    var k := |w| - 1;
    var w' := w[e := x];
    if e == k {
      assert w'[..k] == w[..k];
    } else {
      SumUpdate(w[..k], sel, e, x);
      assert w'[..k] == w[..k][e := x];
    }
  }

  lemma {:induction false} SumAgree(w: seq<int>, a: set<nat>, b: set<nat>)
    requires forall e: nat :: e < |w| ==> (e in a <==> e in b)
    ensures Sum(w, a) == Sum(w, b)
  {
    if w != [] {
      SumAgree(w[..|w| - 1], a, b);
    }
  }

  lemma {:induction false} SumUnion(w: seq<int>, a: set<nat>, b: set<nat>)
    requires a !! b
    ensures Sum(w, a + b) == Sum(w, a) + Sum(w, b)
  {
    if w != [] {
      SumUnion(w[..|w| - 1], a, b);
    }
  }

  lemma {:induction false} SumMono(w: seq<int>, w': seq<int>, sel: set<nat>)
    requires |w| == |w'| && forall e: nat :: e < |w| && e in sel ==> w[e] <= w'[e]
    ensures Sum(w, sel) <= Sum(w', sel)
  {
    if w != [] {
      SumMono(w[..|w| - 1], w'[..|w| - 1], sel);
    }
  }

  /** Pointwise no larger and equal in sum means equal pointwise. */
  lemma {:induction false} SumTight(w: seq<int>, w': seq<int>, sel: set<nat>, e: nat)
    requires |w| == |w'| && forall k: nat :: k < |w| && k in sel ==> w[k] <= w'[k]
    requires Sum(w, sel) == Sum(w', sel) && e < |w| && e in sel
    ensures w[e] == w'[e]
  {
    var k := |w| - 1;
    SumMono(w[..k], w'[..k], sel);
    if e < k {
      SumTight(w[..k], w'[..k], sel, e);
    }
  }

  lemma {:induction false} SumDifference(w: seq<int>, a: seq<int>, b: seq<int>, sel: set<nat>)
    requires |w| == |a| == |b| && forall e: nat :: e < |w| ==> w[e] == a[e] - b[e]
    ensures Sum(w, sel) == Sum(a, sel) - Sum(b, sel)
  {
    if w != [] {
      var k := |w| - 1;
      SumDifference(w[..k], a[..k], b[..k], sel);
    }
  }

  lemma {:induction false} SumNatural(w: seq<int>, sel: set<nat>)
    requires forall e: nat :: e < |w| && e in sel ==> w[e] >= 0
    ensures Sum(w, sel) >= 0
    ensures forall e: nat :: e < |w| && e in sel ==> w[e] <= Sum(w, sel)
  {
    if w != [] {
      SumNatural(w[..|w| - 1], sel);
    }
  }

  lemma {:induction false} SumZero(w: seq<int>, sel: set<nat>)
    requires forall e: nat :: e < |w| ==> w[e] == 0
    ensures Sum(w, sel) == 0
  {
    if w != [] {
      SumZero(w[..|w| - 1], sel);
    }
  }

  lemma {:induction false} SumSingle(w: seq<int>, e: nat)
    requires e < |w|
    ensures Sum(w, {e}) == w[e]
  {
    var k := |w| - 1;
    if e == k {
      SumAgree(w[..k], {e}, {});
      SumEmpty(w[..k]);
    } else {
      SumSingle(w[..k], e);
    }
  }

  lemma {:induction false} SumEmpty(w: seq<int>)
    ensures Sum(w, {}) == 0
  {
    if w != [] {
      SumEmpty(w[..|w| - 1]);
    }
  }

  // ----- edges by their ends -----

  /** The edges from `p.0` to `p.1`. */
  ghost function Parallel(ends: seq<(nat, nat)>, p: (nat, nat)): set<nat> {
    set e: nat | e < |ends| && ends[e] == p
  }

  ghost function Leaving(ends: seq<(nat, nat)>, s: set<nat>): set<nat> {
    set e: nat | e < |ends| && ends[e].0 in s
  }

  ghost function Entering(ends: seq<(nat, nat)>, s: set<nat>): set<nat> {
    set e: nat | e < |ends| && ends[e].1 in s
  }

  /** Edges from `s` to the rest. */
  ghost function Across(ends: seq<(nat, nat)>, s: set<nat>): set<nat> {
    set e: nat | e < |ends| && ends[e].0 in s && ends[e].1 !in s
  }

  /** Edges into `s` from the rest. */
  ghost function Backward(ends: seq<(nat, nat)>, s: set<nat>): set<nat> {
    set e: nat | e < |ends| && ends[e].0 !in s && ends[e].1 in s
  }

  /** What leaves `s` less what enters it. */
  ghost function Net(ends: seq<(nat, nat)>, w: seq<int>, s: set<nat>): int {
    Sum(w, Leaving(ends, s)) - Sum(w, Entering(ends, s))
  }

  lemma NetUpdate(ends: seq<(nat, nat)>, w: seq<int>, e: nat, x: int, v: nat)
    requires |w| == |ends| && e < |w|
    ensures Net(ends, w[e := x], {v}) == Net(ends, w, {v}) + (if ends[e].0 == v then x - w[e] else 0)
                                         - (if ends[e].1 == v then x - w[e] else 0)
  {
    SumUpdate(w, Leaving(ends, {v}), e, x);
    SumUpdate(w, Entering(ends, {v}), e, x);
  }

  lemma NetUnion(ends: seq<(nat, nat)>, w: seq<int>, a: set<nat>, b: set<nat>)
    requires a !! b
    ensures Net(ends, w, a + b) == Net(ends, w, a) + Net(ends, w, b)
  {
    assert Leaving(ends, a + b) == Leaving(ends, a) + Leaving(ends, b);
    assert Entering(ends, a + b) == Entering(ends, a) + Entering(ends, b);
    SumUnion(w, Leaving(ends, a), Leaving(ends, b));
    SumUnion(w, Entering(ends, a), Entering(ends, b));
  }

  /** Edges inside the set cancel. */
  lemma NetCrossing(ends: seq<(nat, nat)>, w: seq<int>, s: set<nat>)
    ensures Net(ends, w, s) == Sum(w, Across(ends, s)) - Sum(w, Backward(ends, s))
  {
    var inside := Leaving(ends, s) * Entering(ends, s);
    assert Leaving(ends, s) == Across(ends, s) + inside;
    assert Entering(ends, s) == Backward(ends, s) + inside;
    SumUnion(w, Across(ends, s), inside);
    SumUnion(w, Backward(ends, s), inside);
  }

  /** With every node but `source` balanced, a set holding `source` passes on what it emits. */
  lemma {:induction false} NetOfSource(ends: seq<(nat, nat)>, w: seq<int>, s: set<nat>, source: nat)
    requires source in s && forall v :: v in s && v != source ==> Net(ends, w, {v}) == 0
    ensures Net(ends, w, s) == Net(ends, w, {source})
    decreases |s|
  {
    if v :| v in s && v != source {
      NetOfSource(ends, w, s - {v}, source);
      NetUnion(ends, w, s - {v}, {v});
      assert s == (s - {v}) + {v};
    } else {
      assert s == {source};
    }
  }

  // ----- sets closed under parallel edges -----

  ghost predicate ParallelClosed(ends: seq<(nat, nat)>, sel: set<nat>) {
    && (forall e :: e in sel ==> e < |ends|)
    && forall e: nat :: e in sel ==> Parallel(ends, ends[e]) <= sel
  }

  /** Sums over such a set compare as the sums over its bundles of parallel edges. */
  lemma {:induction false} BundleMono(ends: seq<(nat, nat)>, w: seq<int>, w': seq<int>, sel: set<nat>)
    requires ParallelClosed(ends, sel) && |w| == |w'| == |ends|
    requires forall e: nat :: e in sel ==> Sum(w, Parallel(ends, ends[e])) <= Sum(w', Parallel(ends, ends[e]))
    ensures Sum(w, sel) <= Sum(w', sel)
    decreases |sel|
  {
    if sel == {} {
      SumMono(w, w', sel);
    } else {
      var e :| e in sel;
      var p := Parallel(ends, ends[e]);
      assert e in p && sel == p + (sel - p);
      SumUnion(w, p, sel - p);
      SumUnion(w', p, sel - p);
      assert |sel - p| < |sel|;
      BundleMono(ends, w, w', sel - p);
    }
  }

  // ----- flows and cuts -----

  ghost predicate IsNetwork(g: Digraph, cap: seq<nat>, source: nat, sink: nat) {
    g.Valid() && |cap| == |g.ends| && source < g.n && sink < g.n
  }

  /** Within capacity on every edge, and balanced at every node but the two terminals. */
  ghost predicate IsFlow(g: Digraph, cap: seq<nat>, source: nat, sink: nat, f: seq<int>) {
    && |f| == |cap|
    && (forall e: nat :: e < |f| && e < |cap| ==> 0 <= f[e] <= cap[e])
    && forall v: nat :: v < g.n && v != source && v != sink ==> Net(g.ends, f, {v}) == 0
  }

  ghost function Value(g: Digraph, source: nat, f: seq<int>): int {
    Net(g.ends, f, {source})
  }

  ghost predicate IsCut(g: Digraph, source: nat, sink: nat, s: set<nat>) {
    source in s && sink !in s && s <= Below(g.n)
  }

  ghost function Capacity(g: Digraph, cap: seq<nat>, s: set<nat>): int {
    Sum(cap, Across(g.ends, s))
  }

  /** No flow exceeds any cut. */
  lemma FlowBelowCut(g: Digraph, cap: seq<nat>, source: nat, sink: nat, f: seq<int>, s: set<nat>)
    requires IsNetwork(g, cap, source, sink) && IsFlow(g, cap, source, sink, f) && IsCut(g, source, sink, s)
    ensures Value(g, source, f) <= Capacity(g, cap, s)
  {
    NetOfSource(g.ends, f, s, source);
    NetCrossing(g.ends, f, s);
    SumMono(f, cap, Across(g.ends, s));
    SumNatural(f, Backward(g.ends, s));
  }

  /** `total` is the greatest value of a flow: one attains it, and a cut has just this capacity. */
  ghost predicate IsMaximum(g: Digraph, cap: seq<nat>, source: nat, sink: nat, total: int) {
    && (exists f :: IsFlow(g, cap, source, sink, f) && Value(g, source, f) == total)
    && (forall f :: IsFlow(g, cap, source, sink, f) ==> Value(g, source, f) <= total)
    && exists s :: IsCut(g, source, sink, s) && Capacity(g, cap, s) == total
  }

  // ----- sharing a bundle's flow among its edges -----

  /** The last edge counts towards its own bundle only. */
  lemma LastShare(ends: seq<(nat, nat)>, f: seq<int>, q: (nat, nat))
    requires |f| == |ends| > 0
    ensures var k := |ends| - 1;
            Sum(f, Parallel(ends, q)) == Sum(f[..k], Parallel(ends[..k], q)) + if ends[k] == q then f[k] else 0
  {
    var k := |ends| - 1;
    SumAgree(f[..k], Parallel(ends, q), Parallel(ends[..k], q));
  }

  /** Amounts that fit each bundle's joint capacity can be shared out within each edge's own. */
  lemma {:induction false} Share(ends: seq<(nat, nat)>, cap: seq<nat>, need: map<(nat, nat), nat>) returns (f: seq<int>)
    requires |cap| == |ends| && forall e :: 0 <= e < |ends| ==> ends[e] in need
    requires forall p :: p in need ==> need[p] <= Sum(cap, Parallel(ends, p))
    ensures |f| == |cap| && forall e: nat :: e < |f| ==> 0 <= f[e] <= cap[e]
    ensures forall p :: p in need ==> Sum(f, Parallel(ends, p)) == need[p]
    decreases |ends|
  {
    if ends == [] {
      f := [];
    } else {
      var k := |ends| - 1;
      var p := ends[k];
      var rest := Sum(cap[..k], Parallel(ends[..k], p));
      SumNatural(cap[..k], Parallel(ends[..k], p));
      var x: nat := if need[p] > rest then need[p] - rest else 0;
      forall q | q in need
        ensures Sum(cap, Parallel(ends, q)) == Sum(cap[..k], Parallel(ends[..k], q)) + if q == p then cap[k] else 0
      {
        LastShare(ends, cap, q);
      }
      assert need[p] <= rest + cap[k] && x <= cap[k];
      var need' := need[p := need[p] - x];
      var f' := Share(ends[..k], cap[..k], need');
      f := f' + [x];
      assert f[..k] == f';
      forall q | q in need ensures Sum(f, Parallel(ends, q)) == need[q] {
        assert q in need' && Sum(f', Parallel(ends[..k], q)) == need'[q];
        LastShare(ends, f, q);
      }
    }
  }
}
