/** Minimum spanning forest by Prim's iterator (`src/algo/min_spanning_tree.rs`). */
module MinSpanningTree {
  import opened Seqs
  import opened Vec
  import opened Graphs
  import opened Heaps
  import opened Undirected
  import opened Flow

  // ----- spanning forests -----

  ghost predicate Acyclic(g: Digraph, t: set<nat>) {
    forall e: nat {:trigger e in t} :: e in t ==> e < |g.ends| && !Reach(EdgeRel(g, t - {e}), g.ends[e].0, g.ends[e].1)
  }

  /** Every edge of the graph has its ends connected by `t`. */
  ghost predicate Spanning(g: Digraph, t: set<nat>) {
    forall e: nat {:trigger g.ends[e]} :: e < |g.ends| ==> Reach(EdgeRel(g, t), g.ends[e].0, g.ends[e].1)
  }

  /** No cycle, and one tree for each connected component. */
  ghost predicate IsForest(g: Digraph, t: set<nat>) {
    Acyclic(g, t) && Spanning(g, t)
  }

  /** Some spanning forest containing `t` is as light as any. */
  ghost predicate Promising(g: Digraph, weight: seq<int>, t: set<nat>) {
    forall f: set<nat> {:trigger Extends(g, weight, t, f)} :: IsForest(g, f) ==> Extends(g, weight, t, f)
  }

  ghost predicate Extends(g: Digraph, weight: seq<int>, t: set<nat>, f: set<nat>) {
    exists m: set<nat> :: LighterThan(g, weight, t, f, m)
  }

  ghost predicate LighterThan(g: Digraph, weight: seq<int>, t: set<nat>, f: set<nat>, m: set<nat>) {
    t <= m && IsForest(g, m) && Sum(weight, m) <= Sum(weight, f)
  }

  ghost predicate IsMinimum(g: Digraph, weight: seq<int>, t: set<nat>) {
    && IsForest(g, t)
    && forall f: set<nat> :: IsForest(g, f) ==> Sum(weight, t) <= Sum(weight, f)
  }

  lemma EdgeConnects(g: Digraph, t: set<nat>, e: nat, x: nat, y: nat)
    requires g.Valid() && Spanning(g, t) && Joins(g, e, x, y)
    ensures Reach(EdgeRel(g, t), x, y)
  {
    assert Reach(EdgeRel(g, t), g.ends[e].0, g.ends[e].1);
    EdgeRelSymmetric(g, t);
    if g.ends[e] != (x, y) {
      ReachSym(EdgeRel(g, t), y, x);
    }
  }

  lemma AcyclicJoins(g: Digraph, t: set<nat>, e: nat, x: nat, y: nat)
    requires g.Valid() && Acyclic(g, t) && e in t && Joins(g, e, x, y)
    ensures !Reach(EdgeRel(g, t - {e}), x, y)
  {
    EdgeRelSymmetric(g, t - {e});
    if Reach(EdgeRel(g, t - {e}), x, y) {
      ReachSym(EdgeRel(g, t - {e}), x, y);
    }
  }

  /** A path with one more edge allowed either does without it or uses it between two parts. */
  lemma {:induction false} PathWithEdge(g: Digraph, t: set<nat>, e: nat, a: nat, b: nat, path: seq<nat>)
    requires g.Valid() && Joins(g, e, a, b) && IsPath(EdgeRel(g, t + {e}), path)
    ensures var r, p, q := EdgeRel(g, t), path[0], path[|path| - 1];
            Reach(r, p, q) || (Reach(r, p, a) && Reach(r, b, q)) || (Reach(r, p, b) && Reach(r, a, q))
    decreases |path|
  {
    var r, p, q := EdgeRel(g, t), path[0], path[|path| - 1];
    EdgeRelSymmetric(g, t);
    if |path| == 1 {
      ReachRefl(r, p);
    } else {
      var front, w := path[..|path| - 1], path[|path| - 2];
      PathWithEdge(g, t, e, a, b, front);
      assert front[|front| - 1] == w && (w, q) in EdgeRel(g, t + {e});
      assert EdgeLink(g, t + {e}, w, q);
      var f: nat :| f in t + {e} && Joins(g, f, w, q);
      if f == e {
        ReachRefl(r, q);
        if Reach(r, p, w) {
        } else if Reach(r, p, a) && Reach(r, b, w) {
          if q != a {
            ReachSym(r, b, w);
          }
        } else if q != b {
          ReachSym(r, a, w);
        }
      } else {
        EdgeRelIff(g, t, f, w, q);
        if Reach(r, p, w) {
          ReachStep(r, p, w, q);
        } else if Reach(r, p, a) && Reach(r, b, w) {
          ReachStep(r, b, w, q);
        } else {
          ReachStep(r, a, w, q);
        }
      }
    }
  }

  lemma ReachWithEdge(g: Digraph, t: set<nat>, e: nat, a: nat, b: nat, p: nat, q: nat)
    requires g.Valid() && Joins(g, e, a, b) && Reach(EdgeRel(g, t + {e}), p, q)
    ensures var r := EdgeRel(g, t);
            Reach(r, p, q) || (Reach(r, p, a) && Reach(r, b, q)) || (Reach(r, p, b) && Reach(r, a, q))
  {
    var path :| PathFrom(EdgeRel(g, t + {e}), path, p, q);
    PathWithEdge(g, t, e, a, b, path);
  }

  // ----- the exchange -----

  /** `f` is the edge of the forest over which the path from `a` to `b` leaves `c`. */
  ghost predicate LeavesBy(g: Digraph, m: set<nat>, c: set<nat>, a: nat, b: nat, f: nat, x: nat, y: nat) {
    && f in m && Joins(g, f, x, y) && x in c && y !in c
    && Reach(EdgeRel(g, m - {f}), a, x) && Reach(EdgeRel(g, m - {f}), y, b)
  }

  lemma LeavingEdge(g: Digraph, m: set<nat>, c: set<nat>, a: nat, b: nat) returns (f: nat, x: nat, y: nat)
    requires g.Valid() && a in c && b !in c && Reach(EdgeRel(g, m), a, b)
    ensures LeavesBy(g, m, c, a, b, f, x, y)
  {
    var r := EdgeRel(g, m);
    var p0 :| PathFrom(r, p0, a, b);
    var p := SimplePath(r, p0, a, b);
    var i := Crossing(r, c, p);
    x, y := p[i], p[i + 1];
    assert (x, y) in r;
    assert EdgeLink(g, m, x, y);
    f :| f in m && Joins(g, f, x, y);
    SubpathAvoids(g, m, f, p, i, 0, i);
    SubpathAvoids(g, m, f, p, i, i + 1, |p| - 1);
  }

  lemma StepAvoids(g: Digraph, m: set<nat>, f: nat, p: seq<nat>, i: nat, k: nat)
    requires g.Valid() && IsPath(EdgeRel(g, m), p) && NoDup(p) && i + 1 < |p| && Joins(g, f, p[i], p[i + 1])
    requires k + 1 < |p| && k != i
    ensures (p[k], p[k + 1]) in EdgeRel(g, m - {f})
  {
    assert (p[k], p[k + 1]) in EdgeRel(g, m);
    assert EdgeLink(g, m, p[k], p[k + 1]);
    var e: nat :| e in m && Joins(g, e, p[k], p[k + 1]);
    assert e != f;
    EdgeRelIff(g, m - {f}, e, p[k], p[k + 1]);
  }

  /** Away from step `i` a simple path does not use the edge of step `i`. */
  lemma SubpathAvoids(g: Digraph, m: set<nat>, f: nat, p: seq<nat>, i: nat, lo: nat, hi: nat)
    requires g.Valid() && IsPath(EdgeRel(g, m), p) && NoDup(p) && i + 1 < |p| && Joins(g, f, p[i], p[i + 1])
    requires lo <= hi < |p| && (hi <= i || i + 1 <= lo)
    ensures Reach(EdgeRel(g, m - {f}), p[lo], p[hi])
  {
    var q := p[lo..hi + 1];
    forall j | 0 <= j < |q| - 1 ensures (q[j], q[j + 1]) in EdgeRel(g, m - {f}) {
      assert q[j] == p[lo + j] && q[j + 1] == p[lo + j + 1];
      StepAvoids(g, m, f, p, i, lo + j);
    }
    assert PathFrom(EdgeRel(g, m - {f}), q, p[lo], p[hi]);
  }

  /** Swapping the edge on which the forest leaves `c` for another edge out of `c` gives a forest. */
  lemma Exchange(g: Digraph, m: set<nat>, c: set<nat>, e: nat, a: nat, b: nat, f: nat, x: nat, y: nat)
    requires g.Valid() && IsForest(g, m) && Joins(g, e, a, b) && e !in m && LeavesBy(g, m, c, a, b, f, x, y)
    ensures IsForest(g, m - {f} + {e})
  {
    ExchangeSpans(g, m, c, e, a, b, f, x, y);
    CutApart(g, m, c, a, b, f, x, y);
    AcyclicShrinks(g, m, f);
    AcyclicGrows(g, m - {f}, e, a, b);
  }

  lemma ExchangeSpans(g: Digraph, m: set<nat>, c: set<nat>, e: nat, a: nat, b: nat, f: nat, x: nat, y: nat)
    requires g.Valid() && IsForest(g, m) && Joins(g, e, a, b) && e !in m && LeavesBy(g, m, c, a, b, f, x, y)
    ensures Spanning(g, m - {f} + {e})
  {
    var base, m' := m - {f}, m - {f} + {e};
    var r, r' := EdgeRel(g, base), EdgeRel(g, m');
    EdgeRelMono(g, base, m');
    EdgeRelSymmetric(g, m');
    EdgeRelIff(g, m', e, a, b);
    ReachMono(r, r', a, x);
    ReachMono(r, r', y, b);
    ReachSym(r', a, x);
    ReachSym(r', y, b);
    ReachStep(r', x, a, b);
    ReachTrans(r', x, b, y);
    ReachSym(r', x, y);
    assert m == base + {f};
    forall d: nat | d < |g.ends| ensures Reach(r', g.ends[d].0, g.ends[d].1) {
      var (p, q) := g.ends[d];
      assert Reach(EdgeRel(g, m), p, q);
      ReachWithEdge(g, base, f, x, y, p, q);
      if Reach(r, p, q) {
        ReachMono(r, r', p, q);
      } else if Reach(r, p, x) && Reach(r, y, q) {
        ReachMono(r, r', p, x);
        ReachMono(r, r', y, q);
        ReachTrans(r', p, x, y);
        ReachTrans(r', p, y, q);
      } else {
        ReachMono(r, r', p, y);
        ReachMono(r, r', x, q);
        ReachTrans(r', p, y, x);
        ReachTrans(r', p, x, q);
      }
    }
  }

  /** Without the edge it leaves by, the forest does not connect `a` and `b`. */
  lemma CutApart(g: Digraph, m: set<nat>, c: set<nat>, a: nat, b: nat, f: nat, x: nat, y: nat)
    requires g.Valid() && Acyclic(g, m) && LeavesBy(g, m, c, a, b, f, x, y)
    ensures !Reach(EdgeRel(g, m - {f}), a, b) && !Reach(EdgeRel(g, m - {f}), b, a)
  {
    var r := EdgeRel(g, m - {f});
    EdgeRelSymmetric(g, m - {f});
    AcyclicJoins(g, m, f, x, y);
    if Reach(r, a, b) || Reach(r, b, a) {
      if Reach(r, b, a) {
        ReachSym(r, b, a);
      }
      ReachSym(r, a, x);
      ReachSym(r, y, b);
      ReachTrans(r, x, a, b);
      ReachTrans(r, x, b, y);
    }
  }

  lemma AcyclicShrinks(g: Digraph, t: set<nat>, f: nat)
    requires Acyclic(g, t)
    ensures Acyclic(g, t - {f})
  {
    forall h | h in t - {f} ensures h < |g.ends| && !Reach(EdgeRel(g, t - {f} - {h}), g.ends[h].0, g.ends[h].1) {
      EdgeRelMono(g, t - {f} - {h}, t - {h});
      if Reach(EdgeRel(g, t - {f} - {h}), g.ends[h].0, g.ends[h].1) {
        ReachMono(EdgeRel(g, t - {f} - {h}), EdgeRel(g, t - {h}), g.ends[h].0, g.ends[h].1);
      }
    }
  }

  /** An edge between two parts that are not connected closes no cycle. */
  lemma AcyclicGrows(g: Digraph, t: set<nat>, e: nat, a: nat, b: nat)
    requires g.Valid() && Acyclic(g, t) && Joins(g, e, a, b) && e !in t && !Reach(EdgeRel(g, t), a, b)
    ensures Acyclic(g, t + {e})
  {
    EdgeRelSymmetric(g, t);
    if Reach(EdgeRel(g, t), b, a) {
      ReachSym(EdgeRel(g, t), b, a);
    }
    forall h | h in t + {e} ensures h < |g.ends| && !Reach(EdgeRel(g, t + {e} - {h}), g.ends[h].0, g.ends[h].1) {
      if h == e {
        assert t + {e} - {h} == t;
      } else {
        var (p, q) := g.ends[h];
        var r := EdgeRel(g, t - {h});
        assert t + {e} - {h} == t - {h} + {e};
        if Reach(EdgeRel(g, t - {h} + {e}), p, q) {
          ReachWithEdge(g, t - {h}, e, a, b, p, q);
          ReachRefl(r, p);
          assert Joins(g, h, p, q);
          ThroughEdge(g, t, h, p, q, a, b);
        }
      }
    }
  }

  /** Were `a` and `b` reached from the two ends of `h`, they would be connected through `h`. */
  lemma ThroughEdge(g: Digraph, t: set<nat>, h: nat, p: nat, q: nat, a: nat, b: nat)
    requires g.Valid() && h in t && Joins(g, h, p, q)
    requires var r := EdgeRel(g, t - {h}); (Reach(r, p, a) && Reach(r, b, q)) || (Reach(r, p, b) && Reach(r, a, q))
    ensures Reach(EdgeRel(g, t), a, b) || Reach(EdgeRel(g, t), b, a)
  {
    var r, r' := EdgeRel(g, t - {h}), EdgeRel(g, t);
    EdgeRelMono(g, t - {h}, t);
    EdgeRelSymmetric(g, t);
    EdgeRelIff(g, t, h, p, q);
    var (u, v) := if Reach(r, p, a) && Reach(r, b, q) then (a, b) else (b, a);
    ReachMono(r, r', p, u);
    ReachMono(r, r', v, q);
    ReachSym(r', v, q);
    ReachSym(r', p, u);
    ReachStep(r', u, p, q);
    ReachTrans(r', u, q, v);
  }

  /** The cut rule: a lightest edge out of `c` may join edges that stay off the cut. */
  lemma CutRule(g: Digraph, weight: seq<int>, t: set<nat>, c: set<nat>, e: nat, a: nat, b: nat)
    requires g.Valid() && |weight| == |g.ends| && Promising(g, weight, t) && Joins(g, e, a, b) && a in c && b !in c
    requires forall f: nat, x: nat, y: nat {:trigger Joins(g, f, x, y)} ::
               Joins(g, f, x, y) && x in c && y !in c ==> f !in t && weight[e] <= weight[f]
    ensures Promising(g, weight, t + {e})
  {
    forall forest: set<nat> | IsForest(g, forest) ensures Extends(g, weight, t + {e}, forest) {
      assert Extends(g, weight, t, forest);
      var m: set<nat> :| LighterThan(g, weight, t, forest, m);
      if e in m {
        assert LighterThan(g, weight, t + {e}, forest, m);
      } else {
        EdgeConnects(g, m, e, a, b);
        var f, x, y := LeavingEdge(g, m, c, a, b);
        Exchange(g, m, c, e, a, b, f, x, y);
        SwapWeight(weight, m, f, e);
        assert LighterThan(g, weight, t + {e}, forest, m - {f} + {e});
      }
    }
  }

  lemma SwapWeight(weight: seq<int>, m: set<nat>, f: nat, e: nat)
    requires f in m && e !in m && e < |weight| && f < |weight|
    ensures Sum(weight, m - {f} + {e}) == Sum(weight, m) - weight[f] + weight[e]
  {
    SumUnion(weight, m - {f}, {f});
    SumUnion(weight, m - {f}, {e});
    assert m - {f} + {f} == m;
    SumSingle(weight, e);
    SumSingle(weight, f);
  }

  /** A promising set that spans is a minimum spanning forest. */
  lemma PromisingSpans(g: Digraph, weight: seq<int>, t: set<nat>)
    requires g.Valid() && Promising(g, weight, t) && Spanning(g, t) && IsForest(g, t)
    ensures IsMinimum(g, weight, t)
  {
    forall f: set<nat> | IsForest(g, f) ensures Sum(weight, t) <= Sum(weight, f) {
      assert Extends(g, weight, t, f);
      var m: set<nat> :| LighterThan(g, weight, t, f, m);
      forall e | e in m ensures e in t {
        if e !in t {
          EdgeRelMono(g, t, m - {e});
          ReachMono(EdgeRel(g, t), EdgeRel(g, m - {e}), g.ends[e].0, g.ends[e].1);
        }
      }
      assert m == t;
    }
  }

  // ----- the growing tree -----

  ghost predicate CandidateOk(g: Digraph, weight: seq<int>, inMst: set<nat>, d: Entry) {
    && |weight| == |g.ends| && d.1 < |g.ends| && d.0 == weight[d.1]
    && (g.ends[d.1].0 in inMst || g.ends[d.1].1 in inMst)
  }

  /** The heap holds every edge out of the grown part, and only edges that touch it. */
  ghost predicate HeapOk(g: Digraph, weight: seq<int>, inMst: set<nat>, heap: Heap) {
    && |weight| == |g.ends|
    && (forall d {:trigger CandidateOk(g, weight, inMst, d)} :: d in heap ==> CandidateOk(g, weight, inMst, d))
    && forall f: nat, x: nat, y: nat {:trigger Joins(g, f, x, y)} ::
         Joins(g, f, x, y) && x in inMst && y !in inMst ==> (weight[f], f) in heap
  }

  /** The components done lie apart; the one under way hangs together from `start`. */
  ghost predicate Grown(g: Digraph, tree: set<nat>, inMst: set<nat>, settled: set<nat>, start: nat) {
    && settled <= inMst && (forall v :: v in inMst ==> v < g.n)
    && Closed(EdgeRel(g, Edges(g)), settled)
    && (forall k {:trigger Reach(EdgeRel(g, tree), start, k)} :: k in inMst - settled ==>
          Reach(EdgeRel(g, tree), start, k))
    && (forall f: nat, x: nat, y: nat {:trigger Joins(g, f, x, y)} ::
          Joins(g, f, x, y) && x in settled && y in settled ==> Reach(EdgeRel(g, tree), x, y))
    && (forall f: nat, x: nat, y: nat {:trigger Joins(g, f, x, y)} :: f in tree && Joins(g, f, x, y) ==>
          x in inMst && y in inMst)
  }

  ghost predicate PrimInv(g: Digraph, weight: seq<int>, tree: set<nat>, inMst: set<nat>, heap: Heap, settled: set<nat>,
                          start: nat)
  {
    && g.Valid() && HeapOk(g, weight, inMst, heap) && Grown(g, tree, inMst, settled, start)
    && Acyclic(g, tree) && Promising(g, weight, tree)
  }

  /** Heap after the edges from `node` out of the grown part are added. */
  ghost predicate WithIncident(g: Digraph, weight: seq<int>, inMst: set<nat>, heap: Heap, node: nat, heap': Heap) {
    && |weight| == |g.ends|
    && (forall d :: d in heap' <==> d in heap || IsIncident(g, weight, inMst, node, d))
    && forall d {:trigger heap'[d]} :: heap'[d] == heap[d] + if IsIncident(g, weight, inMst, node, d) then 1 else 0
  }

  /** The entry of an edge out of `node` with its weight. */
  ghost predicate IsIncident(g: Digraph, weight: seq<int>, inMst: set<nat>, node: nat, d: Entry)
    requires |weight| == |g.ends|
  {
    d.1 < |g.ends| && d.0 == weight[d.1] && OutOf(g, inMst, node, d.1)
  }

  /** One entry has been pushed for each such edge among the first `i` listed. */
  ghost predicate IncidentUpTo(g: Digraph, weight: seq<int>, inMst: set<nat>, heap: Heap, node: nat, edges: seq<nat>,
                               i: nat, heap': Heap)
  {
    && |weight| == |g.ends| && i <= |edges|
    && forall d {:trigger heap'[d]} ::
         heap'[d] == heap[d] + if d.1 in edges[..i] && IsIncident(g, weight, inMst, node, d) then 1 else 0
  }

  lemma IncidentNext(g: Digraph, weight: seq<int>, inMst: set<nat>, heap: Heap, node: nat, edges: seq<nat>, i: nat,
                     heap': Heap)
    requires IncidentUpTo(g, weight, inMst, heap, node, edges, i, heap')
    requires NoDup(edges) && i < |edges| && edges[i] < |g.ends|
    ensures IncidentUpTo(g, weight, inMst, heap, node, edges, i + 1,
                         if OutOf(g, inMst, node, edges[i]) then heap' + multiset{(weight[edges[i]], edges[i])}
                         else heap')
  {
    assert edges[..i + 1] == edges[..i] + [edges[i]] && edges[i] !in edges[..i];
  }

  /** Edge `f` leads from `node` to a node not yet grown. */
  predicate OutOf(g: Digraph, inMst: set<nat>, node: nat, f: nat)
    requires f < |g.ends|
  {
    (g.ends[f].0 == node && g.ends[f].1 !in inMst) || (g.ends[f].1 == node && g.ends[f].0 !in inMst)
  }

  lemma AddNode(g: Digraph, weight: seq<int>, inMst: set<nat>, heap: Heap, node: nat, heap': Heap)
    requires HeapOk(g, weight, inMst, heap) && WithIncident(g, weight, inMst + {node}, heap, node, heap')
    ensures HeapOk(g, weight, inMst + {node}, heap')
  {
    forall d | d in heap' ensures CandidateOk(g, weight, inMst + {node}, d) {
      assert d in heap ==> CandidateOk(g, weight, inMst, d);
    }
  }

  /** A popped edge with both ends in the grown part is dropped. */
  lemma DropStep(g: Digraph, weight: seq<int>, tree: set<nat>, inMst: set<nat>, heap: Heap, settled: set<nat>,
                 start: nat, c: Entry)
    requires PrimInv(g, weight, tree, inMst, heap, settled, start) && c in heap
    requires c.1 < |g.ends| && g.ends[c.1].0 in inMst && g.ends[c.1].1 in inMst
    ensures PrimInv(g, weight, tree, inMst, heap - multiset{c}, settled, start)
  {
    var heap' := heap - multiset{c};
    forall d | d in heap' ensures CandidateOk(g, weight, inMst, d) {
      assert d in heap;
    }
    forall f: nat, x: nat, y: nat | Joins(g, f, x, y) && x in inMst && y !in inMst ensures (weight[f], f) in heap' {
      assert (weight[f], f) in heap && f != c.1;
    }
  }

  /** A popped edge out of the grown part joins the tree. */
  lemma TakeStep(g: Digraph, weight: seq<int>, tree: set<nat>, inMst: set<nat>, heap: Heap, settled: set<nat>,
                 start: nat, c: Entry, a: nat, b: nat, heap': Heap)
    requires PrimInv(g, weight, tree, inMst, heap, settled, start) && Lightest(heap, c)
    requires Joins(g, c.1, a, b) && a in inMst && b !in inMst
    requires WithIncident(g, weight, inMst + {b}, heap - multiset{c}, b, heap')
    ensures PrimInv(g, weight, tree + {c.1}, inMst + {b}, heap', settled, start) && c.1 !in tree
  {
    var e := c.1;
    assert CandidateOk(g, weight, inMst, c);
    assert e !in tree;
    forall f: nat, x: nat, y: nat | Joins(g, f, x, y) && x in inMst && y !in inMst
      ensures f !in tree && weight[e] <= weight[f]
    {
      assert (weight[f], f) in heap;
    }
    CutRule(g, weight, tree, inMst, e, a, b);
    TreeStays(g, tree, inMst, a, b);
    AcyclicGrows(g, tree, e, a, b);
    TakeHeap(g, weight, inMst, heap, c, b, heap');
    TakeGrown(g, tree, inMst, settled, start, e, a, b);
  }

  lemma TreeStays(g: Digraph, tree: set<nat>, inMst: set<nat>, a: nat, b: nat)
    requires forall f: nat, x: nat, y: nat {:trigger Joins(g, f, x, y)} :: f in tree && Joins(g, f, x, y) ==>
               x in inMst && y in inMst
    requires a in inMst && b !in inMst
    ensures !Reach(EdgeRel(g, tree), a, b)
  {
    forall x, y | (x, y) in EdgeRel(g, tree) && x in inMst ensures y in inMst {
      assert EdgeLink(g, tree, x, y);
    }
    if Reach(EdgeRel(g, tree), a, b) {
      ReachStays(EdgeRel(g, tree), inMst, a, b);
    }
  }

  lemma TakeHeap(g: Digraph, weight: seq<int>, inMst: set<nat>, heap: Heap, c: Entry, b: nat, heap': Heap)
    requires HeapOk(g, weight, inMst, heap) && c in heap && c.1 < |g.ends| && b !in inMst
    requires (g.ends[c.1].0 == b && g.ends[c.1].1 in inMst) || (g.ends[c.1].1 == b && g.ends[c.1].0 in inMst)
    requires WithIncident(g, weight, inMst + {b}, heap - multiset{c}, b, heap')
    ensures HeapOk(g, weight, inMst + {b}, heap')
  {
    forall d | d in heap' ensures CandidateOk(g, weight, inMst + {b}, d) {
      assert d in heap ==> CandidateOk(g, weight, inMst, d);
    }
    forall f: nat, x: nat, y: nat | Joins(g, f, x, y) && x in inMst + {b} && y !in inMst + {b}
      ensures (weight[f], f) in heap'
    {
      if x != b {
        assert (weight[f], f) in heap && f != c.1;
        assert (weight[f], f) in heap - multiset{c};
      }
    }
  }

  lemma TakeGrown(g: Digraph, tree: set<nat>, inMst: set<nat>, settled: set<nat>, start: nat, e: nat, a: nat, b: nat)
    requires g.Valid() && Grown(g, tree, inMst, settled, start) && Joins(g, e, a, b) && a in inMst && b !in inMst
    ensures Grown(g, tree + {e}, inMst + {b}, settled, start)
  {
    var r, r' := EdgeRel(g, tree), EdgeRel(g, tree + {e});
    EdgeRelMono(g, tree, tree + {e});
    EdgeRelIff(g, tree + {e}, e, a, b);
    EdgeRelIff(g, Edges(g), e, a, b);
    forall k | k in inMst + {b} - settled ensures Reach(r', start, k) {
      if k == b {
        assert Reach(r, start, a);
        ReachMono(r, r', start, a);
        ReachStep(r', start, a, b);
      } else {
        ReachMono(r, r', start, k);
      }
    }
    forall f: nat, x: nat, y: nat | Joins(g, f, x, y) && x in settled && y in settled ensures Reach(r', x, y) {
      ReachMono(r, r', x, y);
    }
  }

  /** With the heap empty the component is complete, and a new one may be started. */
  lemma ComponentDone(g: Digraph, weight: seq<int>, tree: set<nat>, inMst: set<nat>, settled: set<nat>, start: nat,
                      start': nat)
    requires PrimInv(g, weight, tree, inMst, multiset{}, settled, start)
    ensures PrimInv(g, weight, tree, inMst, multiset{}, inMst, start')
    ensures forall f: nat, x: nat, y: nat {:trigger Joins(g, f, x, y)} :: Joins(g, f, x, y) && x in inMst ==> y in inMst
  {
    var r := EdgeRel(g, tree);
    forall x, y | (x, y) in EdgeRel(g, Edges(g)) && x in inMst ensures y in inMst {
      assert EdgeLink(g, Edges(g), x, y);
    }
    EdgeRelSymmetric(g, tree);
    forall f: nat, x: nat, y: nat | Joins(g, f, x, y) && x in inMst && y in inMst ensures Reach(r, x, y) {
      EdgeRelIff(g, Edges(g), f, x, y);
      if x !in settled {
        assert Reach(r, start, x) && Reach(r, start, y);
        ReachSym(r, start, x);
        ReachTrans(r, x, start, y);
      }
    }
  }

  lemma StartStep(g: Digraph, weight: seq<int>, tree: set<nat>, inMst: set<nat>, start: nat, heap': Heap)
    requires PrimInv(g, weight, tree, inMst, multiset{}, inMst, start) && start < g.n && start !in inMst
    requires WithIncident(g, weight, inMst + {start}, multiset{}, start, heap')
    ensures PrimInv(g, weight, tree, inMst + {start}, heap', inMst, start)
  {
    AddNode(g, weight, inMst, multiset{}, start, heap');
    ReachRefl(EdgeRel(g, tree), start);
  }

  lemma RootStep(g: Digraph, weight: seq<int>, tree: set<nat>, inMst: set<nat>, settled: set<nat>, start: nat,
                 root: nat, heap': Heap)
    requires PrimInv(g, weight, tree, inMst, multiset{}, settled, start) && root < g.n && root !in inMst
    requires WithIncident(g, weight, inMst + {root}, multiset{}, root, heap')
    ensures PrimInv(g, weight, tree, inMst + {root}, heap', inMst, root)
  {
    ComponentDone(g, weight, tree, inMst, settled, start, root);
    StartStep(g, weight, tree, inMst, root, heap');
  }

  lemma AllBelow(g: Digraph, tree: set<nat>, inMst: set<nat>, settled: set<nat>, start: nat)
    requires Grown(g, tree, inMst, settled, start) && forall v: nat :: v < g.n ==> v in inMst
    ensures inMst == Below(g.n)
  {
  }

  lemma AllGrown(g: Digraph, weight: seq<int>, tree: set<nat>, settled: set<nat>, start: nat)
    requires PrimInv(g, weight, tree, Below(g.n), multiset{}, settled, start)
    ensures IsMinimum(g, weight, tree)
  {
    ComponentDone(g, weight, tree, Below(g.n), settled, start, start);
    forall e: nat | e < |g.ends| ensures Reach(EdgeRel(g, tree), g.ends[e].0, g.ends[e].1) {
      var (x, y) := g.ends[e];
      if x == y {
        ReachRefl(EdgeRel(g, tree), x);
      } else {
        assert Joins(g, e, x, y);
      }
    }
    PromisingSpans(g, weight, tree);
  }

  lemma EmptyPromising(g: Digraph, weight: seq<int>)
    requires g.Valid() && |weight| == |g.ends|
    ensures PrimInv(g, weight, {}, {}, multiset{}, {}, 0)
  {
    forall f: set<nat> | IsForest(g, f) ensures Extends(g, weight, {}, f) {
      assert LighterThan(g, weight, {}, f, f);
    }
  }

  // ----- which edge comes next -----

  /** No edge leaves `s`. */
  ghost predicate Sealed(g: Digraph, s: set<nat>) {
    forall f: nat, x: nat, y: nat {:trigger Joins(g, f, x, y)} :: Joins(g, f, x, y) && x in s ==> y in s
  }

  /** What of `b` was there when `r` was added to it as a new root. */
  ghost function GrownBefore(a: set<nat>, b: set<nat>, r: nat): set<nat> {
    set x | x in b && (x in a || x < r)
  }

  /** From `a` to `b` only roots were added: each the least node left over, each when nothing led on. */
  ghost predicate RootsAdded(g: Digraph, a: set<nat>, b: set<nat>) {
    && a <= b
    && forall r {:trigger GrownBefore(a, b, r)} :: r in b && r !in a ==>
         (forall y: nat :: y < r ==> y in b) && Sealed(g, GrownBefore(a, b, r))
  }

  /** Edge `e`, a lightest of those that leave `s`, has added its far end. */
  ghost predicate TakesLightest(g: Digraph, weight: seq<int>, s: set<nat>, e: nat, s': set<nat>) {
    && |weight| == |g.ends| && e < |g.ends|
    && (exists x: nat, y: nat :: Joins(g, e, x, y) && x in s && y !in s && s' == s + {y})
    && forall f: nat, x: nat, y: nat {:trigger Joins(g, f, x, y)} ::
         Joins(g, f, x, y) && x in s && y !in s ==> weight[e] <= weight[f]
  }

  lemma RootsNext(g: Digraph, a: set<nat>, b: set<nat>, r: nat)
    requires RootsAdded(g, a, b) && Sealed(g, b) && r !in b && forall y: nat :: y < r ==> y in b
    ensures RootsAdded(g, a, b + {r})
  {
    var b' := b + {r};
    forall x | x in b' && x !in a ensures (forall y: nat :: y < x ==> y in b') && Sealed(g, GrownBefore(a, b', x)) {
      if x == r {
        forall z | z in b && z !in a ensures z < r {
          assert Sealed(g, GrownBefore(a, b, z));
        }
        assert GrownBefore(a, b', r) == b;
      } else {
        assert Sealed(g, GrownBefore(a, b, x)) && x < r;
        assert GrownBefore(a, b', x) == GrownBefore(a, b, x);
      }
    }
  }

  lemma EmptyIsSealed(g: Digraph, weight: seq<int>, inMst: set<nat>)
    requires HeapOk(g, weight, inMst, multiset{})
    ensures Sealed(g, inMst)
  {
    forall f: nat, x: nat, y: nat | Joins(g, f, x, y) && x in inMst ensures y in inMst {
      var entry := (weight[f], f);
      assert y in inMst || entry in multiset{};
    }
  }

  lemma LowestIsLightest(g: Digraph, weight: seq<int>, inMst: set<nat>, heap: Heap, c: Entry, a: nat, b: nat)
    requires HeapOk(g, weight, inMst, heap) && Lightest(heap, c) && CandidateOk(g, weight, inMst, c)
    requires Joins(g, c.1, a, b) && a in inMst && b !in inMst
    ensures TakesLightest(g, weight, inMst, c.1, inMst + {b})
  {
    forall f: nat, x: nat, y: nat | Joins(g, f, x, y) && x in inMst && y !in inMst ensures weight[c.1] <= weight[f] {
      assert (weight[f], f) in heap;
    }
  }

  // ----- the iterator -----

  class MinSpanningTree {
    const graph: Digraph
    const edgeWeight: seq<int>
    var inMst: set<nat>
    var heap: Heap
    var cursor: nat
    ghost var yielded: seq<nat>
    ghost var settled: set<nat>
    ghost var start: nat

    ghost predicate Valid()
      reads this
    {
      && PrimInv(graph, edgeWeight, Elems(yielded), inMst, heap, settled, start) && NoDup(yielded)
      && cursor <= graph.n && forall v: nat :: v < cursor ==> v in inMst
    }

    constructor (g: Digraph, weight: seq<int>)
      requires g.Valid() && |weight| == |g.ends|
      ensures Valid() && graph == g && edgeWeight == weight && yielded == []
    {
      graph, edgeWeight := g, weight;
      inMst, heap, cursor := {}, multiset{}, 0;
      yielded, settled, start := [], {}, 0;
      new;
      EmptyPromising(g, weight);
      assert Elems(yielded) == {};
    }

    /** The next edge of the forest, a lightest one out of what has grown, new roots being added where
        none leads out; nothing once the forest is complete, and then it is minimal. */
    method Next() returns (edge: Option<nat>)
      requires Valid()
      modifies this
      ensures Valid()
      ensures edge.Some? ==> yielded == old(yielded) + [edge.value]
      ensures edge.Some? ==> exists s :: RootsAdded(graph, old(inMst), s)
                                         && TakesLightest(graph, edgeWeight, s, edge.value, inMst)
      ensures edge.None? ==> yielded == old(yielded) && IsMinimum(graph, edgeWeight, Elems(yielded))
      ensures edge.None? ==> RootsAdded(graph, old(inMst), inMst) && inMst == Below(graph.n)
    {
      edge := None;
      var more := true;
      assert RootsAdded(graph, inMst, inMst);
      while more
        invariant Valid() && yielded == old(yielded) && edge.None?
        invariant RootsAdded(graph, old(inMst), inMst)
        invariant !more ==> heap == multiset{} && inMst == Below(graph.n)
        decreases more, graph.n - cursor
      {
        ghost var grown := inMst;
        edge := DrainHeap();
        if edge.Some? {
          return;
        }
        EmptyIsSealed(graph, edgeWeight, inMst);
        more := NextRoot();
        if more {
          RootsNext(graph, old(inMst), grown, cursor - 1);
        }
      }
      AllGrown(graph, edgeWeight, Elems(yielded), settled, start);
    }

    /** Pop candidates until one leads out of the grown part. */
    method DrainHeap() returns (edge: Option<nat>)
      requires Valid()
      modifies this
      ensures Valid() && cursor == old(cursor)
      ensures edge.Some? ==> yielded == old(yielded) + [edge.value]
      ensures edge.Some? ==> TakesLightest(graph, edgeWeight, old(inMst), edge.value, inMst)
      ensures edge.None? ==> yielded == old(yielded) && heap == multiset{} && inMst == old(inMst)
    {
      edge := None;
      while heap != multiset{} && edge.None?
        invariant Valid() && cursor == old(cursor)
        invariant yielded == if edge.Some? then old(yielded) + [edge.value] else old(yielded)
        invariant if edge.Some? then TakesLightest(graph, edgeWeight, old(inMst), edge.value, inMst)
                  else inMst == old(inMst)
        decreases edge.None?, |heap|
      {
        edge := PopOne();
      }
    }

    method PopOne() returns (edge: Option<nat>)
      requires Valid() && heap != multiset{}
      modifies this
      ensures Valid() && cursor == old(cursor)
      ensures edge.Some? ==> yielded == old(yielded) + [edge.value]
      ensures edge.Some? ==> TakesLightest(graph, edgeWeight, old(inMst), edge.value, inMst)
      ensures edge.None? ==> yielded == old(yielded) && |heap| < |old(heap)| && inMst == old(inMst)
    {
      var c := Lowest(heap);
      assert CandidateOk(graph, edgeWeight, inMst, c);
      var (a, b) := graph.ends[c.1];
      ghost var heap0, inMst0 := heap, inMst;
      heap := heap - multiset{c};
      edge := None;
      if a in inMst && b in inMst {
        DropStep(graph, edgeWeight, Elems(yielded), inMst, heap0, settled, start, c);
      } else {
        var node := if a !in inMst then a else b;
        inMst := inMst + {node};
        AddIncidentEdges(node);
        ghost var other := if node == a then b else a;
        assert Joins(graph, c.1, other, node);
        assert TakesLightest(graph, edgeWeight, inMst0, c.1, inMst) by {
          LowestIsLightest(graph, edgeWeight, inMst0, heap0, c, other, node);
        }
        TakeStep(graph, edgeWeight, Elems(yielded), inMst0, heap0, settled, start, c, other, node, heap);
        assert Elems(yielded + [c.1]) == Elems(yielded) + {c.1};
        yielded := yielded + [c.1];
        edge := Some(c.1);
      }
    }

    /** `add_incident_edges`: one entry for each edge from `node` to a node not grown yet. */
    method AddIncidentEdges(node: nat)
      requires graph.Valid() && node < graph.n && |edgeWeight| == |graph.ends|
      modifies this`heap
      ensures WithIncident(graph, edgeWeight, inMst, old(heap), node, heap)
    {
      var edges := EdgesOf(graph, node);
      assert forall k :: 0 <= k < |edges| ==> edges[k] in edges;
      var i := 0;
      while i < |edges|
        invariant i <= |edges| && IncidentUpTo(graph, edgeWeight, inMst, old(heap), node, edges, i, heap)
      {
        var e := edges[i];
        IncidentNext(graph, edgeWeight, inMst, old(heap), node, edges, i, heap);
        if OutOf(graph, inMst, node, e) {
          heap := heap + multiset{(edgeWeight[e], e)};
        }
        i := i + 1;
      }
      assert edges[..i] == edges;
    }

    /** Start the next component at the first node not grown yet. */
    method NextRoot() returns (more: bool)
      requires Valid() && heap == multiset{}
      modifies this
      ensures Valid() && yielded == old(yielded)
      ensures more ==> cursor > old(cursor) && cursor - 1 !in old(inMst) && inMst == old(inMst) + {cursor - 1}
      ensures more ==> forall v: nat :: v < cursor - 1 ==> v in old(inMst)
      ensures !more ==> heap == multiset{} && inMst == Below(graph.n) && inMst == old(inMst)
    {
      Skip();
      more := cursor < graph.n;
      if more {
        StartRoot();
      } else {
        AllBelow(graph, Elems(yielded), inMst, settled, start);
      }
    }

    method StartRoot()
      requires Valid() && heap == multiset{} && cursor < graph.n && cursor !in inMst
      modifies this
      ensures Valid() && yielded == old(yielded) && cursor == old(cursor) + 1
      ensures inMst == old(inMst) + {old(cursor)}
    {
      ghost var inMst0, root := inMst, cursor;
      ghost var heap' := Grow();
      RootStep(graph, edgeWeight, Elems(yielded), inMst0, settled, start, root, heap');
      settled, start := inMst0, root;
    }

    /** Take the node at the cursor into the grown part. */
    method Grow() returns (ghost heap': Heap)
      requires graph.Valid() && cursor < graph.n && |edgeWeight| == |graph.ends| && heap == multiset{}
      requires forall v: nat :: v < cursor ==> v in inMst
      modifies this`inMst, this`heap, this`cursor
      ensures inMst == old(inMst) + {old(cursor)} && cursor == old(cursor) + 1 && heap' == heap
      ensures WithIncident(graph, edgeWeight, old(inMst) + {old(cursor)}, multiset{}, old(cursor), heap')
      ensures forall v: nat :: v < cursor ==> v in inMst
    {
      ghost var grown := inMst + {cursor};
      inMst := inMst + {cursor};
      AddIncidentEdges(cursor);
      heap' := heap;
      assert inMst == grown && WithIncident(graph, edgeWeight, grown, multiset{}, cursor, heap');
      cursor := cursor + 1;
    }

    method Skip()
      requires cursor <= graph.n && forall v: nat :: v < cursor ==> v in inMst
      modifies this`cursor
      ensures old(cursor) <= cursor <= graph.n && forall v: nat :: v < cursor ==> v in inMst
      ensures cursor < graph.n ==> cursor !in inMst
    {
      while cursor < graph.n && cursor in inMst
        invariant old(cursor) <= cursor <= graph.n && forall v: nat :: v < cursor ==> v in inMst
      {
        cursor := cursor + 1;
      }
    }
  }

  /** The iterator run to its end, with the sum `min_spanning_tree_weight` makes of it. */
  method SpanningTreeWeight(g: Digraph, weight: seq<int>) returns (edges: seq<nat>, total: int)
    requires g.Valid() && |weight| == |g.ends|
    ensures NoDup(edges) && IsMinimum(g, weight, Elems(edges)) && total == Sum(weight, Elems(edges))
  {
    var it := new MinSpanningTree(g, weight);
    edges, total := [], 0;
    assert Elems(edges) == {};
    SumEmpty(weight);
    var step: Option<nat> := Some(0);
    while step.Some?
      invariant it.Valid() && it.graph == g && it.edgeWeight == weight && fresh(it) && it.yielded == edges
      invariant total == Sum(weight, Elems(edges))
      invariant step.None? ==> IsMinimum(g, weight, Elems(edges))
      decreases |g.ends| - |edges|, step.Some?
    {
      step := it.Next();
      if step.Some? {
        AddedWeight(weight, edges, step.value, g);
        edges := edges + [step.value];
        total := total + weight[step.value];
      }
    }
  }

  lemma AddedWeight(weight: seq<int>, edges: seq<nat>, e: nat, g: Digraph)
    requires NoDup(edges + [e]) && |weight| == |g.ends| && Acyclic(g, Elems(edges + [e]))
    ensures e < |weight| && Sum(weight, Elems(edges + [e])) == Sum(weight, Elems(edges)) + weight[e]
    ensures |edges| < |g.ends|
  {
    var all := edges + [e];
    assert all[|edges|] == e && e in Elems(all);
    assert Elems(all) == Elems(edges) + {e};
    assert forall i :: 0 <= i < |edges| ==> all[i] == edges[i];
    assert e !in edges;
    SumUnion(weight, Elems(edges), {e});
    SumSingle(weight, e);
    ElemsCard(all);
    SubsetCard(Elems(all), Below(|g.ends|));
  }
}
