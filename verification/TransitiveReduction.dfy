/** Transitive reduction of an acyclic graph (`src/algo/tred.rs`). */
module TransitiveReduction {
  import opened Seqs
  import opened Vec
  import opened Graphs
  import opened Undirected

  /** Edge `f` is another way out of the tail of `e`, and leads on to its head. */
  ghost predicate Bypass(g: Digraph, e: nat, f: nat) {
    && e < |g.ends| && f < |g.ends| && f != e && g.ends[f].0 == g.ends[e].0
    && Reach(g.Arcs(), g.ends[f].1, g.ends[e].1)
  }

  ghost predicate IsKept(g: Digraph, e: nat) {
    e < |g.ends| && forall f: nat :: !Bypass(g, e, f)
  }

  ghost function Kept(g: Digraph): set<nat> {
    set e | 0 <= e < |g.ends| && IsKept(g, e)
  }

  // ----- the search -----

  /** Nodes found lead out only to nodes found, those on the stack perhaps aside. */
  ghost predicate Explored(g: Digraph, source: nat, target: nat, visited: set<nat>, stack: seq<nat>) {
    && g.Valid() && source in visited && target !in visited
    && (forall v :: v in visited ==> v < g.n && Reach(g.Arcs(), source, v))
    && (forall v :: v in stack ==> v in visited)
    && forall u, v {:trigger (u, v) in g.Arcs()} :: (u, v) in g.Arcs() && u in visited && u !in stack ==> v in visited
  }

  /** `can_reach`. */
  method CanReach(g: Digraph, source: nat, target: nat) returns (r: bool)
    requires g.Valid() && source < g.n
    ensures r <==> Reach(g.Arcs(), source, target)
  {
    ReachRefl(g.Arcs(), source);
    if source == target {
      return true;
    }
    var visited, stack := {source}, [source];
    while stack != []
      invariant Explored(g, source, target, visited, stack)
      decreases g.n - |visited|, |stack|
    {
      var node := stack[|stack| - 1];
      assert node in stack;
      ghost var visited0, stack0 := visited, stack;
      stack := stack[..|stack| - 1];
      var found;
      found, visited, stack := VisitSuccessors(g, source, target, node, visited, stack, visited0, stack0);
      if found {
        return true;
      }
    }
    r := false;
    if Reach(g.Arcs(), source, target) {
      assert Closed(g.Arcs(), visited);
      ReachStays(g.Arcs(), visited, source, target);
    }
  }

  method VisitSuccessors(g: Digraph, ghost source: nat, target: nat, node: nat, v0: set<nat>, s0: seq<nat>,
                         ghost visited0: set<nat>, ghost stack0: seq<nat>)
    returns (found: bool, visited: set<nat>, stack: seq<nat>)
    requires Explored(g, source, target, visited0, stack0) && stack0 == s0 + [node] && v0 == visited0
    ensures found ==> Reach(g.Arcs(), source, target)
    ensures !found ==> Explored(g, source, target, visited, stack)
    ensures !found ==> |visited0| < |visited| <= g.n || (visited == visited0 && |stack| < |stack0|)
  {
    visited, stack, found := v0, s0, false;
    assert node in stack0;
    var succs := g.Succs(node);
    var i := 0;
    while i < |succs|
      invariant 0 <= i <= |succs| && !found
      invariant visited0 <= visited && target !in visited && s0 <= stack
      invariant forall v :: v in visited ==> v < g.n && Reach(g.Arcs(), source, v)
      invariant forall v :: v in stack ==> v in visited
      invariant forall v :: v in visited && v !in visited0 ==> v in stack
      invariant forall k :: 0 <= k < i ==> succs[k] in visited
      invariant if visited == visited0 then stack == s0 else |visited0| < |visited|
    {
      var succ := succs[i];
      assert succ in succs;
      SuccIff(g, node, succ);
      ReachStep(g.Arcs(), source, node, succ);
      if succ == target {
        found := true;
        return;
      }
      if succ !in visited {
        SubsetCard(visited0, visited);
        ghost var before := visited;
        visited := visited + {succ};
        assert |visited| == |before| + 1;
        stack := stack + [succ];
      }
      i := i + 1;
    }
    SubsetCard(visited, Below(g.n));
    forall u, v | (u, v) in g.Arcs() && u in visited && u !in stack ensures v in visited {
      if u == node {
        SuccIff(g, node, v);
      } else {
        assert forall x :: x in s0 ==> x in stack;
        assert u !in stack0;
      }
    }
  }

  // ----- the iterator -----

  class DagTransitiveReduction {
    const graph: Digraph
    var cursor: nat
    ghost var yielded: seq<nat>

    ghost predicate Valid()
      reads this
    {
      && graph.Valid() && cursor <= |graph.ends| && Upward(yielded)
      && forall e: nat :: e in yielded <==> e < cursor && IsKept(graph, e)
    }

    constructor (g: Digraph)
      requires g.Valid()
      ensures Valid() && graph == g && yielded == []
    {
      graph, cursor, yielded := g, 0, [];
    }

    /** The next edge to keep, in the order of edges. */
    method Next() returns (edge: Option<nat>)
      requires Valid()
      modifies this
      ensures Valid() && cursor >= old(cursor)
      ensures edge.Some? ==> old(cursor) <= edge.value && cursor == edge.value + 1
      ensures forall e: nat :: old(cursor) <= e < cursor && Some(e) != edge ==> !IsKept(graph, e)
      ensures edge.Some? ==> IsKept(graph, edge.value) && yielded == old(yielded) + [edge.value] && cursor > old(cursor)
      ensures edge.None? ==> yielded == old(yielded) && Elems(yielded) == Kept(graph)
    {
      while cursor < |graph.ends|
        invariant Valid() && yielded == old(yielded) && cursor >= old(cursor)
        invariant forall e: nat :: old(cursor) <= e < cursor ==> !IsKept(graph, e)
      {
        var e := cursor;
        var redundant := ReachableViaOther(graph, e);
        cursor := cursor + 1;
        if !redundant {
          assert forall k :: 0 <= k < |yielded| ==> yielded[k] in yielded;
          yielded := yielded + [e];
          return Some(e);
        }
      }
      edge := None;
    }
  }

  /** Does another edge out of the tail lead on to the head? */
  method ReachableViaOther(g: Digraph, e: nat) returns (r: bool)
    requires g.Valid() && e < |g.ends|
    ensures r <==> !IsKept(g, e)
  {
    var (tail, head) := g.ends[e];
    var edges := g.outs[tail];
    assert g.Lists(edges, tail, true);
    var i := 0;
    while i < |edges|
      invariant 0 <= i <= |edges|
      invariant forall k :: 0 <= k < i ==> !Bypass(g, e, edges[k])
    {
      var other := edges[i];
      if other != e {
        var reaches := CanReach(g, g.ends[other].1, head);
        if reaches {
          assert Bypass(g, e, other);
          return true;
        }
      }
      i := i + 1;
    }
    r := false;
    forall f: nat ensures !Bypass(g, e, f) {
      if f < |g.ends| && g.ends[f].0 == tail {
        assert f in edges;
      }
    }
  }

  /** The iterator run to its end. */
  method Reduction(g: Digraph) returns (kept: seq<nat>)
    requires g.Valid()
    ensures Upward(kept) && Elems(kept) == Kept(g)
  {
    var it := new DagTransitiveReduction(g);
    kept := [];
    var step: Option<nat> := Some(0);
    while step.Some?
      invariant it.Valid() && it.graph == g && fresh(it) && it.yielded == kept
      invariant step.None? ==> Elems(kept) == Kept(g)
      decreases step.Some?, |g.ends| - it.cursor
    {
      step := it.Next();
      if step.Some? {
        kept := kept + [step.value];
      }
    }
  }

  // ----- what is kept suffices -----

  /** Two edges with the same ends. */
  ghost predicate Parallel(g: Digraph, e: nat, f: nat) {
    e < |g.ends| && f < |g.ends| && e != f && g.ends[e] == g.ends[f]
  }

  /** A way from the tail of `e` to its head through another node. */
  ghost predicate Detour(g: Digraph, e: nat, x: nat) {
    e < |g.ends| && x != g.ends[e].1 && (g.ends[e].0, x) in g.Arcs() && Reach(g.Arcs(), x, g.ends[e].1)
  }

  /** Parallel edges, wherever there are any, also have a longer way round. */
  ghost predicate ParallelsDispensable(g: Digraph) {
    forall e: nat, f: nat {:trigger Parallel(g, e, f)} :: Parallel(g, e, f) ==> exists x :: Detour(g, e, x)
  }

  ghost predicate SameReachability(g: Digraph) {
    forall u: nat, v: nat {:trigger Reach(ArcsOf(g, Kept(g)), u, v)} :: Reach(g.Arcs(), u, v) <==>
      Reach(ArcsOf(g, Kept(g)), u, v)
  }

  ghost function Between(g: Digraph, u: nat, v: nat): set<nat> {
    set z | z in Below(g.n) && Reach(g.Arcs(), u, z) && Reach(g.Arcs(), z, v)
  }

  lemma BetweenShrinks(g: Digraph, u: nat, x: nat, v: nat)
    requires g.Valid() && IsDag(g) && u < g.n && v < g.n && x != v && (u, x) in g.Arcs() && Reach(g.Arcs(), x, v)
    ensures |Between(g, u, x)| < |Between(g, u, v)| && |Between(g, x, v)| < |Between(g, u, v)|
  {
    var r := g.Arcs();
    ReachEdge(r, u, x);
    ReachTrans(r, u, x, v);
    ReachRefl(r, u);
    ReachRefl(r, v);
    assert u in Between(g, u, v) && v in Between(g, u, v);
    BackAndForth(g, x, v);
    forall z | z in Between(g, u, x) ensures z in Between(g, u, v) && z != v {
      ReachTrans(r, z, x, v);
    }
    forall z | z in Between(g, x, v) ensures z in Between(g, u, v) && z != u {
      ReachTrans(r, u, x, z);
    }
    SubsetCard(Between(g, u, x), Between(g, u, v) - {v});
    SubsetCard(Between(g, x, v), Between(g, u, v) - {u});
  }

  /** In an acyclic graph two different nodes do not reach each other. */
  lemma BackAndForth(g: Digraph, x: nat, v: nat)
    requires IsDag(g) && x != v && Reach(g.Arcs(), x, v)
    ensures !Reach(g.Arcs(), v, x)
  {
    var y := FirstStep(g.Arcs(), x, v);
    if Reach(g.Arcs(), v, x) {
      ReachTrans(g.Arcs(), y, v, x);
    }
  }

  lemma FirstStep(r: Rel, u: nat, v: nat) returns (y: nat)
    requires Reach(r, u, v) && u != v
    ensures (u, y) in r && Reach(r, y, v)
  {
    var p :| PathFrom(r, p, u, v);
    y := p[1];
    assert (p[0], p[1]) in r;
    assert PathFrom(r, p[1..], y, v);
  }

  lemma {:induction false} KeptReaches(g: Digraph, u: nat, v: nat)
    requires g.Valid() && IsDag(g) && ParallelsDispensable(g) && u < g.n && Reach(g.Arcs(), u, v)
    ensures Reach(ArcsOf(g, Kept(g)), u, v)
    decreases |Between(g, u, v)|
  {
    var r, k := g.Arcs(), ArcsOf(g, Kept(g));
    ReachBounds(g, u, v);
    if u == v {
      ReachRefl(k, u);
    } else {
      var y := FirstStep(r, u, v);
      ArcBounds(g, u, y);
      var x := y;
      if y == v {
        var e: nat :| e < |g.ends| && g.ends[e] == (u, v);
        if IsKept(g, e) {
          assert g.ends[e] in k;
          ReachEdge(k, u, v);
          return;
        }
        x := OtherWay(g, e);
        ArcBounds(g, u, x);
      }
      BetweenShrinks(g, u, x, v);
      ReachEdge(r, u, x);
      KeptReaches(g, u, x);
      KeptReaches(g, x, v);
      ReachTrans(k, u, x, v);
    }
  }

  /** A dropped edge has a way round it through another node. */
  lemma OtherWay(g: Digraph, e: nat) returns (x: nat)
    requires ParallelsDispensable(g) && e < |g.ends| && !IsKept(g, e)
    ensures Detour(g, e, x)
  {
    var f: nat :| Bypass(g, e, f);
    assert g.ends[f] in g.ends;
    x := g.ends[f].1;
    if x == g.ends[e].1 {
      assert Parallel(g, e, f);
      x :| Detour(g, e, x);
    }
  }

  lemma KeptWithin(g: Digraph)
    ensures ArcsOf(g, Kept(g)) <= g.Arcs()
  {
  }

  /** If the kept edges reach as much as all edges, every parallel pair has a way round. */
  lemma KeptNeedsDetour(g: Digraph, e: nat, f: nat) returns (x: nat)
    requires g.Valid() && IsDag(g) && SameReachability(g) && Parallel(g, e, f)
    ensures Detour(g, e, x)
  {
    var (u, v) := g.ends[e];
    var r, k := g.Arcs(), ArcsOf(g, Kept(g));
    assert (u, v) in r;
    ReachEdge(r, u, v);
    ReachRefl(r, v);
    if u == v {
      assert false;
    }
    assert Reach(k, u, v);
    x := FirstStep(k, u, v);
    KeptWithin(g);
    ReachMono(k, r, x, v);
    if x == v {
      var d: nat :| d in Kept(g) && d < |g.ends| && g.ends[d] == (u, v);
      assert Bypass(g, d, if d == e then f else e);
    }
  }

  /** On an acyclic graph the kept edges have the reachability of all edges exactly when parallel
      edges are dispensable; in particular when there are none. */
  lemma ReductionKeepsReachability(g: Digraph)
    requires g.Valid() && IsDag(g)
    ensures SameReachability(g) <==> ParallelsDispensable(g)
    ensures g.EdgeSimple() ==> SameReachability(g)
  {
    KeptWithin(g);
    if ParallelsDispensable(g) {
      forall u: nat, v: nat ensures Reach(g.Arcs(), u, v) <==> Reach(ArcsOf(g, Kept(g)), u, v) {
        if Reach(ArcsOf(g, Kept(g)), u, v) {
          ReachMono(ArcsOf(g, Kept(g)), g.Arcs(), u, v);
        }
        if Reach(g.Arcs(), u, v) {
          if u < g.n {
            KeptReaches(g, u, v);
          } else {
            StuckOutside(g, u, v);
            ReachRefl(ArcsOf(g, Kept(g)), u);
          }
        }
      }
    }
    if SameReachability(g) {
      forall e: nat, f: nat | Parallel(g, e, f) ensures exists x :: Detour(g, e, x) {
        var x := KeptNeedsDetour(g, e, f);
      }
    }
    if g.EdgeSimple() {
      forall e: nat, f: nat ensures !Parallel(g, e, f) {
      }
    }
  }

  lemma StuckOutside(g: Digraph, u: nat, v: nat)
    requires g.Valid() && u >= g.n && Reach(g.Arcs(), u, v)
    ensures v == u
  {
    if u != v {
      var y := FirstStep(g.Arcs(), u, v);
      ArcBounds(g, u, y);
    }
  }

  /** No kept edge can be spared: without it even all other edges do not join its ends. */
  lemma KeptIsNeeded(g: Digraph, e: nat)
    requires g.Valid() && IsDag(g) && IsKept(g, e)
    ensures !Reach(ArcsOf(g, Edges(g) - {e}), g.ends[e].0, g.ends[e].1)
  {
    var (u, v) := g.ends[e];
    var r := ArcsOf(g, Edges(g) - {e});
    assert (u, v) in g.Arcs();
    ReachRefl(g.Arcs(), u);
    if Reach(r, u, v) {
      var y := FirstStep(r, u, v);
      var f: nat :| f in Edges(g) - {e} && f < |g.ends| && g.ends[f] == (u, y);
      ReachMono(r, g.Arcs(), y, v);
      assert Bypass(g, e, f);
    }
  }

  // ----- parallel edges defeat it -----

  function Twins(): Digraph {
    Digraph(2, [(0, 1), (0, 1)], [[0, 1], []], [[], [0, 1]])
  }

  lemma TwinsValid()
    ensures Twins().Valid() && IsDag(Twins())
  {
    var g := Twins();
    assert g.Valid();
    forall u: nat, v: nat | (u, v) in g.Arcs() ensures !Reach(g.Arcs(), v, u) {
      if Reach(g.Arcs(), 1, 0) {
        ReachStays(g.Arcs(), {1}, 1, 0);
      }
    }
  }

  /** Of two parallel edges that nothing else replaces, neither is kept. */
  lemma TwinsAreLost()
    ensures Twins().Valid() && IsDag(Twins()) && Kept(Twins()) == {} && !SameReachability(Twins())
  {
    var g := Twins();
    TwinsValid();
    ReachRefl(g.Arcs(), 1);
    assert Bypass(g, 0, 1) && Bypass(g, 1, 0);
    assert g.ends[0] == (0, 1);
    ReachEdge(g.Arcs(), 0, 1);
    if Reach(ArcsOf(g, Kept(g)), 0, 1) {
      ReachStays(ArcsOf(g, Kept(g)), {0}, 0, 1);
    }
  }
}
