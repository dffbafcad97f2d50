/** Matchings of an undirected multigraph (`src/algo/matching.rs`): the greedy iterator and the
    augmenting-path search. */
module Matching {
  import opened Seqs
  import opened Vec
  import opened Graphs
  import opened Undirected

  // ----- matchings -----

  ghost predicate Touches(g: Digraph, e: nat, v: nat) {
    e < |g.ends| && (g.ends[e].0 == v || g.ends[e].1 == v)
  }

  /** No loops, and no two edges share a node. */
  ghost predicate IsMatching(g: Digraph, m: set<nat>) {
    && (forall e {:trigger e in m} :: e in m ==> e < |g.ends| && g.ends[e].0 != g.ends[e].1)
    && forall e, f, v: nat {:trigger Touches(g, e, v), Touches(g, f, v)} ::
         e in m && f in m && Touches(g, e, v) && Touches(g, f, v) ==> e == f
  }

  ghost predicate IsMaximum(g: Digraph, m: set<nat>) {
    IsMatching(g, m) && forall m': set<nat> :: IsMatching(g, m') ==> |m'| <= |m|
  }

  ghost predicate IsMaximal(g: Digraph, m: set<nat>) {
    IsMatching(g, m) && forall e: nat :: e < |g.ends| && e !in m ==> !IsMatching(g, m + {e})
  }

  ghost predicate Covered(g: Digraph, m: set<nat>, v: nat) {
    exists e: nat :: e in m && Touches(g, e, v)
  }

  /** Every edge but a loop has an end the matching covers. */
  ghost predicate LeavesNone(g: Digraph, m: set<nat>) {
    forall e: nat {:trigger g.ends[e]} ::
      e < |g.ends| && g.ends[e].0 != g.ends[e].1 ==> Covered(g, m, g.ends[e].0) || Covered(g, m, g.ends[e].1)
  }

  ghost predicate Shares(g: Digraph, f: nat, e: nat) {
    exists v: nat :: Touches(g, f, v) && Touches(g, e, v)
  }

  /** Edge `e` is no loop and shares no end with an edge of `m` before it. */
  ghost predicate IsPicked(g: Digraph, m: set<nat>, e: nat) {
    && e < |g.ends| && g.ends[e].0 != g.ends[e].1
    && forall f {:trigger f in m} :: f in m && f < e ==> !Shares(g, f, e)
  }

  /** Of the first `n` edges `m` has those that were free when their turn came, and no others. */
  ghost predicate IsGreedy(g: Digraph, m: set<nat>, n: nat) {
    forall e: nat {:trigger e in m} :: e in m <==> e < n && IsPicked(g, m, e)
  }

  /** That leaves no choice. */
  lemma {:induction false} GreedyUnique(g: Digraph, m: set<nat>, m': set<nat>, n: nat, e: nat)
    requires IsGreedy(g, m, n) && IsGreedy(g, m', n)
    ensures e in m <==> e in m'
    decreases e
  {
    forall f: nat | f < e ensures f in m <==> f in m' {
      GreedyUnique(g, m, m', n, f);
    }
    assert IsPicked(g, m, e) <==> IsPicked(g, m', e);
  }

  lemma GreedyNext(g: Digraph, m: set<nat>, n: nat)
    requires IsGreedy(g, m, n) && n < |g.ends|
    ensures var picked := g.ends[n].0 != g.ends[n].1 && !Covered(g, m, g.ends[n].0) && !Covered(g, m, g.ends[n].1);
            IsGreedy(g, if picked then m + {n} else m, n + 1)
  {
    var (a, b) := g.ends[n];
    var picked := a != b && !Covered(g, m, a) && !Covered(g, m, b);
    var m' := if picked then m + {n} else m;
    forall f | f in m ensures Shares(g, f, n) <==> Touches(g, f, a) || Touches(g, f, b) {
      assert Touches(g, n, a) && Touches(g, n, b);
    }
    assert IsPicked(g, m, n) <==> picked;
    forall e: nat ensures e in m' <==> e < n + 1 && IsPicked(g, m', e) {
      assert e <= n ==> (IsPicked(g, m', e) <==> IsPicked(g, m, e));
    }
  }

  lemma MaximalIff(g: Digraph, m: set<nat>)
    requires IsMatching(g, m)
    ensures IsMaximal(g, m) <==> LeavesNone(g, m)
  {
    forall e: nat | e < |g.ends| && e !in m
      ensures IsMatching(g, m + {e}) <==>
              g.ends[e].0 != g.ends[e].1 && !Covered(g, m, g.ends[e].0) && !Covered(g, m, g.ends[e].1)
    {
      AddEdge(g, m, e);
    }
    forall e: nat | e in m ensures Covered(g, m, g.ends[e].0) {
      assert Touches(g, e, g.ends[e].0);
    }
  }

  lemma AddEdge(g: Digraph, m: set<nat>, e: nat)
    requires IsMatching(g, m) && e < |g.ends| && e !in m
    ensures IsMatching(g, m + {e}) <==>
            g.ends[e].0 != g.ends[e].1 && !Covered(g, m, g.ends[e].0) && !Covered(g, m, g.ends[e].1)
  {
    var (a, b) := g.ends[e];
    var m' := m + {e};
    assert e in m' && Touches(g, e, a) && Touches(g, e, b);
    assert forall f: nat, v: nat {:trigger Touches(g, f, v)} :: f in m && Touches(g, f, v) ==> Covered(g, m, v);
  }

  /** Nodes the edges of `m` touch. */
  ghost function Touched(g: Digraph, m: set<nat>): set<nat> {
    set e, v | e in m && e < |g.ends| && v in {g.ends[e].0, g.ends[e].1} && Touches(g, e, v) :: v
  }

  lemma {:induction false} TouchedCard(g: Digraph, m: set<nat>)
    ensures |Touched(g, m)| <= 2 * |m|
    decreases |m|
  {
    if e :| e in m {
      TouchedCard(g, m - {e});
      var rest, two := Touched(g, m - {e}), if e < |g.ends| then {g.ends[e].0, g.ends[e].1} else {};
      forall v | v in Touched(g, m) ensures v in rest + two {
        var f: nat :| f in m && Touches(g, f, v);
        assert f != e ==> f in m - {e};
      }
      SubsetCard(Touched(g, m), rest + two);
      assert |two| <= 2;
    } else {
      assert Touched(g, m) == {};
    }
  }

  ghost function CoveredEnd(g: Digraph, m: set<nat>, e: nat): nat
    requires e < |g.ends|
  {
    if Covered(g, m, g.ends[e].0) then g.ends[e].0 else g.ends[e].1
  }

  /** A maximal matching has at least half as many edges as any other. */
  lemma HalfBound(g: Digraph, m: set<nat>, m': set<nat>)
    requires IsMaximal(g, m) && IsMatching(g, m')
    ensures |m'| <= 2 * |m|
  {
    MaximalIff(g, m);
    var f := map e | e in m' :: CoveredEnd(g, m, e);
    forall e | e in f ensures f[e] in Touched(g, m) && Touches(g, e, f[e]) {
      var x: nat :| x in m && Touches(g, x, f[e]);
    }
    InjectionCard(f, Touched(g, m));
    assert f.Keys == m';
    TouchedCard(g, m);
  }

  type Mates = map<nat, (nat, nat)>

  /** The edges a table names. */
  ghost function Chosen(mates: Mates): set<nat> {
    set v | v in mates :: mates[v].0
  }

  /** The table gives each covered node its matching edge and the node at the far end. */
  ghost predicate TableOk(g: Digraph, m: set<nat>, mates: Mates) {
    && (forall v {:trigger v in mates} :: v in mates ==> mates[v].0 in m && Joins(g, mates[v].0, v, mates[v].1))
    && (forall e, v: nat {:trigger Touches(g, e, v)} :: e in m && Touches(g, e, v) ==> v in mates)
  }

  lemma MateUnique(g: Digraph, m: set<nat>, mates: Mates, e: nat, v: nat, w: nat)
    requires IsMatching(g, m) && TableOk(g, m, mates) && e in m && Joins(g, e, v, w)
    ensures v in mates && mates[v] == (e, w) && w in mates && mates[w] == (e, v)
  {
    assert Touches(g, e, v) && Touches(g, e, w);
    assert Touches(g, mates[v].0, v) && Touches(g, mates[w].0, w);
  }

  // ----- augmenting paths -----

  /** The steps alternate between edges outside and inside the matching and run along distinct
      nodes `p` from one free node to another. */
  ghost predicate IsAugmenting(g: Digraph, m: set<nat>, mates: Mates, path: seq<(nat, bool)>, p: seq<nat>) {
    && |p| == |path| + 1 && |path| % 2 == 1 && NoDup(p)
    && p[0] !in mates && p[|p| - 1] !in mates
    && forall i: nat {:trigger PathStep(g, m, path, p, i)} :: i < |path| ==> PathStep(g, m, path, p, i)
  }

  ghost predicate PathStep(g: Digraph, m: set<nat>, path: seq<(nat, bool)>, p: seq<nat>, i: nat) {
    && i < |path| && i + 1 < |p| && Joins(g, path[i].0, p[i], p[i + 1])
    && path[i].1 == (i % 2 == 1) && (path[i].0 in m <==> path[i].1)
  }

  /** Matching after the first `i` steps have been toggled. */
  ghost predicate Toggled(m: set<nat>, path: seq<(nat, bool)>, i: nat, m': set<nat>)
    requires i <= |path|
  {
    forall e: nat {:trigger e in m'} :: e in m' <==>
      (e in m && !Along(path, i, e, true)) || Along(path, i, e, false)
  }

  ghost predicate Along(path: seq<(nat, bool)>, i: nat, e: nat, flag: bool)
    requires i <= |path|
  {
    exists j: nat :: j < i && path[j] == (e, flag)
  }

  lemma StepsDistinct(g: Digraph, m: set<nat>, mates: Mates, path: seq<(nat, bool)>, p: seq<nat>, i: nat, j: nat)
    requires IsAugmenting(g, m, mates, path, p) && i < j < |path|
    ensures path[i].0 != path[j].0
  {
    assert PathStep(g, m, path, p, i) && PathStep(g, m, path, p, j);
    assert p[i] != p[j] && p[i] != p[j + 1];
  }

  lemma AlongNext(path: seq<(nat, bool)>, i: nat, e: nat, flag: bool)
    requires i < |path|
    ensures Along(path, i + 1, e, flag) <==> Along(path, i, e, flag) || path[i] == (e, flag)
  {
  }

  lemma ToggleNext(g: Digraph, m: set<nat>, mates: Mates, path: seq<(nat, bool)>, p: seq<nat>, i: nat, m': set<nat>)
    requires IsAugmenting(g, m, mates, path, p) && i < |path| && Toggled(m, path, i, m')
    ensures var m'' := if path[i].1 then m' - {path[i].0} else m' + {path[i].0};
            && Toggled(m, path, i + 1, m'')
            && |m''| == if path[i].1 then |m'| - 1 else |m'| + 1
  {
    var (x, flag) := path[i];
    assert PathStep(g, m, path, p, i);
    forall j: nat | j < i ensures path[j].0 != x {
      StepsDistinct(g, m, mates, path, p, j, i);
    }
    assert !Along(path, i, x, true) && !Along(path, i, x, false);
    forall e: nat ensures Along(path, i + 1, e, true) <==> Along(path, i, e, true) || path[i] == (e, true) {
      AlongNext(path, i, e, true);
    }
    forall e: nat ensures Along(path, i + 1, e, false) <==> Along(path, i, e, false) || path[i] == (e, false) {
      AlongNext(path, i, e, false);
    }
  }

  /** Toggling a whole augmenting path leaves a matching. */
  lemma ToggledMatching(g: Digraph, m: set<nat>, mates: Mates, path: seq<(nat, bool)>, p: seq<nat>, m': set<nat>)
    requires IsMatching(g, m) && TableOk(g, m, mates) && IsAugmenting(g, m, mates, path, p)
    requires Toggled(m, path, |path|, m')
    ensures IsMatching(g, m')
  {
    forall e | e in m' ensures e < |g.ends| && g.ends[e].0 != g.ends[e].1 {
      if Along(path, |path|, e, false) {
        var j: nat :| j < |path| && path[j] == (e, false);
        assert PathStep(g, m, path, p, j);
      }
    }
    forall e, f, v: nat | e in m' && f in m' && Touches(g, e, v) && Touches(g, f, v) ensures e == f {
      if Along(path, |path|, e, false) && Along(path, |path|, f, false) {
        NewEdgesApart(g, m, mates, path, p, e, f, v);
      } else if Along(path, |path|, e, false) {
        NewAndKept(g, m, mates, path, p, e, f, v);
      } else if Along(path, |path|, f, false) {
        NewAndKept(g, m, mates, path, p, f, e, v);
      }
    }
  }

  /** Nodes covered before a toggle are covered after it. */
  lemma ToggleKeepsCover(g: Digraph, m: set<nat>, mates: Mates, path: seq<(nat, bool)>, p: seq<nat>, m': set<nat>,
                         v: nat)
    requires IsAugmenting(g, m, mates, path, p) && Toggled(m, path, |path|, m') && Covered(g, m, v)
    ensures Covered(g, m', v)
  {
    var e: nat :| e in m && Touches(g, e, v);
    if Along(path, |path|, e, true) {
      var j: nat :| j < |path| && path[j] == (e, true);
      assert PathStep(g, m, path, p, j);
      var i := if v == p[j] then j - 1 else j + 1;
      assert PathStep(g, m, path, p, i);
      assert Along(path, |path|, path[i].0, false);
      assert Touches(g, path[i].0, v);
    } else {
      assert e in m';
    }
  }

  lemma NewEdgesApart(g: Digraph, m: set<nat>, mates: Mates, path: seq<(nat, bool)>, p: seq<nat>, e: nat, f: nat,
                      v: nat)
    requires IsAugmenting(g, m, mates, path, p) && Along(path, |path|, e, false) && Along(path, |path|, f, false)
    requires Touches(g, e, v) && Touches(g, f, v)
    ensures e == f
  {
    var i: nat :| i < |path| && path[i] == (e, false);
    var j: nat :| j < |path| && path[j] == (f, false);
    assert PathStep(g, m, path, p, i) && PathStep(g, m, path, p, j);
    assert v == p[i] || v == p[i + 1];
    assert v == p[j] || v == p[j + 1];
    assert i == j || i + 1 == j || j + 1 == i;
  }

  /** A new edge ends at free nodes or at nodes whose matching edge the path took away. */
  lemma NewAndKept(g: Digraph, m: set<nat>, mates: Mates, path: seq<(nat, bool)>, p: seq<nat>, e: nat, f: nat, v: nat)
    requires IsMatching(g, m) && TableOk(g, m, mates) && IsAugmenting(g, m, mates, path, p)
    requires Along(path, |path|, e, false) && f in m && Touches(g, e, v) && Touches(g, f, v)
    ensures Along(path, |path|, f, true)
  {
    var i: nat :| i < |path| && path[i] == (e, false);
    assert PathStep(g, m, path, p, i);
    assert v in mates;
    var j: int := if v == p[i] then i - 1 else i + 1;
    assert 0 <= j < |path|;
    assert PathStep(g, m, path, p, j);
    assert Touches(g, path[j].0, v);
    assert path[j] == (f, true);
  }

  // ----- bipartite graphs -----

  /** Every edge other than a loop has just one end in `left`. */
  ghost predicate Bipartition(g: Digraph, left: set<nat>) {
    forall e: nat {:trigger g.ends[e]} ::
      e < |g.ends| && g.ends[e].0 != g.ends[e].1 ==> (g.ends[e].0 in left) != (g.ends[e].1 in left)
  }

  ghost predicate SameSide(left: set<nat>, u: nat, v: nat) {
    (u in left) == (v in left)
  }

  /** What a failed search from `start` leaves: a set `seen` of nodes, `outer` those it came to
      over matching edges, out of which no alternating step leads. */
  ghost predicate Stuck(g: Digraph, m: set<nat>, mates: Mates, start: nat, seen: set<nat>, outer: set<nat>) {
    && start in outer && outer <= seen
    && (forall e: nat, v: nat, w: nat {:trigger Joins(g, e, v, w)} :: Joins(g, e, v, w) && v in outer && e !in m ==>
          w in seen)
    && (forall v {:trigger v in seen} :: v in seen && v != start ==> v in mates && mates[v].1 in seen)
    && (forall left: set<nat>, v: nat {:trigger SameSide(left, start, v)} ::
          Bipartition(g, left) && v in seen ==> (v in outer <==> SameSide(left, start, v)))
  }

  ghost predicate NoWayFrom(g: Digraph, m: set<nat>, mates: Mates, start: nat) {
    exists seen: set<nat>, outer: set<nat> :: Stuck(g, m, mates, start, seen, outer)
  }

  /** Nodes some failed search from the left side came to. */
  ghost predicate Met(g: Digraph, m: set<nat>, mates: Mates, left: set<nat>, v: nat) {
    exists start: nat, seen: set<nat>, outer: set<nat> :: MetBy(g, m, mates, left, v, start, seen, outer)
  }

  ghost predicate MetBy(g: Digraph, m: set<nat>, mates: Mates, left: set<nat>, v: nat, start: nat, seen: set<nat>,
                        outer: set<nat>)
  {
    start in left && start !in mates && Stuck(g, m, mates, start, seen, outer) && v in seen
  }

  /** A node of the cover: on the left and not met, or on the right and met. */
  ghost predicate Covers(g: Digraph, m: set<nat>, mates: Mates, left: set<nat>, v: nat) {
    (v in left) != Met(g, m, mates, left, v)
  }

  lemma MetMatesMet(g: Digraph, m: set<nat>, mates: Mates, left: set<nat>, v: nat)
    requires v in mates && Met(g, m, mates, left, v)
    ensures Met(g, m, mates, left, mates[v].1)
  {
    var start: nat, seen: set<nat>, outer: set<nat> :| MetBy(g, m, mates, left, v, start, seen, outer);
    assert MetBy(g, m, mates, left, mates[v].1, start, seen, outer);
  }

  /** Every edge has an end in the cover. */
  lemma EdgeIsCovered(g: Digraph, m: set<nat>, mates: Mates, left: set<nat>, e: nat) returns (v: nat)
    requires Bipartition(g, left) && IsMatching(g, m) && TableOk(g, m, mates)
    requires e < |g.ends| && g.ends[e].0 != g.ends[e].1
    ensures Touches(g, e, v) && Covers(g, m, mates, left, v)
  {
    var (a, b) := g.ends[e];
    var l, r := if a in left then a else b, if a in left then b else a;
    assert Joins(g, e, l, r);
    if Met(g, m, mates, left, l) {
      v := r;
      if e in m {
        MateUnique(g, m, mates, e, l, r);
        MetMatesMet(g, m, mates, left, l);
      } else {
        var start: nat, seen: set<nat>, outer: set<nat> :| MetBy(g, m, mates, left, l, start, seen, outer);
        assert SameSide(left, start, l);
        assert MetBy(g, m, mates, left, r, start, seen, outer);
      }
    } else {
      v := l;
    }
  }

  /** Every node of the cover is matched, when no search from a free node found a path. */
  lemma CoverIsMatched(g: Digraph, m: set<nat>, mates: Mates, left: set<nat>, v: nat)
    requires Bipartition(g, left) && Covers(g, m, mates, left, v)
    requires v !in mates ==> NoWayFrom(g, m, mates, v)
    ensures v in mates
  {
    if v !in mates {
      if v in left {
        var seen: set<nat>, outer: set<nat> :| Stuck(g, m, mates, v, seen, outer);
        assert MetBy(g, m, mates, left, v, v, seen, outer);
      }
      assert false;
    }
  }

  /** No matching edge has both ends in the cover. */
  lemma CoverOncePerEdge(g: Digraph, m: set<nat>, mates: Mates, left: set<nat>, v: nat, w: nat)
    requires Bipartition(g, left) && IsMatching(g, m) && TableOk(g, m, mates)
    requires v in mates && w in mates && mates[v].0 == mates[w].0
    requires Covers(g, m, mates, left, v) && Covers(g, m, mates, left, w)
    ensures v == w
  {
    if v != w {
      var e := mates[v].0;
      assert Joins(g, e, v, mates[v].1) && Joins(g, e, w, mates[w].1);
      assert mates[v].1 == w && mates[w].1 == v;
      if Met(g, m, mates, left, v) {
        MetMatesMet(g, m, mates, left, v);
      }
      if Met(g, m, mates, left, w) {
        MetMatesMet(g, m, mates, left, w);
      }
    }
  }

  lemma {:induction false} InjectionCard(f: map<nat, nat>, target: set<nat>)
    requires forall x :: x in f ==> f[x] in target
    requires forall x, y :: x in f && y in f && x != y ==> f[x] != f[y]
    ensures |f| <= |target|
    decreases |f|
  {
    if f != map[] {
      var x :| x in f;
      InjectionCard(f - {x}, target - {f[x]});
      assert (f - {x}).Keys == f.Keys - {x};
    }
  }

  /** On a bipartite graph, a matching with no way on from any free node is maximum. */
  lemma StuckIsMaximum(g: Digraph, m: set<nat>, mates: Mates, left: set<nat>)
    requires g.Valid() && Bipartition(g, left) && IsMatching(g, m) && TableOk(g, m, mates)
    requires forall v: nat :: v < g.n && v !in mates ==> NoWayFrom(g, m, mates, v)
    ensures IsMaximum(g, m)
  {
    forall m': set<nat> | IsMatching(g, m') ensures |m'| <= |m| {
      var f := CoverMap(g, m, mates, left, m');
      InjectionCard(f, m);
      assert f.Keys == m';
    }
  }

  /** Each edge of the other matching sent to the matching edge at one of its cover nodes. */
  ghost predicate Sent(g: Digraph, m: set<nat>, mates: Mates, left: set<nat>, e: nat, x: nat, v: nat) {
    Touches(g, e, v) && Covers(g, m, mates, left, v) && v in mates && mates[v].0 == x
  }

  lemma {:induction false} CoverMap(g: Digraph, m: set<nat>, mates: Mates, left: set<nat>, m': set<nat>)
    returns (f: map<nat, nat>)
    requires g.Valid() && Bipartition(g, left) && IsMatching(g, m) && TableOk(g, m, mates) && IsMatching(g, m')
    requires forall v: nat :: v < g.n && v !in mates ==> NoWayFrom(g, m, mates, v)
    ensures f.Keys == m' && forall x :: x in f ==> f[x] in m
    ensures forall x, y :: x in f && y in f && x != y ==> f[x] != f[y]
  {
    f := map[];
    var rest := m';
    while rest != {}
      invariant rest <= m' && f.Keys == m' - rest
      invariant forall x {:trigger f[x]} :: x in f ==> f[x] in m && exists v: nat :: Sent(g, m, mates, left, x, f[x], v)
      decreases |rest|
    {
      var e :| e in rest;
      var v := EdgeIsCovered(g, m, mates, left, e);
      CoverIsMatched(g, m, mates, left, v);
      assert Sent(g, m, mates, left, e, mates[v].0, v);
      f := f[e := mates[v].0];
      rest := rest - {e};
    }
    forall x, y | x in f && y in f && x != y ensures f[x] != f[y] {
      var v: nat :| Sent(g, m, mates, left, x, f[x], v);
      var w: nat :| Sent(g, m, mates, left, y, f[y], w);
      SentApart(g, m, mates, left, m', x, y, f[x], f[y], v, w);
    }
  }

  lemma SentApart(g: Digraph, m: set<nat>, mates: Mates, left: set<nat>, m': set<nat>, x: nat, y: nat, a: nat, b: nat,
                  v: nat, w: nat)
    requires g.Valid() && Bipartition(g, left) && IsMatching(g, m) && TableOk(g, m, mates) && IsMatching(g, m')
    requires x in m' && y in m' && x != y && Sent(g, m, mates, left, x, a, v) && Sent(g, m, mates, left, y, b, w)
    ensures a != b
  {
    if a == b {
      CoverOncePerEdge(g, m, mates, left, v, w);
    }
  }

  // ----- the search for an augmenting path -----

  type Adjacency = map<nat, seq<(nat, nat)>>

  function Neighbors(adj: Adjacency, v: nat): seq<(nat, nat)> {
    if v in adj then adj[v] else []
  }

  ghost predicate AdjacencyOk(g: Digraph, adj: Adjacency) {
    forall v: nat {:trigger Neighbors(adj, v)} :: IsIncidence(g, v, Neighbors(adj, v))
  }

  datatype Frame = Frame(node: nat, useUnmatched: bool, neighborsIdx: nat)

  datatype Dfs =
    | Searching(visited: set<nat>, stack: seq<Frame>, path: seq<(nat, bool)>)
    | Found(steps: seq<(nat, bool)>)

  /** One turn of the search loop. */
  function DfsStep(adj: Adjacency, mates: Mates, inMatching: set<nat>, s: Dfs): Dfs
    requires s.Searching? && s.stack != []
  {
    var t := |s.stack| - 1;
    var frame := s.stack[t];
    var neighbors := Neighbors(adj, frame.node);
    if frame.neighborsIdx >= |neighbors| then
      Retreat(s)
    else
      var (eix, neighbor) := neighbors[frame.neighborsIdx];
      var edgeInMatching := eix in inMatching;
      if frame.useUnmatched == edgeInMatching || neighbor in s.visited then Skip(s)
      else if !edgeInMatching && neighbor !in mates then Found(s.path + [(eix, false)])
      else Searching(s.visited + {neighbor}, s.stack + [Frame(neighbor, !frame.useUnmatched, 0)],
                     s.path + [(eix, edgeInMatching)])
  }

  /** Past the top frame's next edge. */
  function Skip(s: Dfs): Dfs
    requires s.Searching? && s.stack != []
  {
    var t := |s.stack| - 1;
    s.(stack := s.stack[t := s.stack[t].(neighborsIdx := s.stack[t].neighborsIdx + 1)])
  }

  /** Drop the top frame with the edge that led to it, and go on past that edge. */
  function Retreat(s: Dfs): Dfs
    requires s.Searching? && s.stack != []
  {
    var t := |s.stack| - 1;
    var stack := s.stack[..t];
    Searching(s.visited,
              if t > 0 then stack[t - 1 := stack[t - 1].(neighborsIdx := stack[t - 1].neighborsIdx + 1)] else stack,
              if s.path == [] then [] else s.path[..|s.path| - 1])
  }

  /** The search loop run for up to `k` turns. */
  function Run(adj: Adjacency, mates: Mates, m: set<nat>, s: Dfs, k: nat): Dfs
    decreases k
  {
    if k == 0 || s.Found? || s.stack == [] then s
    else Run(adj, mates, m, DfsStep(adj, mates, m, s), k - 1)
  }

  ghost predicate IsStuck(s: Dfs) {
    s.Searching? && s.stack == []
  }

  ghost predicate IsOver(s: Dfs) {
    s.Found? || s.stack == []
  }

  function Outset(v: nat): Dfs {
    Searching({v}, [Frame(v, true, 0)], [])
  }

  /** The search from `v` runs out of frames. */
  ghost predicate Fails(adj: Adjacency, mates: Mates, m: set<nat>, v: nat) {
    exists k: nat :: IsStuck(Run(adj, mates, m, Outset(v), k))
  }

  lemma {:induction false} RunNext(adj: Adjacency, mates: Mates, m: set<nat>, s: Dfs, k: nat)
    ensures var t := Run(adj, mates, m, s, k);
            Run(adj, mates, m, s, k + 1) == if IsOver(t) then t else DfsStep(adj, mates, m, t)
    decreases k
  {
    if k > 0 && !IsOver(s) {
      RunNext(adj, mates, m, DfsStep(adj, mates, m, s), k - 1);
    }
  }

  /** A search that is over stays as it is. */
  lemma {:induction false} RunStays(adj: Adjacency, mates: Mates, m: set<nat>, s: Dfs, k: nat, j: nat)
    requires k <= j && IsOver(Run(adj, mates, m, s, k))
    ensures Run(adj, mates, m, s, j) == Run(adj, mates, m, s, k)
  {
    if k < j {
      RunStays(adj, mates, m, s, k, j - 1);
      RunNext(adj, mates, m, s, j - 1);
    }
  }

  /** The search from `v` ends with these steps. */
  ghost predicate Finds(adj: Adjacency, mates: Mates, m: set<nat>, v: nat, steps: seq<(nat, bool)>) {
    exists k: nat :: Run(adj, mates, m, Outset(v), k) == Found(steps)
  }

  lemma FindsOnce(adj: Adjacency, mates: Mates, m: set<nat>, v: nat, a: seq<(nat, bool)>, b: seq<(nat, bool)>)
    requires Finds(adj, mates, m, v, a) && Finds(adj, mates, m, v, b)
    ensures a == b
  {
    var i: nat :| Run(adj, mates, m, Outset(v), i) == Found(a);
    var j: nat :| Run(adj, mates, m, Outset(v), j) == Found(b);
    RunStays(adj, mates, m, Outset(v), if i <= j then i else j, if i <= j then j else i);
  }

  /** A search that is over has failed exactly when it found nothing. */
  lemma FailsIff(adj: Adjacency, mates: Mates, m: set<nat>, v: nat, k: nat)
    requires IsOver(Run(adj, mates, m, Outset(v), k))
    ensures Fails(adj, mates, m, v) <==> IsStuck(Run(adj, mates, m, Outset(v), k))
  {
    if j: nat :| IsStuck(Run(adj, mates, m, Outset(v), j)) {
      RunStays(adj, mates, m, Outset(v), if j <= k then j else k, if j <= k then k else j);
    }
  }

  /** Edges of the kind the search takes from such a node lead to visited nodes. */
  ghost predicate EdgeDone(m: set<nat>, visited: set<nat>, useUnmatched: bool, d: (nat, nat)) {
    useUnmatched != (d.0 in m) ==> d.1 in visited
  }

  ghost predicate FrameOk(adj: Adjacency, m: set<nat>, s: Dfs, i: nat)
    requires s.Searching? && i < |s.stack|
  {
    var f := s.stack[i];
    && f.node in s.visited && f.useUnmatched == (i % 2 == 0)
    && (forall k {:trigger Neighbors(adj, f.node)[k]} ::
          0 <= k < f.neighborsIdx && k < |Neighbors(adj, f.node)| ==>
            EdgeDone(m, s.visited, f.useUnmatched, Neighbors(adj, f.node)[k]))
  }

  ghost predicate LinkOk(g: Digraph, adj: Adjacency, m: set<nat>, s: Dfs, i: nat)
    requires s.Searching? && i < |s.stack|
  {
    var f := s.stack[i];
    i + 1 < |s.stack| ==>
      && i < |s.path| && Joins(g, s.path[i].0, f.node, s.stack[i + 1].node)
      && s.path[i].1 == (i % 2 == 1) && (s.path[i].0 in m <==> s.path[i].1)
      && f.neighborsIdx < |Neighbors(adj, f.node)|
         && Neighbors(adj, f.node)[f.neighborsIdx] == (s.path[i].0, s.stack[i + 1].node)
  }

  ghost predicate OnStack(s: Dfs, v: nat)
    requires s.Searching?
  {
    exists i: nat :: i < |s.stack| && s.stack[i].node == v
  }

  /** All edges of the search's kind at the node lead to visited nodes. */
  ghost predicate NodeDone(g: Digraph, m: set<nat>, visited: set<nat>, outer: set<nat>, v: nat) {
    forall e: nat, w: nat {:trigger Joins(g, e, v, w)} :: Joins(g, e, v, w) ==> EdgeDone(m, visited, v in outer, (e, w))
  }

  ghost predicate Reached(g: Digraph, mates: Mates, start: nat, visited: set<nat>, outer: set<nat>, v: nat) {
    && v < g.n
    && (v != start ==> v in mates && (v in outer ==> mates[v].1 in visited))
    && forall left: set<nat> {:trigger SameSide(left, start, v)} :: Bipartition(g, left) ==>
         (v in outer <==> SameSide(left, start, v))
  }

  ghost predicate Tables(g: Digraph, adj: Adjacency, m: set<nat>, mates: Mates, start: nat) {
    && g.Valid() && IsMatching(g, m) && TableOk(g, m, mates) && AdjacencyOk(g, adj)
    && start < g.n && start !in mates
  }

  /** The stack is an alternating path of distinct nodes from the start. */
  ghost predicate FramesOk(g: Digraph, adj: Adjacency, m: set<nat>, start: nat, s: Dfs, outer: set<nat>)
    requires s.Searching?
  {
    && (s.stack != [] ==> s.stack[0].node == start)
    && |s.path| == (if s.stack == [] then 0 else |s.stack| - 1)
    && (forall i: nat {:trigger FrameOk(adj, m, s, i)} :: i < |s.stack| ==>
          FrameOk(adj, m, s, i) && (s.stack[i].node in outer <==> i % 2 == 0))
    && (forall i: nat {:trigger LinkOk(g, adj, m, s, i)} :: i < |s.stack| ==> LinkOk(g, adj, m, s, i))
    && (forall i: nat, j: nat {:trigger s.stack[i], s.stack[j]} :: i < j < |s.stack| ==>
          s.stack[i].node != s.stack[j].node)
  }

  /** Visited nodes no longer on the stack are done. */
  ghost predicate LeftDone(g: Digraph, m: set<nat>, s: Dfs, outer: set<nat>)
    requires s.Searching?
  {
    forall v {:trigger NodeDone(g, m, s.visited, outer, v)} :: v in s.visited && !OnStack(s, v) ==>
      NodeDone(g, m, s.visited, outer, v)
  }

  ghost predicate AllReached(g: Digraph, mates: Mates, start: nat, visited: set<nat>, outer: set<nat>) {
    && start in visited && start in outer && outer <= visited
    && forall v {:trigger Reached(g, mates, start, visited, outer, v)} :: v in visited ==>
         Reached(g, mates, start, visited, outer, v)
  }

  ghost predicate SearchInv(g: Digraph, adj: Adjacency, m: set<nat>, mates: Mates, start: nat, s: Dfs, outer: set<nat>)
  {
    && Tables(g, adj, m, mates, start) && s.Searching?
    && FramesOk(g, adj, m, start, s, outer) && LeftDone(g, m, s, outer) && AllReached(g, mates, start, s.visited, outer)
  }

  lemma SearchStart(g: Digraph, adj: Adjacency, m: set<nat>, mates: Mates, start: nat)
    requires Tables(g, adj, m, mates, start)
    ensures SearchInv(g, adj, m, mates, start, Searching({start}, [Frame(start, true, 0)], []), {start})
  {
    var s := Searching({start}, [Frame(start, true, 0)], []);
    assert s.stack[0].node == start;
  }

  /** A search that has run out of frames is stuck. */
  lemma SearchStuck(g: Digraph, adj: Adjacency, m: set<nat>, mates: Mates, start: nat, s: Dfs, outer: set<nat>)
    requires SearchInv(g, adj, m, mates, start, s, outer) && s.stack == []
    ensures Stuck(g, m, mates, start, s.visited, outer)
  {
    forall e: nat, v: nat, w: nat | Joins(g, e, v, w) && v in outer && e !in m ensures w in s.visited {
      assert NodeDone(g, m, s.visited, outer, v);
      assert EdgeDone(m, s.visited, v in outer, (e, w));
    }
    forall v | v in s.visited && v != start ensures v in mates && mates[v].1 in s.visited {
      assert Reached(g, mates, start, s.visited, outer, v);
      if v !in outer {
        assert NodeDone(g, m, s.visited, outer, v);
        assert Joins(g, mates[v].0, v, mates[v].1);
        assert EdgeDone(m, s.visited, v in outer, mates[v]);
      }
    }
    forall left: set<nat>, v: nat | Bipartition(g, left) && v in s.visited
      ensures v in outer <==> SameSide(left, start, v)
    {
      assert Reached(g, mates, start, s.visited, outer, v);
    }
  }

  ghost predicate Takes(adj: Adjacency, m: set<nat>, s: Dfs, e: nat, w: nat) {
    && s.Searching? && s.stack != []
    && var f := s.stack[|s.stack| - 1];
       && f.neighborsIdx < |Neighbors(adj, f.node)| && Neighbors(adj, f.node)[f.neighborsIdx] == (e, w)
       && f.useUnmatched != (e in m) && w !in s.visited
  }

  ghost function Nodes(s: Dfs): seq<nat>
    requires s.Searching?
  {
    seq(|s.stack|, i requires 0 <= i < |s.stack| => s.stack[i].node)
  }

  lemma FoundIsAugmenting(g: Digraph, adj: Adjacency, m: set<nat>, mates: Mates, start: nat, s: Dfs, outer: set<nat>,
                          e: nat, w: nat)
    requires SearchInv(g, adj, m, mates, start, s, outer) && Takes(adj, m, s, e, w) && e !in m && w !in mates
    ensures IsAugmenting(g, m, mates, s.path + [(e, false)], Nodes(s) + [w])
  {
    var t := |s.stack| - 1;
    var path, p := s.path + [(e, false)], Nodes(s) + [w];
    var v := s.stack[t].node;
    assert FrameOk(adj, m, s, t);
    assert IsIncidence(g, v, Neighbors(adj, v));
    forall i: nat | i < |path| ensures PathStep(g, m, path, p, i) {
      if i < t {
        assert LinkOk(g, adj, m, s, i);
        assert p[i] == s.stack[i].node && p[i + 1] == s.stack[i + 1].node && path[i] == s.path[i];
      } else {
        assert p[i] == v && p[i + 1] == w && path[i] == (e, false);
      }
    }
    forall i: nat | i < |s.stack| ensures p[i] != w {
      assert FrameOk(adj, m, s, i);
    }
  }

  lemma SkipKeeps(g: Digraph, adj: Adjacency, m: set<nat>, mates: Mates, start: nat, s: Dfs, outer: set<nat>)
    requires SearchInv(g, adj, m, mates, start, s, outer) && s.stack != []
    requires var f := s.stack[|s.stack| - 1];
             f.neighborsIdx < |Neighbors(adj, f.node)|
             && EdgeDone(m, s.visited, f.useUnmatched, Neighbors(adj, f.node)[f.neighborsIdx])
    ensures SearchInv(g, adj, m, mates, start, Skip(s), outer)
  {
    var s' := Skip(s);
    var t := |s.stack| - 1;
    assert forall i: nat :: i < |s.stack| ==>
             s'.stack[i].node == s.stack[i].node && s'.stack[i].useUnmatched == s.stack[i].useUnmatched;
    forall i: nat | i < |s'.stack|
      ensures FrameOk(adj, m, s', i) && (s'.stack[i].node in outer <==> i % 2 == 0) && LinkOk(g, adj, m, s', i)
    {
      assert FrameOk(adj, m, s, i) && LinkOk(g, adj, m, s, i);
    }
    forall v: nat | v in s'.visited && !OnStack(s', v) ensures NodeDone(g, m, s'.visited, outer, v) {
      forall i: nat | i < |s.stack| ensures s.stack[i].node != v {
        assert s'.stack[i].node == s.stack[i].node;
      }
      assert NodeDone(g, m, s.visited, outer, v);
    }
    assert s'.stack[0].node == s.stack[0].node;
  }

  /** The top frame is exhausted: its node is done. */
  lemma TopDone(g: Digraph, adj: Adjacency, m: set<nat>, mates: Mates, start: nat, s: Dfs, outer: set<nat>)
    requires SearchInv(g, adj, m, mates, start, s, outer) && s.stack != []
    requires s.stack[|s.stack| - 1].neighborsIdx >= |Neighbors(adj, s.stack[|s.stack| - 1].node)|
    ensures NodeDone(g, m, s.visited, outer, s.stack[|s.stack| - 1].node)
  {
    var t := |s.stack| - 1;
    var v := s.stack[t].node;
    assert FrameOk(adj, m, s, t);
    assert IsIncidence(g, v, Neighbors(adj, v));
    forall e: nat, w: nat | Joins(g, e, v, w) ensures EdgeDone(m, s.visited, v in outer, (e, w)) {
      assert (e, w) in Neighbors(adj, v);
      var k :| 0 <= k < |Neighbors(adj, v)| && Neighbors(adj, v)[k] == (e, w);
    }
  }

  lemma RetreatKeeps(g: Digraph, adj: Adjacency, m: set<nat>, mates: Mates, start: nat, s: Dfs, outer: set<nat>)
    requires SearchInv(g, adj, m, mates, start, s, outer) && s.stack != []
    requires s.stack[|s.stack| - 1].neighborsIdx >= |Neighbors(adj, s.stack[|s.stack| - 1].node)|
    ensures SearchInv(g, adj, m, mates, start, Retreat(s), outer)
  {
    TopDone(g, adj, m, mates, start, s, outer);
    RetreatFrames(g, adj, m, start, s, outer);
    RetreatLeft(g, m, s, outer);
  }

  lemma RetreatFrames(g: Digraph, adj: Adjacency, m: set<nat>, start: nat, s: Dfs, outer: set<nat>)
    requires s.Searching? && FramesOk(g, adj, m, start, s, outer) && s.stack != []
    ensures FramesOk(g, adj, m, start, Retreat(s), outer)
  {
    var s' := Retreat(s);
    var t := |s.stack| - 1;
    assert FrameOk(adj, m, s, t);
    assert forall i: nat :: i < t ==>
             s'.stack[i].node == s.stack[i].node && s'.stack[i].useUnmatched == s.stack[i].useUnmatched;
    forall i: nat | i < |s'.stack| ensures FrameOk(adj, m, s', i) && (s'.stack[i].node in outer <==> i % 2 == 0) {
      assert FrameOk(adj, m, s, i) && LinkOk(g, adj, m, s, i);
    }
    forall i: nat | i < |s'.stack| ensures LinkOk(g, adj, m, s', i) {
      assert LinkOk(g, adj, m, s, i);
    }
    if t > 0 {
      assert s'.stack[0].node == s.stack[0].node;
    }
  }

  lemma RetreatLeft(g: Digraph, m: set<nat>, s: Dfs, outer: set<nat>)
    requires s.Searching? && s.stack != [] && LeftDone(g, m, s, outer)
    requires NodeDone(g, m, s.visited, outer, s.stack[|s.stack| - 1].node)
    ensures LeftDone(g, m, Retreat(s), outer)
  {
    var s' := Retreat(s);
    var t := |s.stack| - 1;
    forall v: nat | v in s'.visited && !OnStack(s', v) ensures NodeDone(g, m, s'.visited, outer, v) {
      if v != s.stack[t].node {
        forall i: nat | i < |s.stack| ensures s.stack[i].node != v {
          assert i < t ==> s'.stack[i].node == s.stack[i].node;
        }
        assert NodeDone(g, m, s.visited, outer, v);
      }
    }
  }

  ghost function Taken(s: Dfs, m: set<nat>, e: nat, w: nat): Dfs
    requires s.Searching? && s.stack != []
  {
    Searching(s.visited + {w}, s.stack + [Frame(w, !s.stack[|s.stack| - 1].useUnmatched, 0)], s.path + [(e, e in m)])
  }

  ghost function Outer(s: Dfs, outer: set<nat>, w: nat): set<nat>
    requires s.Searching? && s.stack != []
  {
    if s.stack[|s.stack| - 1].useUnmatched then outer else outer + {w}
  }

  lemma TakeKeeps(g: Digraph, adj: Adjacency, m: set<nat>, mates: Mates, start: nat, s: Dfs, outer: set<nat>, e: nat,
                  w: nat)
    requires SearchInv(g, adj, m, mates, start, s, outer) && Takes(adj, m, s, e, w) && (e in m || w in mates)
    ensures SearchInv(g, adj, m, mates, start, Taken(s, m, e, w), Outer(s, outer, w)) && w < g.n
  {
    var f := s.stack[|s.stack| - 1];
    assert IsIncidence(g, f.node, Neighbors(adj, f.node));
    assert Joins(g, e, f.node, w);
    TakeReached(g, adj, m, mates, start, s, outer, e, w);
    TakeFrames(g, adj, m, start, s, outer, e, w);
    TakeLeft(g, m, s, outer, e, w);
  }

  lemma TakeFrames(g: Digraph, adj: Adjacency, m: set<nat>, start: nat, s: Dfs, outer: set<nat>, e: nat, w: nat)
    requires s.Searching? && FramesOk(g, adj, m, start, s, outer) && Takes(adj, m, s, e, w) && outer <= s.visited
    requires Joins(g, e, s.stack[|s.stack| - 1].node, w)
    ensures FramesOk(g, adj, m, start, Taken(s, m, e, w), Outer(s, outer, w))
  {
    var t := |s.stack| - 1;
    var s', outer' := Taken(s, m, e, w), Outer(s, outer, w);
    assert FrameOk(adj, m, s, t);
    forall i: nat | i < |s'.stack| ensures FrameOk(adj, m, s', i) && (s'.stack[i].node in outer' <==> i % 2 == 0) {
      if i <= t {
        TakeFrame(adj, m, s, e, w, i);
        assert FrameOk(adj, m, s, i);
      }
    }
    forall i: nat | i < |s'.stack| ensures LinkOk(g, adj, m, s', i) {
      if i <= t {
        assert LinkOk(g, adj, m, s, i);
      }
    }
    forall i: nat, j: nat | i < j < |s'.stack| ensures s'.stack[i].node != s'.stack[j].node {
      assert FrameOk(adj, m, s, i);
    }
    assert s'.stack[0].node == s.stack[0].node;
  }

  lemma TakeFrame(adj: Adjacency, m: set<nat>, s: Dfs, e: nat, w: nat, i: nat)
    requires s.Searching? && i < |s.stack| && FrameOk(adj, m, s, i)
    ensures FrameOk(adj, m, Taken(s, m, e, w), i)
  {
    assert Taken(s, m, e, w).stack[i] == s.stack[i];
  }

  lemma TakeLeft(g: Digraph, m: set<nat>, s: Dfs, outer: set<nat>, e: nat, w: nat)
    requires s.Searching? && s.stack != [] && LeftDone(g, m, s, outer)
    ensures LeftDone(g, m, Taken(s, m, e, w), Outer(s, outer, w))
  {
    var s', outer' := Taken(s, m, e, w), Outer(s, outer, w);
    forall v: nat | v in s'.visited && !OnStack(s', v) ensures NodeDone(g, m, s'.visited, outer', v) {
      assert v != w by {
        assert s'.stack[|s.stack|].node == w;
      }
      forall i: nat | i < |s.stack| ensures s.stack[i].node != v {
        assert s'.stack[i].node == s.stack[i].node;
      }
      assert NodeDone(g, m, s.visited, outer, v);
      forall d: nat, x: nat | Joins(g, d, v, x) ensures EdgeDone(m, s'.visited, v in outer', (d, x)) {
        assert EdgeDone(m, s.visited, v in outer, (d, x));
      }
    }
  }

  lemma TakeReached(g: Digraph, adj: Adjacency, m: set<nat>, mates: Mates, start: nat, s: Dfs, outer: set<nat>, e: nat,
                    w: nat)
    requires SearchInv(g, adj, m, mates, start, s, outer) && Takes(adj, m, s, e, w) && (e in m || w in mates)
    requires Joins(g, e, s.stack[|s.stack| - 1].node, w)
    ensures w < g.n
    ensures var outer' := if s.stack[|s.stack| - 1].useUnmatched then outer else outer + {w};
            forall v :: v in s.visited + {w} ==> Reached(g, mates, start, s.visited + {w}, outer', v)
  {
    var t := |s.stack| - 1;
    var f := s.stack[t];
    var outer' := if f.useUnmatched then outer else outer + {w};
    assert FrameOk(adj, m, s, t);
    forall v | v in s.visited + {w} ensures Reached(g, mates, start, s.visited + {w}, outer', v) {
      if v != w {
        assert Reached(g, mates, start, s.visited, outer, v);
      } else {
        if e in m {
          MateUnique(g, m, mates, e, f.node, w);
        }
        assert Reached(g, mates, start, s.visited, outer, f.node);
        forall left: set<nat> | Bipartition(g, left) ensures w in outer' <==> SameSide(left, start, w) {
          assert SameSide(left, start, f.node) == (f.node in outer);
        }
      }
    }
  }

  /** Turns the search may still take on the frames it has open. */
  ghost function Work(adj: Adjacency, stack: seq<Frame>): nat {
    if stack == [] then 0
    else
      var f := stack[|stack| - 1];
      Work(adj, stack[..|stack| - 1]) + 1
      + if f.neighborsIdx < |Neighbors(adj, f.node)| then |Neighbors(adj, f.node)| - f.neighborsIdx else 0
  }

  lemma SkipWork(adj: Adjacency, s: Dfs)
    requires s.Searching? && s.stack != []
    ensures Work(adj, Skip(s).stack) <= Work(adj, s.stack)
    ensures s.stack[|s.stack| - 1].neighborsIdx < |Neighbors(adj, s.stack[|s.stack| - 1].node)| ==>
              Work(adj, Skip(s).stack) < Work(adj, s.stack)
  {
    var t := |s.stack| - 1;
    assert Skip(s).stack[..t] == s.stack[..t];
  }

  lemma RetreatWork(adj: Adjacency, s: Dfs)
    requires s.Searching? && s.stack != []
    ensures Work(adj, Retreat(s).stack) < Work(adj, s.stack)
  {
    var t := |s.stack| - 1;
    if t > 0 {
      SkipWork(adj, Searching(s.visited, s.stack[..t], s.path));
    }
  }

  /** `find_augmenting_path`. */
  method FindAugmentingPath(g: Digraph, start: nat, adj: Adjacency, mates: Mates, inMatching: set<nat>)
    returns (path: Option<seq<(nat, bool)>>, ghost p: seq<nat>)
    requires Tables(g, adj, inMatching, mates, start)
    ensures path.Some? ==> IsAugmenting(g, inMatching, mates, path.value, p)
    ensures path.None? ==> NoWayFrom(g, inMatching, mates, start)
    ensures path.None? <==> Fails(adj, mates, inMatching, start)
    ensures path.Some? ==> Finds(adj, mates, inMatching, start, path.value)
  {
    var s := Outset(start);
    ghost var outer, k := {start}, 0;
    p := [];
    SearchStart(g, adj, inMatching, mates, start);
    while s.Searching? && s.stack != []
      invariant s.Searching? ==> SearchInv(g, adj, inMatching, mates, start, s, outer)
      invariant s.Found? ==> IsAugmenting(g, inMatching, mates, s.steps, p)
      invariant s == Run(adj, mates, inMatching, Outset(start), k)
      decreases s.Searching?, if s.Searching? then g.n - |s.visited| else 0,
                if s.Searching? then Work(adj, s.stack) else 0
    {
      ghost var s0 := s;
      s := DfsStep(adj, mates, inMatching, s);
      RunNext(adj, mates, inMatching, Outset(start), k);
      k := k + 1;
      outer, p := StepKeeps(g, adj, inMatching, mates, start, s0, outer);
    }
    FailsIff(adj, mates, inMatching, start, k);
    if s.Found? {
      path := Some(s.steps);
    } else {
      path := None;
      SearchStuck(g, adj, inMatching, mates, start, s, outer);
    }
  }

  lemma StepKeeps(g: Digraph, adj: Adjacency, m: set<nat>, mates: Mates, start: nat, s: Dfs, outer: set<nat>)
    returns (outer': set<nat>, p: seq<nat>)
    requires SearchInv(g, adj, m, mates, start, s, outer) && s.stack != []
    ensures var s' := DfsStep(adj, mates, m, s);
            if s'.Found? then IsAugmenting(g, m, mates, s'.steps, p)
            else && SearchInv(g, adj, m, mates, start, s', outer')
                 && (|s.visited| < |s'.visited| <= g.n
                     || (s'.visited == s.visited && Work(adj, s'.stack) < Work(adj, s.stack)))
  {
    outer', p := outer, [];
    var f := s.stack[|s.stack| - 1];
    var neighbors := Neighbors(adj, f.node);
    if f.neighborsIdx >= |neighbors| {
      RetreatKeeps(g, adj, m, mates, start, s, outer);
      RetreatWork(adj, s);
    } else {
      var (e, w) := neighbors[f.neighborsIdx];
      if f.useUnmatched == (e in m) || w in s.visited {
        SkipKeeps(g, adj, m, mates, start, s, outer);
        SkipWork(adj, s);
      } else if e !in m && w !in mates {
        FoundIsAugmenting(g, adj, m, mates, start, s, outer, e, w);
        p := Nodes(s) + [w];
      } else {
        TakeKeeps(g, adj, m, mates, start, s, outer, e, w);
        outer' := if f.useUnmatched then outer else outer + {w};
        VisitedBound(g, mates, start, s.visited, outer, w);
      }
    }
  }

  lemma VisitedBound(g: Digraph, mates: Mates, start: nat, visited: set<nat>, outer: set<nat>, w: nat)
    requires forall v {:trigger Reached(g, mates, start, visited, outer, v)} :: v in visited ==>
               Reached(g, mates, start, visited, outer, v)
    requires w !in visited && w < g.n
    ensures |visited| < |visited + {w}| <= g.n
  {
    forall v | v in visited + {w} ensures v in Below(g.n) {
      assert v in visited ==> Reached(g, mates, start, visited, outer, v);
    }
    SubsetCard(visited + {w}, Below(g.n));
  }

  // ----- max_matching -----

  ghost predicate ListedBelow(g: Digraph, v: nat, l: seq<(nat, nat)>, n: nat) {
    && NoDup(l) && (forall k :: 0 <= k < |l| ==> l[k].0 < n && Joins(g, l[k].0, v, l[k].1))
    && forall f: nat, y: nat {:trigger Joins(g, f, v, y)} :: f < n && Joins(g, f, v, y) ==> (f, y) in l
  }

  /** The lists with edge `i` added at both its ends, unless it is a loop. */
  function Listed(adj: Adjacency, ends: seq<(nat, nat)>, i: nat): Adjacency
    requires i < |ends|
  {
    var (a, b) := ends[i];
    if a == b then adj
    else
      var adj' := adj[a := Neighbors(adj, a) + [(i, b)]];
      adj'[b := Neighbors(adj', b) + [(i, a)]]
  }

  /** The lists after the first `n` edges. */
  ghost function Lists(ends: seq<(nat, nat)>, n: nat): Adjacency
    requires n <= |ends|
  {
    if n == 0 then map[] else Listed(Lists(ends, n - 1), ends, n - 1)
  }

  method BuildAdjacency(g: Digraph) returns (adj: Adjacency)
    requires g.Valid()
    ensures AdjacencyOk(g, adj) && adj == Lists(g.ends, |g.ends|)
  {
    adj := map[];
    for i := 0 to |g.ends|
      invariant adj == Lists(g.ends, i)
      invariant forall v: nat {:trigger Neighbors(adj, v)} :: ListedBelow(g, v, Neighbors(adj, v), i)
    {
      ghost var adj0 := adj;
      adj := Listed(adj, g.ends, i);
      forall v: nat ensures ListedBelow(g, v, Neighbors(adj, v), i + 1) {
        assert ListedBelow(g, v, Neighbors(adj0, v), i);
        ListedNext(g, adj0, i, v);
      }
    }
    forall v: nat ensures IsIncidence(g, v, Neighbors(adj, v)) {
      assert ListedBelow(g, v, Neighbors(adj, v), |g.ends|);
    }
  }

  lemma ListedNext(g: Digraph, adj: Adjacency, i: nat, v: nat)
    requires i < |g.ends| && ListedBelow(g, v, Neighbors(adj, v), i)
    ensures ListedBelow(g, v, Neighbors(Listed(adj, g.ends, i), v), i + 1)
  {
    var (a, b) := g.ends[i];
    var l, l' := Neighbors(adj, v), Neighbors(Listed(adj, g.ends, i), v);
    if a == b || (v != a && v != b) {
      assert l' == l;
    } else {
      var w := if v == a then b else a;
      assert l' == l + [(i, w)] && Joins(g, i, v, w);
      forall f: nat, y: nat | f < i + 1 && Joins(g, f, v, y) ensures (f, y) in l' {
        assert f == i ==> y == w;
      }
    }
  }

  lemma MatchingGrows(g: Digraph, m: set<nat>, mates: Mates, e: nat, a: nat, b: nat)
    requires IsMatching(g, m) && TableOk(g, m, mates) && e < |g.ends| && g.ends[e] == (a, b) && a != b
    requires a !in mates && b !in mates
    ensures IsMatching(g, m + {e}) && TableOk(g, m + {e}, mates[a := (e, b)][b := (e, a)]) && e !in m
  {
    assert Touches(g, e, a);
  }

  /** The table with edge `i` added when both its ends are free. */
  function Paired(mates: Mates, ends: seq<(nat, nat)>, i: nat): Mates
    requires i < |ends|
  {
    var (a, b) := ends[i];
    if a != b && a !in mates && b !in mates then mates[a := (i, b)][b := (i, a)] else mates
  }

  /** The table after the first `n` edges have been tried in order. */
  ghost function Greedy(ends: seq<(nat, nat)>, n: nat): Mates
    requires n <= |ends|
  {
    if n == 0 then map[] else Paired(Greedy(ends, n - 1), ends, n - 1)
  }

  /** The first `i` edges have been tried; each of them but loops has a covered end. */
  ghost predicate GreedyOk(g: Digraph, mates: Mates, m: set<nat>, i: nat) {
    && i <= |g.ends| && IsMatching(g, m) && TableOk(g, m, mates) && mates == Greedy(g.ends, i) && IsGreedy(g, m, i)
    && forall e: nat {:trigger g.ends[e]} ::
         e < i && g.ends[e].0 != g.ends[e].1 ==> g.ends[e].0 in mates || g.ends[e].1 in mates
  }

  /** The greedy start. */
  method GreedyStart(g: Digraph) returns (mates: Mates, inMatching: set<nat>)
    requires g.Valid()
    ensures IsMaximal(g, inMatching) && TableOk(g, inMatching, mates) && mates == Greedy(g.ends, |g.ends|)
    ensures IsGreedy(g, inMatching, |g.ends|)
  {
    mates, inMatching := map[], {};
    for i := 0 to |g.ends|
      invariant GreedyOk(g, mates, inMatching, i)
    {
      mates, inMatching := TryEdge(g, mates, inMatching, i);
    }
    GreedyEnd(g, mates, inMatching);
  }

  method TryEdge(g: Digraph, mates0: Mates, m0: set<nat>, i: nat) returns (mates: Mates, m: set<nat>)
    requires GreedyOk(g, mates0, m0, i) && i < |g.ends|
    ensures GreedyOk(g, mates, m, i + 1)
  {
    var (a, b) := g.ends[i];
    TableCovers(g, m0, mates0);
    GreedyNext(g, m0, i);
    mates, m := Paired(mates0, g.ends, i), m0;
    if a != b && a !in mates0 && b !in mates0 {
      MatchingGrows(g, m0, mates0, i, a, b);
      m := m0 + {i};
    }
  }

  lemma GreedyEnd(g: Digraph, mates: Mates, m: set<nat>)
    requires GreedyOk(g, mates, m, |g.ends|)
    ensures IsMaximal(g, m)
  {
    TableCovers(g, m, mates);
    MaximalIff(g, m);
  }

  lemma TableCovers(g: Digraph, m: set<nat>, mates: Mates)
    requires TableOk(g, m, mates)
    ensures forall v: nat :: v in mates <==> Covered(g, m, v)
    ensures IsMatching(g, m) ==> m == Chosen(mates)
  {
    forall v: nat | v in mates ensures Covered(g, m, v) {
      assert Touches(g, mates[v].0, v);
    }
    if IsMatching(g, m) {
      forall e | e in m ensures e in Chosen(mates) {
        MateUnique(g, m, mates, e, g.ends[e].0, g.ends[e].1);
      }
    }
  }

  /** Toggle the edges of an augmenting path. */
  method Toggle(ghost g: Digraph, m: set<nat>, ghost mates: Mates, path: seq<(nat, bool)>, ghost p: seq<nat>)
    returns (m': set<nat>)
    requires IsMatching(g, m) && TableOk(g, m, mates) && IsAugmenting(g, m, mates, path, p)
    ensures IsMatching(g, m') && |m'| == |m| + 1 && Toggled(m, path, |path|, m')
    ensures forall v: nat :: Covered(g, m, v) ==> Covered(g, m', v)
  {
    m' := m;
    var i := 0;
    while i < |path|
      invariant 0 <= i <= |path| && Toggled(m, path, i, m')
      invariant |m'| == |m| + i % 2
    {
      assert PathStep(g, m, path, p, i);
      ToggleNext(g, m, mates, path, p, i, m');
      var (eix, inMatch) := path[i];
      m' := if inMatch then m' - {eix} else m' + {eix};
      i := i + 1;
    }
    ToggledMatching(g, m, mates, path, p, m');
    forall v: nat | Covered(g, m, v) ensures Covered(g, m', v) {
      ToggleKeepsCover(g, m, mates, path, p, m', v);
    }
  }

  /** The table for a matching, built from its edges in whatever order. */
  method RebuildMates(g: Digraph, inMatching: set<nat>) returns (mates: Mates)
    requires IsMatching(g, inMatching)
    ensures TableOk(g, inMatching, mates)
  {
    mates := map[];
    var rest := inMatching;
    while rest != {}
      invariant rest <= inMatching
      invariant TableOk(g, inMatching - rest, mates)
      decreases |rest|
    {
      var e :| e in rest;
      var (a, b) := g.ends[e];
      rest := rest - {e};
      forall v: nat | v == a || v == b ensures v !in mates {
        assert Touches(g, e, v);
        if v in mates {
          assert Touches(g, mates[v].0, v);
        }
      }
      mates := mates[a := (e, b)][b := (e, a)];
    }
    assert inMatching - rest == inMatching;
  }

  lemma MatchingBound(g: Digraph, m: set<nat>)
    requires IsMatching(g, m)
    ensures |m| <= |g.ends|
  {
    SubsetCard(m, Below(|g.ends|));
  }

  /** Free nodes in node order. */
  method FreeNodes(g: Digraph, mates: Mates) returns (free: seq<nat>)
    ensures Upward(free) && forall v: nat :: v in free <==> v < g.n && v !in mates
  {
    free := [];
    for i := 0 to g.n
      invariant Upward(free) && (forall v: nat :: v in free <==> v < i && v !in mates)
      invariant forall k :: 0 <= k < |free| ==> free[k] < i
    {
      if i !in mates {
        free := free + [i];
      }
    }
  }

  /** What trying node `v` makes of the matching: toggled along the steps found from it if it is free
      and the search ends well, else as it was. */
  ghost predicate TriedWith(g: Digraph, adj: Adjacency, mates: Mates, m: set<nat>, v: nat, m': set<nat>) {
    && TableOk(g, m, mates)
    && if v in mates || Fails(adj, mates, m, v) then m' == m
       else exists steps :: Finds(adj, mates, m, v, steps) && Toggled(m, steps, |steps|, m')
  }

  ghost predicate TriedFrom(g: Digraph, adj: Adjacency, m: set<nat>, v: nat, m': set<nat>) {
    exists mates :: TriedWith(g, adj, mates, m, v, m')
  }

  /** The matching and the node leave no choice. */
  lemma TriedOnce(g: Digraph, adj: Adjacency, m: set<nat>, v: nat, a: set<nat>, b: set<nat>)
    requires IsMatching(g, m) && TriedFrom(g, adj, m, v, a) && TriedFrom(g, adj, m, v, b)
    ensures a == b
  {
    var s :| TriedWith(g, adj, s, m, v, a);
    var t :| TriedWith(g, adj, t, m, v, b);
    OneTable(g, m, s, t);
    if !(v in s || Fails(adj, s, m, v)) {
      var p :| Finds(adj, s, m, v, p) && Toggled(m, p, |p|, a);
      var q :| Finds(adj, s, m, v, q) && Toggled(m, q, |q|, b);
      FindsOnce(adj, s, m, v, p, q);
    }
  }

  lemma OneTable(g: Digraph, m: set<nat>, s: Mates, t: Mates)
    requires IsMatching(g, m) && TableOk(g, m, s) && TableOk(g, m, t)
    ensures s == t
  {
    forall v | v in s ensures v in t && t[v] == s[v] {
      MateUnique(g, m, t, s[v].0, v, s[v].1);
    }
    forall v | v in t ensures v in s {
      MateUnique(g, m, s, t[v].0, v, t[v].1);
    }
  }

  /** The nodes below `|ms| - 1` tried in turn, from `ms[0]` on. */
  ghost predicate InTurn(g: Digraph, adj: Adjacency, ms: seq<set<nat>>) {
    |ms| > 0 && forall v: nat {:trigger TriedFrom(g, adj, ms[v], v, ms[v + 1])} ::
                  v + 1 < |ms| ==> TriedFrom(g, adj, ms[v], v, ms[v + 1])
  }

  /** All nodes tried in turn make `m'` of `m`. */
  ghost predicate RoundOf(g: Digraph, adj: Adjacency, m: set<nat>, m': set<nat>) {
    exists ms :: InTurn(g, adj, ms) && |ms| == g.n + 1 && ms[0] == m && ms[g.n] == m'
  }

  lemma TurnNext(g: Digraph, adj: Adjacency, ms: seq<set<nat>>, m': set<nat>)
    requires InTurn(g, adj, ms) && TriedFrom(g, adj, ms[|ms| - 1], |ms| - 1, m')
    ensures InTurn(g, adj, ms + [m'])
  {
    var ms' := ms + [m'];
    forall v: nat | v + 1 < |ms'| ensures TriedFrom(g, adj, ms'[v], v, ms'[v + 1]) {
      assert v + 1 < |ms| ==> TriedFrom(g, adj, ms[v], v, ms[v + 1]);
    }
  }

  /** Nodes that are not free are passed over. */
  lemma TurnPasses(g: Digraph, adj: Adjacency, mates: Mates, ms: seq<set<nat>>, n: nat) returns (ms': seq<set<nat>>)
    requires InTurn(g, adj, ms) && TableOk(g, ms[|ms| - 1], mates) && |ms| <= n + 1
    requires forall v: nat :: |ms| - 1 <= v < n ==> v in mates
    ensures InTurn(g, adj, ms') && |ms'| == n + 1 && ms'[0] == ms[0] && ms'[n] == ms[|ms| - 1]
  {
    ms' := ms;
    while |ms'| <= n
      invariant InTurn(g, adj, ms') && |ms| <= |ms'| <= n + 1 && ms'[0] == ms[0] && ms'[|ms'| - 1] == ms[|ms| - 1]
      decreases n + 1 - |ms'|
    {
      var m := ms[|ms| - 1];
      assert TriedWith(g, adj, mates, m, |ms'| - 1, m);
      TurnNext(g, adj, ms', m);
      ms' := ms' + [m];
    }
  }

  /** One round over the free nodes.  Either the matching has grown, or it is unchanged and the
      search failed from every free node. */
  method Round(g: Digraph, adj: Adjacency, mates0: Mates, m0: set<nat>) returns (mates: Mates, m: set<nat>, found: bool)
    requires g.Valid() && IsMatching(g, m0) && TableOk(g, m0, mates0) && AdjacencyOk(g, adj)
    ensures IsMatching(g, m) && TableOk(g, m, mates)
    ensures found ==> |m| > |m0|
    ensures found <==> exists v: nat :: v < g.n && v !in mates0 && !Fails(adj, mates0, m0, v)
    ensures !found ==> m == m0 && mates == mates0 && forall v: nat :: v < g.n && v !in mates ==>
              NoWayFrom(g, m, mates, v)
    ensures forall v: nat :: Covered(g, m0, v) ==> Covered(g, m, v)
    ensures RoundOf(g, adj, m0, m)
  {
    mates, m, found := mates0, m0, false;
    var free := FreeNodes(g, mates);
    ghost var ms := [m0];
    var i := 0;
    while i < |free|
      invariant 0 <= i <= |free| && IsMatching(g, m) && TableOk(g, m, mates)
      invariant if found then |m| > |m0| else m == m0 && mates == mates0
      invariant !found ==> forall k {:trigger free[k]} ::
                  0 <= k < i ==> NoWayFrom(g, m, mates, free[k]) && Fails(adj, mates, m, free[k])
      invariant found ==> exists v: nat :: v < g.n && v !in mates0 && !Fails(adj, mates0, m0, v)
      invariant forall v: nat :: Covered(g, m0, v) ==> Covered(g, m, v)
      invariant InTurn(g, adj, ms) && ms[0] == m0 && ms[|ms| - 1] == m
      invariant |ms| == if i == 0 then 1 else free[i - 1] + 2
    {
      var v := free[i];
      assert v in free && forall k :: 0 <= k < |free| ==> free[k] in free;
      NotFree(g, m0, m, mates0, mates, free, i, v);
      ms := TurnPasses(g, adj, mates, ms, v);
      ghost var m1, mates1 := m, mates;
      if v !in mates {
        var path;
        ghost var p;
        path, p := FindAugmentingPath(g, v, adj, mates, m);
        if path.Some? {
          m := Toggle(g, m, mates, path.value, p);
          mates := RebuildMates(g, m);
          found := true;
        }
      }
      assert TriedWith(g, adj, mates1, m1, v, m);
      TurnNext(g, adj, ms, m);
      ms := ms + [m];
      i := i + 1;
    }
    NotFree(g, m0, m, mates0, mates, free, i, g.n);
    ms := TurnPasses(g, adj, mates, ms, g.n);
    if !found {
      forall v: nat | v < g.n && v !in mates ensures NoWayFrom(g, m, mates, v) && Fails(adj, mates, m, v) {
        var k :| 0 <= k < |free| && free[k] == v;
      }
    }
  }

  /** Nodes between two free ones, or past the last, are matched and stay so. */
  lemma NotFree(g: Digraph, m0: set<nat>, m: set<nat>, mates0: Mates, mates: Mates, free: seq<nat>, i: nat, n: nat)
    requires TableOk(g, m0, mates0) && TableOk(g, m, mates) && Upward(free) && i <= |free|
    requires forall v: nat :: v in free <==> v < g.n && v !in mates0
    requires forall v: nat :: Covered(g, m0, v) ==> Covered(g, m, v)
    requires n == if i < |free| then free[i] else g.n
    ensures forall v: nat :: (if i == 0 then 0 else free[i - 1] + 1) <= v < n ==> v in mates
    ensures (if i == 0 then 0 else free[i - 1] + 1) <= n <= g.n
  {
    TableCovers(g, m0, mates0);
    TableCovers(g, m, mates);
    assert forall k :: 0 <= k < |free| ==> free[k] in free;
    var lo := if i == 0 then 0 else free[i - 1] + 1;
    assert forall k :: 0 <= k < |free| ==> free[k] < lo || free[k] >= n;
    forall v: nat | lo <= v < n ensures v in mates {
      assert v !in free;
    }
  }

  /** Rounds from the greedy matching until one changes nothing. */
  ghost predicate InRounds(g: Digraph, adj: Adjacency, rs: seq<set<nat>>) {
    && rs != [] && rs[0] == Chosen(Greedy(g.ends, |g.ends|))
    && forall i: nat {:trigger RoundAt(g, adj, rs, i)} :: i + 1 < |rs| ==> RoundAt(g, adj, rs, i)
  }

  ghost predicate RoundAt(g: Digraph, adj: Adjacency, rs: seq<set<nat>>, i: nat) {
    i + 1 < |rs| && RoundOf(g, adj, rs[i], rs[i + 1]) && (rs[i] == rs[i + 1] ==> i + 2 == |rs|)
  }

  /** `m` comes out of the rounds. */
  ghost predicate ByRounds(g: Digraph, adj: Adjacency, m: set<nat>) {
    exists rs :: InRounds(g, adj, rs) && |rs| > 1 && rs[|rs| - 1] == rs[|rs| - 2] == m
  }

  lemma RoundsNext(g: Digraph, adj: Adjacency, rs: seq<set<nat>>, m: set<nat>)
    requires InRounds(g, adj, rs) && RoundOf(g, adj, rs[|rs| - 1], m)
    requires |rs| > 1 ==> rs[|rs| - 1] != rs[|rs| - 2]
    ensures InRounds(g, adj, rs + [m])
  {
    var rs' := rs + [m];
    forall i: nat | i + 1 < |rs'| ensures RoundAt(g, adj, rs', i) {
      assert i + 1 < |rs| ==> RoundAt(g, adj, rs, i);
    }
  }

  /** The search fails from every node the table leaves free. */
  ghost predicate AllFail(g: Digraph, adj: Adjacency, mates: Mates) {
    forall v: nat :: v < g.n && v !in mates ==> Fails(adj, mates, Chosen(mates), v)
  }

  /** Rounds under way: `found` says whether the last one changed the matching. */
  ghost predicate InRun(g: Digraph, adj: Adjacency, mates0: Mates, m0: set<nat>, mates: Mates, m: set<nat>, found: bool,
                        rs: seq<set<nat>>)
  {
    && IsMatching(g, m) && TableOk(g, m, mates) && LeavesNone(g, m)
    && (!found ==> forall v: nat :: v < g.n && v !in mates ==> NoWayFrom(g, m, mates, v))
    && InRounds(g, adj, rs) && rs[|rs| - 1] == m
    && if |rs| == 1 then m == m0 && mates == mates0 && found
       else if found then rs[|rs| - 2] != m && |m| > |m0| && !AllFail(g, adj, mates0)
       else rs[|rs| - 2] == m && (m == m0 <==> AllFail(g, adj, mates0))
  }

  lemma InRunNext(g: Digraph, adj: Adjacency, mates0: Mates, m0: set<nat>, mates: Mates, m: set<nat>,
                  rs: seq<set<nat>>, mates': Mates, m': set<nat>, found: bool)
    requires InRun(g, adj, mates0, m0, mates, m, true, rs) && m0 == Chosen(mates0)
    requires IsMatching(g, m') && TableOk(g, m', mates') && RoundOf(g, adj, m, m')
    requires found ==> |m'| > |m|
    requires found <==> exists v: nat :: v < g.n && v !in mates && !Fails(adj, mates, m, v)
    requires !found ==> m' == m && mates' == mates && forall v: nat :: v < g.n && v !in mates' ==>
               NoWayFrom(g, m', mates', v)
    requires forall v: nat :: Covered(g, m, v) ==> Covered(g, m', v)
    ensures InRun(g, adj, mates0, m0, mates', m', found, rs + [m'])
  {
    RoundsNext(g, adj, rs, m');
    if |rs| == 1 {
      assert AllFail(g, adj, mates0) <==> !found;
    }
  }

  /** The rounds, from the greedy matching on. */
  method Rounds(g: Digraph, adj: Adjacency, mates0: Mates, m0: set<nat>) returns (mates: Mates, m: set<nat>)
    requires g.Valid() && AdjacencyOk(g, adj) && IsMatching(g, m0) && TableOk(g, m0, mates0) && LeavesNone(g, m0)
    requires m0 == Chosen(mates0) && mates0 == Greedy(g.ends, |g.ends|)
    ensures IsMatching(g, m) && TableOk(g, m, mates) && LeavesNone(g, m)
    ensures forall v: nat :: v < g.n && v !in mates ==> NoWayFrom(g, m, mates, v)
    ensures m == m0 <==> AllFail(g, adj, mates0)
    ensures ByRounds(g, adj, m)
  {
    mates, m := mates0, m0;
    var found := true;
    ghost var rs := [m];
    while found
      invariant InRun(g, adj, mates0, m0, mates, m, found, rs)
      decreases |g.ends| - |m|, found
    {
      ghost var mates1, m1 := mates, m;
      mates, m, found := Round(g, adj, mates, m);
      InRunNext(g, adj, mates0, m0, mates1, m1, rs, mates, m, found);
      rs := rs + [m];
      MatchingBound(g, m);
    }
  }

  /** `max_matching`: on every graph a maximal matching, so at least half the size of any other; of
      greatest size when the graph is bipartite.  The greedy start is returned as it is exactly when
      the search fails from all nodes it leaves free. */
  method MaxMatching(g: Digraph) returns (m: set<nat>)
    requires g.Valid()
    ensures IsMaximal(g, m) && forall m': set<nat> :: IsMatching(g, m') ==> |m'| <= 2 * |m|
    ensures (exists left: set<nat> :: Bipartition(g, left)) ==> IsMaximum(g, m)
    ensures var mates := Greedy(g.ends, |g.ends|);
            m == Chosen(mates) <==> AllFail(g, Lists(g.ends, |g.ends|), mates)
    ensures ByRounds(g, Lists(g.ends, |g.ends|), m)
  {
    var adj := BuildAdjacency(g);
    var mates;
    mates, m := GreedyStart(g);
    TableCovers(g, m, mates);
    MaximalIff(g, m);
    mates, m := Rounds(g, adj, mates, m);
    MaximalIff(g, m);
    forall m': set<nat> | IsMatching(g, m') ensures |m'| <= 2 * |m| {
      HalfBound(g, m, m');
    }
    if left: set<nat> :| Bipartition(g, left) {
      StuckIsMaximum(g, m, mates, left);
    }
  }

  // ----- the greedy iterator -----

  class GreedyMatching {
    const graph: Digraph
    var cursor: nat
    var matchedNodes: set<nat>
    ghost var yielded: set<nat>

    ghost predicate Valid()
      reads this
    {
      && graph.Valid() && cursor <= |graph.ends| && IsMatching(graph, yielded)
      && (forall e: nat, v: nat {:trigger Touches(graph, e, v)} :: e in yielded && Touches(graph, e, v) ==>
            v in matchedNodes)
      && (forall v :: v in matchedNodes ==> Covered(graph, yielded, v))
      && IsGreedy(graph, yielded, cursor)
    }

    constructor (g: Digraph)
      requires g.Valid()
      ensures Valid() && graph == g && yielded == {} && cursor == 0
    {
      graph, cursor, matchedNodes, yielded := g, 0, {}, {};
    }

    /** The next edge, in the order of edges, that is free when its turn comes; at the end the
        matching is maximal. */
    method Next() returns (edge: Option<nat>)
      requires Valid()
      modifies this
      ensures Valid()
      ensures IsGreedy(graph, yielded, cursor)
      ensures edge.Some? ==> edge.value !in old(yielded) && yielded == old(yielded) + {edge.value}
      ensures edge.Some? ==> old(cursor) <= edge.value && cursor == edge.value + 1
      ensures edge.None? ==> cursor == |graph.ends|
      ensures edge.None? ==> yielded == old(yielded) && IsMaximal(graph, yielded)
      ensures edge.None? ==> forall m': set<nat> :: IsMatching(graph, m') ==> |m'| <= 2 * |yielded|
    {
      edge := None;
      while cursor < |graph.ends| && edge.None?
        invariant Valid()
        invariant old(cursor) <= cursor && (edge.Some? ==> old(cursor) <= edge.value && cursor == edge.value + 1)
        invariant edge.Some? ==> edge.value !in old(yielded) && yielded == old(yielded) + {edge.value}
        invariant edge.None? ==> yielded == old(yielded)
        decreases |graph.ends| - cursor
      {
        edge := Try();
      }
      if edge.None? {
        forall e: nat | e < |graph.ends| && e !in yielded ensures !IsMatching(graph, yielded + {e}) {
          AddingFails(e);
        }
        forall m': set<nat> | IsMatching(graph, m') ensures |m'| <= 2 * |yielded| {
          HalfBound(graph, yielded, m');
        }
      }
    }

    lemma AddingFails(e: nat)
      requires Valid() && e < cursor && e !in yielded
      ensures !IsMatching(graph, yielded + {e})
    {
      if graph.ends[e].0 != graph.ends[e].1 {
        var f: nat :| f in yielded && f < e && Shares(graph, f, e);
        var v: nat :| Touches(graph, f, v) && Touches(graph, e, v);
        assert f in yielded + {e} && e in yielded + {e};
      }
    }

    method Try() returns (edge: Option<nat>)
      requires Valid() && cursor < |graph.ends|
      modifies this
      ensures Valid() && cursor == old(cursor) + 1 && (edge.Some? ==> edge.value == old(cursor))
      ensures edge.Some? ==> edge.value !in old(yielded) && yielded == old(yielded) + {edge.value}
      ensures edge.None? ==> yielded == old(yielded)
    {
      edge := None;
      var (a, b) := graph.ends[cursor];
      GreedyNext(graph, yielded, cursor);
      if a != b && a !in matchedNodes && b !in matchedNodes {
        assert Touches(graph, cursor, a) && Touches(graph, cursor, b);
        matchedNodes := matchedNodes + {a, b};
        yielded := yielded + {cursor};
        edge := Some(cursor);
      }
      cursor := cursor + 1;
    }
  }
}
