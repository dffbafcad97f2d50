/** The residual network of Edmonds-Karp (`src/algo/max_flow.rs`) and its breadth-first search for
    a shortest augmenting path. */
module Residual {
  import opened Seqs
  import opened Vec
  import opened Graphs

  datatype AugmentStep = Forward(edge: nat) | Reverse(from: nat, to: nat)

  type RevFlow = map<(nat, nat), nat>

  function Rev(rev: RevFlow, a: nat, b: nat): nat {
    if (a, b) in rev then rev[(a, b)] else 0
  }

  ghost predicate IsStep(g: Digraph, st: AugmentStep) {
    match st
    case Forward(e) => e < |g.ends|
    case Reverse(a, b) => (b, a) in g.ends
  }

  ghost function From(g: Digraph, st: AugmentStep): nat
    requires IsStep(g, st)
  {
    match st
    case Forward(e) => g.ends[e].0
    case Reverse(a, b) => a
  }

  ghost function To(g: Digraph, st: AugmentStep): nat
    requires IsStep(g, st)
  {
    match st
    case Forward(e) => g.ends[e].1
    case Reverse(a, b) => b
  }

  /** What may still be pushed along the step. */
  function Room(res: seq<nat>, rev: RevFlow, st: AugmentStep): nat
    requires st.Forward? ==> st.edge < |res|
  {
    match st
    case Forward(e) => res[e]
    case Reverse(a, b) => Rev(rev, a, b)
  }

  ghost predicate Usable(g: Digraph, res: seq<nat>, rev: RevFlow, st: AugmentStep) {
    IsStep(g, st) && |res| == |g.ends| && Room(res, rev, st) > 0
  }

  /** Every usable step out of `s` stays in `s`. */
  ghost predicate Saturated(g: Digraph, res: seq<nat>, rev: RevFlow, s: set<nat>) {
    forall st {:trigger Usable(g, res, rev, st)} ::
      Usable(g, res, rev, st) && From(g, st) in s ==> To(g, st) in s
  }

  // ----- trails -----

  ghost predicate Joined(g: Digraph, path: seq<AugmentStep>, i: nat) {
    && 0 < i < |path| && IsStep(g, path[i - 1]) && IsStep(g, path[i])
    && To(g, path[i - 1]) == From(g, path[i])
  }

  /** The steps lead from `u` to `v`; no two leave the same node, and none leaves `v`. */
  ghost predicate IsTrail(g: Digraph, path: seq<AugmentStep>, u: nat, v: nat) {
    && (forall i: nat {:trigger path[i]} :: i < |path| ==> IsStep(g, path[i]) && From(g, path[i]) != v)
    && (if path == [] then u == v else From(g, path[0]) == u && To(g, path[|path| - 1]) == v)
    && (forall i: nat {:trigger Joined(g, path, i)} :: 0 < i < |path| ==> Joined(g, path, i))
    && (forall i: nat, j: nat {:trigger path[i], path[j]} ::
          i < j < |path| ==> From(g, path[i]) != From(g, path[j]))
  }

  ghost predicate IsAugmenting(g: Digraph, res: seq<nat>, rev: RevFlow, path: seq<AugmentStep>, u: nat, v: nat) {
    && IsTrail(g, path, u, v)
    && forall i: nat {:trigger path[i]} :: i < |path| ==> Usable(g, res, rev, path[i])
  }

  /** No augmenting trail has fewer steps. */
  ghost predicate IsShortest(g: Digraph, res: seq<nat>, rev: RevFlow, path: seq<AugmentStep>, u: nat, v: nat) {
    && IsAugmenting(g, res, rev, path, u, v)
    && forall p {:trigger IsAugmenting(g, res, rev, p, u, v)} :: IsAugmenting(g, res, rev, p, u, v) ==> |path| <= |p|
  }

  /** `k` usable steps lead from `s` to `v`. */
  ghost predicate Walks(g: Digraph, res: seq<nat>, rev: RevFlow, s: nat, v: nat, k: nat)
    decreases k
  {
    if k == 0 then v == s
    else exists st :: Usable(g, res, rev, st) && To(g, st) == v && Walks(g, res, rev, s, From(g, st), k - 1)
  }

  /** Fewer than `k` usable steps never lead from `s` to `v`. */
  ghost predicate Far(g: Digraph, res: seq<nat>, rev: RevFlow, s: nat, v: nat, k: int) {
    forall j: nat {:trigger Walks(g, res, rev, s, v, j)} :: j < k ==> !Walks(g, res, rev, s, v, j)
  }

  ghost function NodeAt(g: Digraph, path: seq<AugmentStep>, v: nat, i: nat): nat
    requires i < |path| ==> IsStep(g, path[i])
  {
    if i < |path| then From(g, path[i]) else v
  }

  /** The node before step `i` of the path is not to be had in fewer than `i` steps. */
  ghost predicate IsStraight(g: Digraph, res: seq<nat>, rev: RevFlow, path: seq<AugmentStep>, u: nat, v: nat) {
    && IsAugmenting(g, res, rev, path, u, v)
    && forall i: nat {:trigger NodeAt(g, path, v, i)} :: i <= |path| ==> Far(g, res, rev, u, NodeAt(g, path, v, i), i)
  }

  lemma {:induction false} TrailWalks(g: Digraph, res: seq<nat>, rev: RevFlow, path: seq<AugmentStep>, u: nat, v: nat,
                                      i: nat)
    requires IsAugmenting(g, res, rev, path, u, v) && i <= |path|
    ensures Walks(g, res, rev, u, NodeAt(g, path, v, i), i)
  {
    if i > 0 {
      TrailWalks(g, res, rev, path, u, v, i - 1);
      assert Usable(g, res, rev, path[i - 1]);
      if i < |path| {
        assert Joined(g, path, i);
      }
    }
  }

  lemma StraightIsShortest(g: Digraph, res: seq<nat>, rev: RevFlow, path: seq<AugmentStep>, u: nat, v: nat)
    requires IsStraight(g, res, rev, path, u, v)
    ensures IsShortest(g, res, rev, path, u, v)
  {
    forall p | IsAugmenting(g, res, rev, p, u, v) ensures |path| <= |p| {
      TrailWalks(g, res, rev, p, u, v, |p|);
      assert NodeAt(g, path, v, |path|) == v;
    }
  }

  /** A step never leads to a node left by itself or by an earlier step. */
  lemma NoReturn(g: Digraph, path: seq<AugmentStep>, u: nat, v: nat, k: nat, i: nat)
    requires IsTrail(g, path, u, v) && k <= i < |path|
    ensures To(g, path[i]) != From(g, path[k])
  {
    if i + 1 < |path| {
      assert Joined(g, path, i + 1);
    }
  }

  // ----- the order of the choices -----

  ghost function TailAt(g: Digraph, u: nat, k: nat): nat
    requires u < |g.ins| && k < |g.ins[u]|
  {
    if g.ins[u][k] < |g.ends| then g.ends[g.ins[u][k]].0 else 0
  }

  /** Edge `k` into `u` is the first from `b`. */
  ghost predicate IsFirstFrom(g: Digraph, u: nat, b: nat, k: nat)
    requires u < |g.ins|
  {
    && k < |g.ins[u]| && TailAt(g, u, k) == b
    && forall j: nat {:trigger TailAt(g, u, j)} :: j < k ==> TailAt(g, u, j) != b
  }

  /** Choice `c` at `u` is the step `st`: the edges out come first, then the nodes that edges come in
      from. */
  ghost predicate IsChoice(g: Digraph, u: nat, st: AugmentStep, c: nat) {
    && u < |g.outs| && u < |g.ins|
    && match st
       case Forward(e) => c < |g.outs[u]| && g.outs[u][c] == e
       case Reverse(a, b) => a == u && |g.outs[u]| <= c && IsFirstFrom(g, u, b, c - |g.outs[u]|)
  }

  lemma ChoiceFrom(g: Digraph, u: nat, st: AugmentStep, c: nat)
    requires g.Valid() && IsChoice(g, u, st, c) && IsStep(g, st)
    ensures From(g, st) == u && c < |g.outs[u]| + |g.ins[u]|
  {
    assert g.Lists(g.outs[u], u, true);
  }

  lemma HasChoice(g: Digraph, st: AugmentStep) returns (c: nat)
    requires g.Valid() && IsStep(g, st)
    ensures IsChoice(g, From(g, st), st, c)
  {
    match st
    case Forward(e) =>
      var u := g.ends[e].0;
      assert g.Lists(g.outs[u], u, true);
      assert e in g.outs[u];
      c :| c < |g.outs[u]| && g.outs[u][c] == e;
    case Reverse(a, b) =>
      var e: nat :| e < |g.ends| && g.ends[e] == (b, a);
      assert g.Lists(g.ins[a], a, false);
      assert e in g.ins[a];
      var k: nat :| k < |g.ins[a]| && g.ins[a][k] == e;
      assert TailAt(g, a, k) == b;
      var first := FirstFrom(g, a, b, k);
      c := |g.outs[a]| + first;
  }

  lemma FirstFrom(g: Digraph, u: nat, b: nat, k: nat) returns (first: nat)
    requires u < |g.ins| && k < |g.ins[u]| && TailAt(g, u, k) == b
    ensures IsFirstFrom(g, u, b, first)
  {
    first := 0;
    while TailAt(g, u, first) != b
      invariant first <= k && forall j: nat {:trigger TailAt(g, u, j)} :: j < first ==> TailAt(g, u, j) != b
      decreases k - first
    {
      first := first + 1;
    }
  }

  lemma OneChoice(g: Digraph, u: nat, s: AugmentStep, t: AugmentStep, c: nat, d: nat)
    requires IsChoice(g, u, s, c) && IsChoice(g, u, t, d)
    ensures c == d ==> s == t
  {
    if c == d && s.Reverse? && t.Reverse? {
      assert TailAt(g, u, c - |g.outs[u]|) == s.to == t.to;
    }
  }

  /** Both steps leave the same node, and `s` is the earlier choice there. */
  ghost predicate ChosenSooner(g: Digraph, s: AugmentStep, t: AugmentStep) {
    exists u: nat, c: nat, d: nat :: c < d && IsChoice(g, u, s, c) && IsChoice(g, u, t, d)
  }

  /** The paths are the same up to step `x` and part there. */
  ghost predicate PartAt(path: seq<AugmentStep>, other: seq<AugmentStep>, x: nat) {
    x < |path| && x < |other| && path[..x] == other[..x] && path[x] != other[x]
  }

  /** Where another augmenting trail of as many steps parts from the path, the path takes the earlier
      choice. */
  ghost predicate IsForemost(g: Digraph, res: seq<nat>, rev: RevFlow, path: seq<AugmentStep>, u: nat, v: nat) {
    forall q, x: nat {:trigger IsAugmenting(g, res, rev, q, u, v), PartAt(path, q, x)} ::
      IsAugmenting(g, res, rev, q, u, v) && |q| == |path| && PartAt(path, q, x) ==> ChosenSooner(g, path[x], q[x])
  }

  /** So there is one shortest path to choose. */
  lemma ForemostOnce(g: Digraph, res: seq<nat>, rev: RevFlow, p: seq<AugmentStep>, q: seq<AugmentStep>, u: nat, v: nat)
    requires g.Valid() && IsShortest(g, res, rev, p, u, v) && IsShortest(g, res, rev, q, u, v)
    requires IsForemost(g, res, rev, p, u, v) && IsForemost(g, res, rev, q, u, v)
    ensures p == q
  {
    assert |p| == |q|;
    if p != q {
      var x := FirstPart(p, q);
      assert PartAt(p, q, x) && PartAt(q, p, x);
      SoonerOneWay(g, p[x], q[x]);
      assert false;
    }
  }

  lemma FirstPart(p: seq<AugmentStep>, q: seq<AugmentStep>) returns (x: nat)
    requires |p| == |q| && p != q
    ensures PartAt(p, q, x)
  {
    x := 0;
    while x < |p| && p[x] == q[x]
      invariant x <= |p| && p[..x] == q[..x]
    {
      x := x + 1;
    }
  }

  lemma SoonerOneWay(g: Digraph, s: AugmentStep, t: AugmentStep)
    requires g.Valid() && IsStep(g, s) && IsStep(g, t) && ChosenSooner(g, s, t)
    ensures !ChosenSooner(g, t, s)
  {
    var u: nat, c: nat, d: nat :| c < d && IsChoice(g, u, s, c) && IsChoice(g, u, t, d);
    forall w: nat, i: nat, j: nat | IsChoice(g, w, t, i) && IsChoice(g, w, s, j) ensures j < i {
      ChoiceFrom(g, u, s, c);
      ChoiceFrom(g, w, s, j);
      SameChoice(g, u, s, c, j);
      SameChoice(g, u, t, d, i);
    }
  }

  lemma SameChoice(g: Digraph, u: nat, s: AugmentStep, c: nat, d: nat)
    requires g.Valid() && IsChoice(g, u, s, c) && IsChoice(g, u, s, d)
    ensures c == d
  {
    match s
    case Forward(e) =>
      assert g.Lists(g.outs[u], u, true);
    case Reverse(a, b) =>
      assert TailAt(g, u, c - |g.outs[u]|) == b && TailAt(g, u, d - |g.outs[u]|) == b;
  }

  // ----- the search for an augmenting path -----

  type Parents = map<nat, (nat, AugmentStep)>

  ghost predicate Prior(j: nat, p: nat, k: nat, c: nat) {
    j < k || (j == k && p < c)
  }

  /** Node `i` was found from node `par[i]` by its choice `pos[i]`. */
  ghost predicate CameBy(g: Digraph, found: seq<nat>, visited: Parents, par: seq<nat>, pos: seq<nat>, i: nat) {
    && i < |found| == |par| == |pos| && par[i] < i && found[i] in visited
    && visited[found[i]].0 == found[par[i]] && IsChoice(g, found[par[i]], visited[found[i]].1, pos[i])
  }

  ghost predicate CameSooner(par: seq<nat>, pos: seq<nat>, i: nat, l: nat) {
    i < |par| == |pos| && l < |par| && Prior(par[i], pos[i], par[l], pos[l])
  }

  /** `v` was found no later than by choice `p` of node `j`. */
  ghost predicate FoundAt(found: seq<nat>, par: seq<nat>, pos: seq<nat>, v: nat, j: nat, p: nat, i: nat) {
    i < |found| == |par| == |pos| && found[i] == v && (i == 0 || !Prior(j, p, par[i], pos[i]))
  }

  ghost predicate FoundBy(found: seq<nat>, par: seq<nat>, pos: seq<nat>, v: nat, j: nat, p: nat) {
    exists i: nat :: FoundAt(found, par, pos, v, j, p, i)
  }

  ghost predicate Tried(g: Digraph, res: seq<nat>, rev: RevFlow, found: seq<nat>, par: seq<nat>, pos: seq<nat>, j: nat,
                        st: AugmentStep, p: nat)
  {
    j < |found| && Usable(g, res, rev, st) && IsChoice(g, found[j], st, p) ==>
      FoundBy(found, par, pos, To(g, st), j, p)
  }

  /** Every choice before choice `c` of node `k` has been tried, and nodes stand in the order of the
      choices that found them. */
  ghost predicate Chosen(g: Digraph, res: seq<nat>, rev: RevFlow, found: seq<nat>, visited: Parents, par: seq<nat>,
                         pos: seq<nat>, k: nat, c: nat)
  {
    && |par| == |pos| == |found|
    && (forall i: nat {:trigger CameBy(g, found, visited, par, pos, i)} ::
          1 <= i < |found| ==> CameBy(g, found, visited, par, pos, i))
    && (forall i: nat, l: nat {:trigger CameSooner(par, pos, i, l)} ::
          1 <= i < l < |found| ==> CameSooner(par, pos, i, l))
    && (forall i: nat {:trigger par[i]} :: 1 <= i < |found| ==> Prior(par[i], pos[i], k, c))
    && forall j: nat, st, p: nat {:trigger Tried(g, res, rev, found, par, pos, j, st, p)} ::
         Prior(j, p, k, c) ==> Tried(g, res, rev, found, par, pos, j, st, p)
  }

  lemma ChosenStart(g: Digraph, res: seq<nat>, rev: RevFlow, source: nat)
    ensures Chosen(g, res, rev, [source], map[], [0], [0], 0, 0)
  {
  }

  /** Choice `c` of node `k` finds a new node. */
  lemma ChosenNew(g: Digraph, res: seq<nat>, rev: RevFlow, found: seq<nat>, visited: Parents, par: seq<nat>,
                  pos: seq<nat>, k: nat, c: nat, st: AugmentStep)
    requires Chosen(g, res, rev, found, visited, par, pos, k, c) && k < |found|
    requires Usable(g, res, rev, st) && IsChoice(g, found[k], st, c) && To(g, st) !in found
    ensures var v := To(g, st);
            Chosen(g, res, rev, found + [v], visited[v := (found[k], st)], par + [k], pos + [c], k, c + 1)
  {
    var v := To(g, st);
    var found', visited', par', pos' := found + [v], visited[v := (found[k], st)], par + [k], pos + [c];
    forall i: nat | 1 <= i < |found'| ensures CameBy(g, found', visited', par', pos', i) {
      if i < |found| {
        assert CameBy(g, found, visited, par, pos, i) && found[i] in found;
      }
    }
    forall i: nat, l: nat | 1 <= i < l < |found'| ensures CameSooner(par', pos', i, l) {
      if l < |found| {
        assert CameSooner(par, pos, i, l);
      } else {
        assert Prior(par[i], pos[i], k, c);
      }
    }
    forall j: nat, s, p: nat | Prior(j, p, k, c + 1) ensures Tried(g, res, rev, found', par', pos', j, s, p) {
      if Prior(j, p, k, c) {
        TriedMore(g, res, rev, found, par, pos, v, k, c, j, s, p);
      } else if Usable(g, res, rev, s) && IsChoice(g, found'[j], s, p) {
        OneChoice(g, found[k], s, st, p, c);
        assert FoundAt(found', par', pos', v, j, p, |found|);
      }
    }
  }

  lemma TriedMore(g: Digraph, res: seq<nat>, rev: RevFlow, found: seq<nat>, par: seq<nat>, pos: seq<nat>, v: nat,
                  k: nat, c: nat, j: nat, s: AugmentStep, p: nat)
    requires |par| == |pos| == |found| && j < |found| && Tried(g, res, rev, found, par, pos, j, s, p)
    ensures Tried(g, res, rev, found + [v], par + [k], pos + [c], j, s, p)
  {
    if Usable(g, res, rev, s) && IsChoice(g, found[j], s, p) {
      var i: nat :| FoundAt(found, par, pos, To(g, s), j, p, i);
      assert FoundAt(found + [v], par + [k], pos + [c], To(g, s), j, p, i);
    }
  }

  /** Choice `c` of node `k` is not usable or leads to a node found already. */
  lemma ChosenPass(g: Digraph, res: seq<nat>, rev: RevFlow, found: seq<nat>, visited: Parents, par: seq<nat>,
                   pos: seq<nat>, k: nat, c: nat)
    requires Chosen(g, res, rev, found, visited, par, pos, k, c) && k < |found|
    requires forall s {:trigger Usable(g, res, rev, s)} ::
               Usable(g, res, rev, s) && IsChoice(g, found[k], s, c) ==> To(g, s) in found
    ensures Chosen(g, res, rev, found, visited, par, pos, k, c + 1)
  {
    forall j: nat, s, p: nat | Prior(j, p, k, c + 1) ensures Tried(g, res, rev, found, par, pos, j, s, p) {
      if Prior(j, p, k, c) {
        assert Tried(g, res, rev, found, par, pos, j, s, p);
      } else if Usable(g, res, rev, s) && IsChoice(g, found[j], s, p) {
        var i: nat :| i < |found| && found[i] == To(g, s);
        assert i > 0 ==> Prior(par[i], pos[i], k, c);
        assert FoundAt(found, par, pos, To(g, s), j, p, i);
      }
    }
  }

  /** Node `k` has no choice left. */
  lemma ChosenTurn(g: Digraph, res: seq<nat>, rev: RevFlow, found: seq<nat>, visited: Parents, par: seq<nat>,
                   pos: seq<nat>, k: nat, c: nat)
    requires g.Valid() && Chosen(g, res, rev, found, visited, par, pos, k, c) && k < |found| && found[k] < g.n
    requires c == |g.outs[found[k]]| + |g.ins[found[k]]|
    ensures Chosen(g, res, rev, found, visited, par, pos, k + 1, 0)
  {
    forall j: nat, s, p: nat | Prior(j, p, k + 1, 0) ensures Tried(g, res, rev, found, par, pos, j, s, p) {
      if Prior(j, p, k, c) {
        assert Tried(g, res, rev, found, par, pos, j, s, p);
      } else if Usable(g, res, rev, s) && IsChoice(g, found[j], s, p) {
        ChoiceFrom(g, found[k], s, p);
        assert false;
      }
    }
  }

  /** `idx` names the places of the nodes along the path, each found from the one before. */
  ghost predicate LinkedAt(found: seq<nat>, visited: Parents, par: seq<nat>, path: seq<AugmentStep>, idx: seq<nat>,
                           x: nat)
  {
    && x < |path| && |idx| == |path| + 1 && |par| == |found| && 1 <= idx[x + 1] < |found|
    && par[idx[x + 1]] == idx[x] && found[idx[x + 1]] in visited && visited[found[idx[x + 1]]].1 == path[x]
  }

  ghost predicate IsChain(found: seq<nat>, visited: Parents, par: seq<nat>, path: seq<AugmentStep>, idx: seq<nat>,
                          i: nat, k: nat)
  {
    && |idx| == |path| + 1 && idx[0] == i && idx[|path|] == k
    && forall x: nat {:trigger LinkedAt(found, visited, par, path, idx, x)} ::
         x < |path| ==> LinkedAt(found, visited, par, path, idx, x)
  }

  lemma ChainExtends(found: seq<nat>, visited: Parents, par: seq<nat>, path: seq<AugmentStep>, idx: seq<nat>, i: nat,
                     k: nat, j: nat, st: AugmentStep)
    requires IsChain(found, visited, par, path, idx, i, k) && 1 <= i < |found| == |par|
    requires par[i] == j && found[i] in visited && visited[found[i]].1 == st
    ensures IsChain(found, visited, par, [st] + path, [j] + idx, j, k)
  {
    var path', idx' := [st] + path, [j] + idx;
    forall x: nat | x < |path'| ensures LinkedAt(found, visited, par, path', idx', x) {
      if x > 0 {
        assert LinkedAt(found, visited, par, path, idx, x - 1);
        assert path'[x] == path[x - 1] && idx'[x] == idx[x - 1] && idx'[x + 1] == idx[x];
      }
    }
  }

  /** A node found by a choice before the one that found node `l` stands before `l`. */
  lemma StandsBefore(g: Digraph, res: seq<nat>, rev: RevFlow, found: seq<nat>, visited: Parents, par: seq<nat>,
                     pos: seq<nat>, k: nat, c: nat, v: nat, j: nat, p: nat, l: nat) returns (i: nat)
    requires Chosen(g, res, rev, found, visited, par, pos, k, c) && FoundBy(found, par, pos, v, j, p)
    requires 1 <= l < |found| && Prior(j, p, par[l], pos[l])
    ensures i < l && found[i] == v
  {
    forall m: nat | l < m < |found| ensures !FoundAt(found, par, pos, v, j, p, m) {
      assert CameSooner(par, pos, l, m);
    }
    i :| FoundAt(found, par, pos, v, j, p, i);
  }

  /** Steps that once stand before the path's nodes go on doing so. */
  lemma {:induction false} FallsBehind(g: Digraph, res: seq<nat>, rev: RevFlow, sink: nat, source: nat, found: seq<nat>,
                                       visited: Parents, par: seq<nat>, pos: seq<nat>, k: nat, path: seq<AugmentStep>,
                                       idx: seq<nat>, q: seq<AugmentStep>, y: nat, z: nat, i: nat) returns (w: nat)
    requires g.Valid() && Chosen(g, res, rev, found, visited, par, pos, k, 0) && k < |found|
    requires IsChain(found, visited, par, path, idx, 0, k) && IsAugmenting(g, res, rev, q, source, sink)
    requires |q| == |path| && y <= z <= |path| && i < idx[y] && i < |found| && found[i] == NodeAt(g, q, sink, y)
    ensures w < idx[z] && w < |found| && found[w] == NodeAt(g, q, sink, z)
    decreases z
  {
    if y == z {
      w := i;
      ChainWithin(g, res, rev, found, visited, par, pos, k, path, idx, z);
    } else {
      var prev := FallsBehind(g, res, rev, sink, source, found, visited, par, pos, k, path, idx, q, y, z - 1, i);
      ChainWithin(g, res, rev, found, visited, par, pos, k, path, idx, z - 1);
      assert LinkedAt(found, visited, par, path, idx, z - 1);
      assert Usable(g, res, rev, q[z - 1]);
      var p := HasChoice(g, q[z - 1]);
      assert Tried(g, res, rev, found, par, pos, prev, q[z - 1], p);
      w := StandsBefore(g, res, rev, found, visited, par, pos, k, 0, To(g, q[z - 1]), prev, p, idx[z]);
      if z < |q| {
        assert Joined(g, q, z);
      }
    }
  }

  /** The chain stands at rising places, none behind the sink. */
  lemma {:induction false} ChainWithin(g: Digraph, res: seq<nat>, rev: RevFlow, found: seq<nat>, visited: Parents,
                                       par: seq<nat>, pos: seq<nat>, k: nat, path: seq<AugmentStep>, idx: seq<nat>,
                                       x: nat)
    requires Chosen(g, res, rev, found, visited, par, pos, k, 0) && k < |found|
    requires IsChain(found, visited, par, path, idx, 0, k) && x <= |path|
    ensures idx[x] <= k && (x < |path| ==> idx[x] < idx[x + 1])
    decreases |path| - x
  {
    if x < |path| {
      ChainWithin(g, res, rev, found, visited, par, pos, k, path, idx, x + 1);
      assert LinkedAt(found, visited, par, path, idx, x);
      assert CameBy(g, found, visited, par, pos, idx[x + 1]);
    }
  }

  lemma ForemostFound(g: Digraph, res: seq<nat>, rev: RevFlow, source: nat, sink: nat, found: seq<nat>,
                      visited: Parents, par: seq<nat>, pos: seq<nat>, k: nat, path: seq<AugmentStep>, idx: seq<nat>)
    requires g.Valid() && Chosen(g, res, rev, found, visited, par, pos, k, 0) && k < |found| && NoDup(found)
    requires found[k] == sink && found[0] == source
    requires IsChain(found, visited, par, path, idx, 0, k) && IsAugmenting(g, res, rev, path, source, sink)
    ensures IsForemost(g, res, rev, path, source, sink)
  {
    forall q, x: nat | IsAugmenting(g, res, rev, q, source, sink) && |q| == |path| && PartAt(path, q, x)
      ensures ChosenSooner(g, path[x], q[x])
    {
      PartsLater(g, res, rev, source, sink, found, visited, par, pos, k, path, idx, q, x);
    }
  }

  lemma PartsLater(g: Digraph, res: seq<nat>, rev: RevFlow, source: nat, sink: nat, found: seq<nat>, visited: Parents,
                   par: seq<nat>, pos: seq<nat>, k: nat, path: seq<AugmentStep>, idx: seq<nat>, q: seq<AugmentStep>,
                   x: nat)
    requires g.Valid() && Chosen(g, res, rev, found, visited, par, pos, k, 0) && k < |found| && NoDup(found)
    requires found[k] == sink
    requires IsChain(found, visited, par, path, idx, 0, k) && IsAugmenting(g, res, rev, path, source, sink)
    requires IsAugmenting(g, res, rev, q, source, sink) && |q| == |path| && PartAt(path, q, x)
    ensures ChosenSooner(g, path[x], q[x])
  {
    var l := idx[x + 1];
    ChainWithin(g, res, rev, found, visited, par, pos, k, path, idx, x);
    assert LinkedAt(found, visited, par, path, idx, x) && CameBy(g, found, visited, par, pos, l);
    var u := found[idx[x]];
    assert IsChoice(g, u, path[x], pos[l]);
    ChoiceFrom(g, u, path[x], pos[l]);
    SameStart(g, res, rev, source, sink, path, q, x);
    var d := HasChoice(g, q[x]);
    OneChoice(g, u, path[x], q[x], pos[l], d);
    if d < pos[l] {
      assert Usable(g, res, rev, q[x]) && Prior(idx[x], d, k, 0);
      assert Tried(g, res, rev, found, par, pos, idx[x], q[x], d);
      var i := StandsBefore(g, res, rev, found, visited, par, pos, k, 0, To(g, q[x]), idx[x], d, l);
      if x + 1 < |q| {
        assert Joined(g, q, x + 1);
      }
      var w := FallsBehind(g, res, rev, sink, source, found, visited, par, pos, k, path, idx, q, x + 1, |q|, i);
    }
  }

  lemma SameStart(g: Digraph, res: seq<nat>, rev: RevFlow, source: nat, sink: nat, path: seq<AugmentStep>,
                  q: seq<AugmentStep>, x: nat)
    requires IsAugmenting(g, res, rev, path, source, sink) && IsAugmenting(g, res, rev, q, source, sink)
    requires PartAt(path, q, x)
    ensures IsStep(g, path[x]) && IsStep(g, q[x]) && From(g, path[x]) == From(g, q[x])
  {
    if x > 0 {
      assert Joined(g, path, x) && Joined(g, q, x);
      assert path[x - 1] == path[..x][x - 1] == q[..x][x - 1] == q[x - 1];
    }
  }

  /** `v` is found, at most `x` steps deep. */
  ghost predicate Within(found: seq<nat>, depth: seq<nat>, v: nat, x: nat) {
    exists j: nat :: j < |found| && j < |depth| && found[j] == v && depth[j] <= x
  }

  lemma WithinGrows(found: seq<nat>, depth: seq<nat>, found': seq<nat>, depth': seq<nat>, v: nat, x: nat)
    requires Within(found, depth, v, x) && found <= found' && depth <= depth'
    ensures Within(found', depth', v, x)
  {
    var j: nat :| j < |found| && j < |depth| && found[j] == v && depth[j] <= x;
    assert found'[j] == v && depth'[j] <= x;
  }

  /** Node `i` was discovered over a usable step from node `p`, one step less deep. */
  ghost predicate ParentAt(g: Digraph, found: seq<nat>, depth: seq<nat>, i: nat, p: nat, prev: nat) {
    p < i < |found| && |depth| == |found| && found[p] == prev && depth[i] == depth[p] + 1
  }

  ghost predicate DiscoveredBy(g: Digraph, res: seq<nat>, rev: RevFlow, found: seq<nat>, depth: seq<nat>,
                               visited: Parents, i: nat)
    requires i < |found|
  {
    && found[i] in visited
    && var (prev, st) := visited[found[i]];
       && Usable(g, res, rev, st) && To(g, st) == found[i] && From(g, st) == prev
       && exists p :: ParentAt(g, found, depth, i, p, prev)
  }

  ghost predicate Rising(depth: seq<nat>) {
    forall i, j :: 0 <= i <= j < |depth| ==> depth[i] <= depth[j]
  }

  /** Nodes in order of discovery with their depths. */
  ghost predicate Searched(g: Digraph, res: seq<nat>, rev: RevFlow, source: nat, found: seq<nat>, depth: seq<nat>,
                           visited: Parents)
  {
    && g.Valid() && |res| == |g.ends| && |depth| == |found| && Rising(depth)
    && NoDup(found) && found != [] && found[0] == source && depth[0] == 0
    && (forall i :: 0 <= i < |found| ==> found[i] < g.n)
    && forall i: nat {:trigger DiscoveredBy(g, res, rev, found, depth, visited, i)} ::
         1 <= i < |found| ==> DiscoveredBy(g, res, rev, found, depth, visited, i)
  }

  /** Node `at` is being expanded: nothing found is more than one step deeper. */
  ghost predicate Shallow(depth: seq<nat>, at: nat) {
    at < |depth| && depth[|depth| - 1] <= depth[at] + 1
  }

  lemma SearchedGrows(g: Digraph, res: seq<nat>, rev: RevFlow, source: nat, found: seq<nat>, depth: seq<nat>,
                      visited: Parents, at: nat, st: AugmentStep)
    requires Searched(g, res, rev, source, found, depth, visited) && Shallow(depth, at)
    requires Usable(g, res, rev, st) && From(g, st) == found[at] && To(g, st) !in found && To(g, st) < g.n
    ensures Searched(g, res, rev, source, found + [To(g, st)], depth + [depth[at] + 1],
                     visited[To(g, st) := (From(g, st), st)])
    ensures Shallow(depth + [depth[at] + 1], at)
    ensures Within(found + [To(g, st)], depth + [depth[at] + 1], To(g, st), depth[at] + 1)
  {
    var v := To(g, st);
    var found', depth', visited' := found + [v], depth + [depth[at] + 1], visited[v := (From(g, st), st)];
    forall i: nat | 1 <= i < |found'| ensures DiscoveredBy(g, res, rev, found', depth', visited', i) {
      if i < |found| {
        assert DiscoveredBy(g, res, rev, found, depth, visited, i);
        assert found[i] in found;
        var p :| ParentAt(g, found, depth, i, p, visited[found[i]].0);
        assert ParentAt(g, found', depth', i, p, visited'[found'[i]].0);
      } else {
        assert ParentAt(g, found', depth', i, at, found[at]);
      }
    }
    assert found'[|found|] == v;
  }

  /** A node already found is not too deep either. */
  lemma FoundWithin(found: seq<nat>, depth: seq<nat>, at: nat, v: nat)
    requires |found| == |depth| && Rising(depth) && Shallow(depth, at) && v in found
    ensures Within(found, depth, v, depth[at] + 1)
  {
    var j: nat :| j < |found| && found[j] == v;
    assert depth[j] <= depth[|depth| - 1];
  }

  /** Usable steps over the listed edges lead to nodes at most `x` deep. */
  ghost predicate ForwardCovered(g: Digraph, res: seq<nat>, edges: seq<nat>, found: seq<nat>, depth: seq<nat>, x: nat) {
    forall k {:trigger edges[k]} ::
      0 <= k < |edges| && edges[k] < |g.ends| && edges[k] < |res| && res[edges[k]] > 0 ==>
        Within(found, depth, g.ends[edges[k]].1, x)
  }

  ghost predicate ReverseCovered(g: Digraph, rev: RevFlow, u: nat, edges: seq<nat>, found: seq<nat>, depth: seq<nat>,
                                 x: nat)
  {
    forall k {:trigger edges[k]} ::
      0 <= k < |edges| && edges[k] < |g.ends| && Rev(rev, u, g.ends[edges[k]].0) > 0 ==>
        Within(found, depth, g.ends[edges[k]].0, x)
  }

  ghost predicate Expanded(g: Digraph, res: seq<nat>, rev: RevFlow, u: nat, x: nat, found: seq<nat>, depth: seq<nat>) {
    forall st {:trigger Usable(g, res, rev, st)} ::
      Usable(g, res, rev, st) && From(g, st) == u ==> Within(found, depth, To(g, st), x + 1)
  }

  lemma ForwardCoveredGrows(g: Digraph, res: seq<nat>, edges: seq<nat>, found: seq<nat>, depth: seq<nat>,
                            found': seq<nat>, depth': seq<nat>, x: nat)
    requires ForwardCovered(g, res, edges, found, depth, x) && found <= found' && depth <= depth'
    ensures ForwardCovered(g, res, edges, found', depth', x)
  {
    forall k | 0 <= k < |edges| && edges[k] < |g.ends| && edges[k] < |res| && res[edges[k]] > 0
      ensures Within(found', depth', g.ends[edges[k]].1, x)
    {
      WithinGrows(found, depth, found', depth', g.ends[edges[k]].1, x);
    }
  }

  lemma ReverseCoveredGrows(g: Digraph, rev: RevFlow, u: nat, edges: seq<nat>, found: seq<nat>, depth: seq<nat>,
                            found': seq<nat>, depth': seq<nat>, x: nat)
    requires ReverseCovered(g, rev, u, edges, found, depth, x) && found <= found' && depth <= depth'
    ensures ReverseCovered(g, rev, u, edges, found', depth', x)
  {
    forall k | 0 <= k < |edges| && edges[k] < |g.ends| && Rev(rev, u, g.ends[edges[k]].0) > 0
      ensures Within(found', depth', g.ends[edges[k]].0, x)
    {
      WithinGrows(found, depth, found', depth', g.ends[edges[k]].0, x);
    }
  }

  lemma ExpandedGrows(g: Digraph, res: seq<nat>, rev: RevFlow, u: nat, x: nat, found: seq<nat>, depth: seq<nat>,
                      found': seq<nat>, depth': seq<nat>)
    requires Expanded(g, res, rev, u, x, found, depth) && found <= found' && depth <= depth'
    ensures Expanded(g, res, rev, u, x, found', depth')
  {
    forall st | Usable(g, res, rev, st) && From(g, st) == u ensures Within(found', depth', To(g, st), x + 1) {
      WithinGrows(found, depth, found', depth', To(g, st), x + 1);
    }
  }

  lemma ExpandedWhenCovered(g: Digraph, res: seq<nat>, rev: RevFlow, u: nat, x: nat, found: seq<nat>, depth: seq<nat>)
    requires g.Valid() && u < g.n && |res| == |g.ends|
    requires ForwardCovered(g, res, g.outs[u], found, depth, x + 1)
    requires ReverseCovered(g, rev, u, g.ins[u], found, depth, x + 1)
    ensures Expanded(g, res, rev, u, x, found, depth)
  {
    forall st | Usable(g, res, rev, st) && From(g, st) == u ensures Within(found, depth, To(g, st), x + 1) {
      match st
      case Forward(e) =>
        assert g.Lists(g.outs[u], u, true);
        assert e in g.outs[u];
        var k :| 0 <= k < |g.outs[u]| && g.outs[u][k] == e;
      case Reverse(a, b) =>
        var e: nat :| e < |g.ends| && g.ends[e] == (b, a);
        assert g.Lists(g.ins[u], u, false);
        assert e in g.ins[u];
        var k :| 0 <= k < |g.ins[u]| && g.ins[u][k] == e;
    }
  }

  /** The search has expanded the first `k` found nodes and queued the rest. */
  ghost predicate InSearch(g: Digraph, res: seq<nat>, rev: RevFlow, source: nat, sink: nat,
                           found: seq<nat>, depth: seq<nat>, visited: Parents, k: nat)
  {
    && Searched(g, res, rev, source, found, depth, visited) && k <= |found| && sink !in found[..k]
    && (k < |found| ==> Shallow(depth, k))
    && forall i: nat {:trigger found[i]} :: i < k ==> Expanded(g, res, rev, found[i], depth[i], found, depth)
  }

  /** `bfs_augmenting_path`: a shortest augmenting path, or the nodes that can still be reached. */
  method BfsAugmentingPath(g: Digraph, res: seq<nat>, rev: RevFlow, source: nat, sink: nat)
    returns (path: Option<seq<AugmentStep>>)
    requires g.Valid() && |res| == |g.ends| && source < g.n && sink < g.n
    ensures path.Some? ==>
              && IsStraight(g, res, rev, path.value, source, sink)
              && IsShortest(g, res, rev, path.value, source, sink)
              && IsForemost(g, res, rev, path.value, source, sink)
    ensures path.None? ==>
              exists s :: source in s && sink !in s && s <= Below(g.n) && Saturated(g, res, rev, s)
  {
    var visited: Parents := map[];
    var seen, queue := {source}, [source];
    ghost var found, depth, k := [source], [0], 0;
    ghost var par: seq<nat>, pos: seq<nat> := [0], [0];
    ChosenStart(g, res, rev, source);
    while queue != []
      invariant InSearch(g, res, rev, source, sink, found, depth, visited, k)
      invariant Chosen(g, res, rev, found, visited, par, pos, k, 0)
      invariant queue == found[k..] && seen == Elems(found)
      decreases g.n - |found|, |queue|
    {
      var node := queue[0];
      assert node == found[k];
      queue := queue[1..];
      if node == sink {
        ghost var idx;
        path, idx := Reconstruct(g, res, rev, source, sink, visited, found, depth, k, par, pos);
        StraightFound(g, res, rev, source, sink, found, depth, visited, k, path.value);
        ForemostFound(g, res, rev, source, sink, found, visited, par, pos, k, path.value, idx);
        StraightIsShortest(g, res, rev, path.value, source, sink);
        return;
      }
      ghost var found0, depth0 := found, depth;
      visited, seen, queue, found, depth, par, pos :=
        ExpandForward(g, res, rev, source, node, visited, seen, queue, found, depth, k, par, pos);
      ghost var found1, depth1 := found, depth;
      visited, seen, queue, found, depth, par, pos :=
        ExpandReverse(g, res, rev, source, node, visited, seen, queue, found, depth, k, par, pos);
      ExpandedNext(g, res, rev, source, sink, found0, depth0, found1, depth1, found, depth, visited, k);
      k := k + 1;
      FoundBound(g, found0, found);
    }
    path := None;
    assert found[..k] == found;
    SearchFails(g, res, rev, source, sink, found, depth, visited);
  }

  lemma FoundBound(g: Digraph, found0: seq<nat>, found: seq<nat>)
    requires NoDup(found) && found0 <= found && forall i :: 0 <= i < |found| ==> found[i] < g.n
    ensures |found0| <= |found| <= g.n
  {
    ElemsCard(found);
    SubsetCard(Elems(found), Below(g.n));
  }

  lemma ExpandedNext(g: Digraph, res: seq<nat>, rev: RevFlow, source: nat, sink: nat,
                     found0: seq<nat>, depth0: seq<nat>, found1: seq<nat>, depth1: seq<nat>,
                     found: seq<nat>, depth: seq<nat>, visited: Parents, k: nat)
    requires found0 <= found1 <= found && depth0 <= depth1 <= depth && k < |found0| == |depth0|
    requires found0[k] != sink && sink !in found0[..k]
    requires forall i: nat {:trigger found0[i]} ::
               i < k ==> Expanded(g, res, rev, found0[i], depth0[i], found0, depth0)
    requires Searched(g, res, rev, source, found, depth, visited) && Shallow(depth, k)
    requires ForwardCovered(g, res, g.outs[found0[k]], found1, depth1, depth0[k] + 1)
    requires ReverseCovered(g, rev, found0[k], g.ins[found0[k]], found, depth, depth0[k] + 1)
    ensures InSearch(g, res, rev, source, sink, found, depth, visited, k + 1)
  {
    assert found[..k + 1] == found0[..k] + [found0[k]];
    assert found[k] == found0[k] && depth[k] == depth0[k];
    ForwardCoveredGrows(g, res, g.outs[found0[k]], found1, depth1, found, depth, depth0[k] + 1);
    ExpandedWhenCovered(g, res, rev, found0[k], depth0[k], found, depth);
    forall i: nat | i < k + 1 ensures Expanded(g, res, rev, found[i], depth[i], found, depth) {
      if i < k {
        assert found[i] == found0[i] && depth[i] == depth0[i];
        ExpandedGrows(g, res, rev, found0[i], depth0[i], found0, depth0, found, depth);
      }
    }
  }

  lemma SearchFails(g: Digraph, res: seq<nat>, rev: RevFlow, source: nat, sink: nat, found: seq<nat>, depth: seq<nat>,
                    visited: Parents)
    requires InSearch(g, res, rev, source, sink, found, depth, visited, |found|)
    ensures exists s :: source in s && sink !in s && s <= Below(g.n) && Saturated(g, res, rev, s)
  {
    var s := Elems(found);
    assert found[..|found|] == found;
    assert found[0] in s;
    forall st | Usable(g, res, rev, st) && From(g, st) in s ensures To(g, st) in s {
      var i: nat :| i < |found| && found[i] == From(g, st);
      assert Within(found, depth, To(g, st), depth[i] + 1);
    }
    assert Saturated(g, res, rev, s);
  }

  /** Nodes not expanded yet lie at least as deep as the next one in the queue, so fewer steps lead
      to nodes already found and no deeper than that. */
  lemma {:induction false} WalkDepth(g: Digraph, res: seq<nat>, rev: RevFlow, source: nat, sink: nat, found: seq<nat>,
                                     depth: seq<nat>, visited: Parents, k: nat, v: nat, x: nat)
    requires InSearch(g, res, rev, source, sink, found, depth, visited, k) && k < |found|
    requires Walks(g, res, rev, source, v, x) && x < depth[k]
    ensures Within(found, depth, v, x)
    decreases x
  {
    if x == 0 {
      assert found[0] == source;
    } else {
      var st :| Usable(g, res, rev, st) && To(g, st) == v && Walks(g, res, rev, source, From(g, st), x - 1);
      WalkDepth(g, res, rev, source, sink, found, depth, visited, k, From(g, st), x - 1);
      var j: nat :| j < |found| && found[j] == From(g, st) && depth[j] <= x - 1;
      assert j < k;
      assert Within(found, depth, To(g, st), depth[j] + 1);
    }
  }

  ghost predicate DepthIs(found: seq<nat>, depth: seq<nat>, v: nat, x: nat) {
    exists j: nat :: j < |found| && j < |depth| && found[j] == v && depth[j] == x
  }

  lemma WithinDepth(found: seq<nat>, depth: seq<nat>, v: nat, x: nat, y: nat)
    requires NoDup(found) && |found| == |depth| && DepthIs(found, depth, v, x) && Within(found, depth, v, y)
    ensures x <= y
  {
  }

  lemma StraightFound(g: Digraph, res: seq<nat>, rev: RevFlow, source: nat, sink: nat, found: seq<nat>,
                      depth: seq<nat>, visited: Parents, k: nat, path: seq<AugmentStep>)
    requires InSearch(g, res, rev, source, sink, found, depth, visited, k) && k < |found|
    requires IsAugmenting(g, res, rev, path, source, sink) && |path| == depth[k]
    requires forall i: nat {:trigger NodeAt(g, path, sink, i)} ::
               i <= |path| ==> DepthIs(found, depth, NodeAt(g, path, sink, i), i)
    ensures IsStraight(g, res, rev, path, source, sink)
  {
    forall i: nat | i <= |path| ensures Far(g, res, rev, source, NodeAt(g, path, sink, i), i) {
      var v := NodeAt(g, path, sink, i);
      forall j: nat | j < i ensures !Walks(g, res, rev, source, v, j) {
        if Walks(g, res, rev, source, v, j) {
          WalkDepth(g, res, rev, source, sink, found, depth, visited, k, v, j);
          WithinDepth(found, depth, v, i, j);
        }
      }
    }
  }

  /** Forward edges with residual capacity. */
  method ExpandForward(g: Digraph, res: seq<nat>, ghost rev: RevFlow, ghost source: nat, node: nat, visited0: Parents,
                       seen0: set<nat>, queue0: seq<nat>, ghost found0: seq<nat>, ghost depth0: seq<nat>, ghost at: nat,
                       ghost par0: seq<nat>, ghost pos0: seq<nat>)
    returns (visited: Parents, seen: set<nat>, queue: seq<nat>, ghost found: seq<nat>, ghost depth: seq<nat>,
             ghost par: seq<nat>, ghost pos: seq<nat>)
    requires Searched(g, res, rev, source, found0, depth0, visited0) && Shallow(depth0, at)
    requires node == found0[at] && queue0 == found0[at + 1..] && seen0 == Elems(found0)
    requires Chosen(g, res, rev, found0, visited0, par0, pos0, at, 0)
    ensures Searched(g, res, rev, source, found, depth, visited) && Shallow(depth, at)
    ensures found0 <= found && depth0 <= depth && queue == found[at + 1..] && seen == Elems(found)
    ensures ForwardCovered(g, res, g.outs[node], found, depth, depth0[at] + 1)
    ensures Chosen(g, res, rev, found, visited, par, pos, at, |g.outs[node]|)
  {
    visited, seen, queue, found, depth := visited0, seen0, queue0, found0, depth0;
    par, pos := par0, pos0;
    var edges := g.outs[node];
    assert g.Lists(edges, node, true);
    var i := 0;
    while i < |edges|
      invariant i <= |edges|
      invariant Searched(g, res, rev, source, found, depth, visited) && Shallow(depth, at)
      invariant found0 <= found && depth0 <= depth && queue == found[at + 1..] && seen == Elems(found)
      invariant ForwardCovered(g, res, edges[..i], found, depth, depth0[at] + 1)
      invariant Chosen(g, res, rev, found, visited, par, pos, at, i)
    {
      var e := edges[i];
      var head := g.ends[e].1;
      ghost var found1, depth1 := found, depth;
      if head !in seen && res[e] > 0 {
        assert Usable(g, res, rev, Forward(e)) && found[at] == node;
        SearchedGrows(g, res, rev, source, found, depth, visited, at, Forward(e));
        ChosenNew(g, res, rev, found, visited, par, pos, at, i, Forward(e));
        seen := seen + {head};
        visited := visited[head := (node, Forward(e))];
        queue := queue + [head];
        found, depth, par, pos := found + [head], depth + [depth[at] + 1], par + [at], pos + [i];
      } else {
        if res[e] > 0 {
          FoundWithin(found, depth, at, head);
        }
        assert res[e] > 0 ==> head in Elems(found);
        ChosenPass(g, res, rev, found, visited, par, pos, at, i);
      }
      ForwardCoveredGrows(g, res, edges[..i], found1, depth1, found, depth, depth0[at] + 1);
      assert edges[..i + 1] == edges[..i] + [e];
      i := i + 1;
    }
    assert edges[..i] == edges;
  }

  /** Flow into the node that may be sent back. */
  method ExpandReverse(g: Digraph, ghost res: seq<nat>, rev: RevFlow, ghost source: nat, node: nat, visited0: Parents,
                       seen0: set<nat>, queue0: seq<nat>, ghost found0: seq<nat>, ghost depth0: seq<nat>, ghost at: nat,
                       ghost par0: seq<nat>, ghost pos0: seq<nat>)
    returns (visited: Parents, seen: set<nat>, queue: seq<nat>, ghost found: seq<nat>, ghost depth: seq<nat>,
             ghost par: seq<nat>, ghost pos: seq<nat>)
    requires Searched(g, res, rev, source, found0, depth0, visited0) && Shallow(depth0, at)
    requires node == found0[at] && queue0 == found0[at + 1..] && seen0 == Elems(found0)
    requires Chosen(g, res, rev, found0, visited0, par0, pos0, at, |g.outs[node]|)
    ensures Searched(g, res, rev, source, found, depth, visited) && Shallow(depth, at)
    ensures found0 <= found && depth0 <= depth && queue == found[at + 1..] && seen == Elems(found)
    ensures ReverseCovered(g, rev, node, g.ins[node], found, depth, depth0[at] + 1)
    ensures Chosen(g, res, rev, found, visited, par, pos, at + 1, 0)
  {
    visited, seen, queue, found, depth := visited0, seen0, queue0, found0, depth0;
    par, pos := par0, pos0;
    var edges := g.ins[node];
    assert g.Lists(edges, node, false);
    var i := 0;
    while i < |edges|
      invariant i <= |edges|
      invariant Searched(g, res, rev, source, found, depth, visited) && Shallow(depth, at)
      invariant found0 <= found && depth0 <= depth && queue == found[at + 1..] && seen == Elems(found)
      invariant ReverseCovered(g, rev, node, edges[..i], found, depth, depth0[at] + 1)
      invariant Chosen(g, res, rev, found, visited, par, pos, at, |g.outs[node]| + i)
    {
      var pred := g.ends[edges[i]].0;
      ghost var found1, depth1 := found, depth;
      if pred != node && pred !in seen && Rev(rev, node, pred) > 0 {
        assert g.ends[edges[i]] == (pred, node);
        assert Usable(g, res, rev, Reverse(node, pred)) && found[at] == node;
        SearchedGrows(g, res, rev, source, found, depth, visited, at, Reverse(node, pred));
        FirstIn(g, rev, node, edges, i, found, depth, depth0[at] + 1);
        ChosenNew(g, res, rev, found, visited, par, pos, at, |g.outs[node]| + i, Reverse(node, pred));
        seen := seen + {pred};
        visited := visited[pred := (node, Reverse(node, pred))];
        queue := queue + [pred];
        found, depth, par, pos :=
          found + [pred], depth + [depth[at] + 1], par + [at], pos + [|g.outs[node]| + i];
      } else {
        if pred == node || Rev(rev, node, pred) > 0 {
          assert found[at] == node;
          FoundWithin(found, depth, at, pred);
        }
        assert TailAt(g, node, i) == pred && (Rev(rev, node, pred) > 0 ==> pred in found);
        ChosenPass(g, res, rev, found, visited, par, pos, at, |g.outs[node]| + i);
      }
      ReverseCoveredGrows(g, rev, node, edges[..i], found1, depth1, found, depth, depth0[at] + 1);
      assert edges[..i + 1] == edges[..i] + [edges[i]];
      i := i + 1;
    }
    assert edges[..i] == edges;
    ChosenTurn(g, res, rev, found, visited, par, pos, at, |g.outs[node]| + i);
  }

  /** A node new at edge `i` has no earlier edge into `u`. */
  lemma FirstIn(g: Digraph, rev: RevFlow, u: nat, edges: seq<nat>, i: nat, found: seq<nat>, depth: seq<nat>, x: nat)
    requires u < |g.ins| && edges == g.ins[u] && i < |edges| && forall k :: 0 <= k < |edges| ==> edges[k] < |g.ends|
    requires ReverseCovered(g, rev, u, edges[..i], found, depth, x)
    requires Rev(rev, u, TailAt(g, u, i)) > 0 && TailAt(g, u, i) !in found
    ensures IsFirstFrom(g, u, TailAt(g, u, i), i)
  {
    forall j: nat | j < i ensures TailAt(g, u, j) != TailAt(g, u, i) {
      assert edges[..i][j] == edges[j];
    }
  }

  // ----- reading the path back -----

  /** The reversed path built so far leads from `found[i]` to the sink, one step per level, and
      leaves only nodes found no earlier and before the sink. */
  ghost predicate Backtrack(g: Digraph, res: seq<nat>, rev: RevFlow, sink: nat, found: seq<nat>, depth: seq<nat>,
                            k: nat, i: nat, back: seq<AugmentStep>)
  {
    && i <= k < |found| && |depth| == |found| && found[k] == sink && |back| + depth[i] == depth[k]
    && IsAugmenting(g, res, rev, Reversed(back), found[i], sink)
    && (forall x :: 0 <= x < |back| ==> IsStep(g, back[x]) && From(g, back[x]) in found[i..k])
    && forall x: nat {:trigger NodeAt(g, Reversed(back), sink, x)} ::
         x <= |back| ==> DepthIs(found, depth, NodeAt(g, Reversed(back), sink, x), depth[i] + x)
  }

  method Reconstruct(g: Digraph, res: seq<nat>, rev: RevFlow, source: nat, sink: nat, visited: Parents,
                     ghost found: seq<nat>, ghost depth: seq<nat>, ghost k: nat, ghost par: seq<nat>,
                     ghost pos: seq<nat>)
    returns (path: Option<seq<AugmentStep>>, ghost idx: seq<nat>)
    requires Chosen(g, res, rev, found, visited, par, pos, k, 0)
    requires Searched(g, res, rev, source, found, depth, visited) && k < |found| && found[k] == sink
    ensures path.Some? && IsAugmenting(g, res, rev, path.value, source, sink) && |path.value| == depth[k]
    ensures forall i: nat {:trigger NodeAt(g, path.value, sink, i)} ::
              i <= |path.value| ==> DepthIs(found, depth, NodeAt(g, path.value, sink, i), i)
    ensures IsChain(found, visited, par, path.value, idx, 0, k)
  {
    idx := [k];
    var back, current := [], sink;
    ghost var i: nat := k;
    assert Reversed(back) == [];
    while current != source
      invariant i <= k && current == found[i] && Backtrack(g, res, rev, sink, found, depth, k, i, back)
      invariant IsChain(found, visited, par, Reversed(back), idx, i, k)
      decreases i
    {
      assert DiscoveredBy(g, res, rev, found, depth, visited, i);
      var (prev, st) := visited[current];
      ghost var p :| ParentAt(g, found, depth, i, p, prev);
      BacktrackStep(g, res, rev, source, sink, found, depth, visited, k, i, p, back, st);
      assert CameBy(g, found, visited, par, pos, i) && par[i] == p;
      ChainExtends(found, visited, par, Reversed(back), idx, i, k, p, st);
      assert Reversed(back + [st]) == [st] + Reversed(back);
      idx := [p] + idx;
      back := back + [st];
      current := prev;
      i := p;
    }
    assert i == 0;
    path := Some(Reversed(back));
  }

  lemma BacktrackStep(g: Digraph, res: seq<nat>, rev: RevFlow, source: nat, sink: nat, found: seq<nat>, depth: seq<nat>,
                      visited: Parents, k: nat, i: nat, j: nat, back: seq<AugmentStep>, st: AugmentStep)
    requires Searched(g, res, rev, source, found, depth, visited) && j < i
    requires Backtrack(g, res, rev, sink, found, depth, k, i, back) && depth[i] == depth[j] + 1
    requires Usable(g, res, rev, st) && From(g, st) == found[j] && To(g, st) == found[i]
    ensures Backtrack(g, res, rev, sink, found, depth, k, j, back + [st])
  {
    var p, q := Reversed(back), Reversed(back + [st]);
    assert q == [st] + p;
    forall x | 0 <= x < |back| ensures From(g, back[x]) in found[j..k] && From(g, back[x]) != found[j] {
      var y :| 0 <= y < |found[i..k]| && found[i..k][y] == From(g, back[x]);
      assert found[i + y] == found[j..k][i - j + y];
    }
    assert found[j..k][0] == found[j];
    forall x: nat | x < |p| ensures From(g, p[x]) != found[j] {
      assert p[x] == back[|back| - 1 - x];
    }
    TrailExtends(g, st, p, found[i], sink);
    forall x: nat | x < |q| ensures Usable(g, res, rev, q[x]) {
      assert x > 0 ==> q[x] == p[x - 1];
    }
    forall x: nat | x <= |q| ensures DepthIs(found, depth, NodeAt(g, q, sink, x), depth[j] + x) {
      if x > 0 {
        assert NodeAt(g, q, sink, x) == NodeAt(g, p, sink, x - 1);
      }
    }
  }

  lemma TrailExtends(g: Digraph, st: AugmentStep, p: seq<AugmentStep>, u: nat, v: nat)
    requires IsStep(g, st) && IsTrail(g, p, u, v) && To(g, st) == u && From(g, st) != v
    requires forall x: nat {:trigger p[x]} :: x < |p| ==> From(g, p[x]) != From(g, st)
    ensures IsTrail(g, [st] + p, From(g, st), v)
  {
    var q := [st] + p;
    forall x: nat | 0 < x < |q| ensures Joined(g, q, x) {
      if x > 1 {
        assert q[x - 1] == p[x - 2] && q[x] == p[x - 1] && Joined(g, p, x - 1);
      } else {
        assert q[1] == p[0];
      }
    }
    assert p != [] ==> q[|q| - 1] == p[|p| - 1];
  }
}
