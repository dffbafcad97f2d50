/** The documentation of `src/algo/matching.rs` promises a maximum matching on every graph.  A
    triangle hung on a free node is a trap for the search, which never comes back to a node it has
    visited: entered on the wrong side it is left with nothing found.  Here is a graph of two such
    traps on which a larger matching exists. */
module MatchingGap {
  import opened Graphs
  import opened Matching

  /** A turn that passes over the top frame's next edge. */
  lemma SkipTurn(adj: Adjacency, mates: Mates, m: set<nat>, seen: set<nat>, below: seq<Frame>, f: Frame,
                 path: seq<(nat, bool)>, k: nat)
    requires f.neighborsIdx < |Neighbors(adj, f.node)|
    requires var d := Neighbors(adj, f.node)[f.neighborsIdx]; f.useUnmatched == (d.0 in m) || d.1 in seen
    ensures Run(adj, mates, m, Searching(seen, below + [f], path), k + 1)
         == Run(adj, mates, m, Searching(seen, below + [f.(neighborsIdx := f.neighborsIdx + 1)], path), k)
  {
    var s := Searching(seen, below + [f], path);
    assert Skip(s).stack == below + [f.(neighborsIdx := f.neighborsIdx + 1)];
    assert DfsStep(adj, mates, m, s) == Skip(s);
  }

  /** A turn that goes on to a matched node. */
  lemma TakeTurn(adj: Adjacency, mates: Mates, m: set<nat>, seen: set<nat>, below: seq<Frame>, f: Frame,
                 path: seq<(nat, bool)>, k: nat)
    requires f.neighborsIdx < |Neighbors(adj, f.node)|
    requires var d := Neighbors(adj, f.node)[f.neighborsIdx];
             f.useUnmatched != (d.0 in m) && d.1 !in seen && d.1 in mates
    ensures var d := Neighbors(adj, f.node)[f.neighborsIdx];
            (Run(adj, mates, m, Searching(seen, below + [f], path), k + 1)
             == Run(adj, mates, m, Searching(seen + {d.1}, below + [f] + [Frame(d.1, !f.useUnmatched, 0)],
                                             path + [(d.0, d.0 in m)]), k))
  {
  }

  /** A turn that backs out of the top frame. */
  lemma RetreatTurn(adj: Adjacency, mates: Mates, m: set<nat>, seen: set<nat>, below: seq<Frame>, parent: Frame,
                    f: Frame, path: seq<(nat, bool)>, step: (nat, bool), k: nat)
    requires f.neighborsIdx >= |Neighbors(adj, f.node)|
    ensures Run(adj, mates, m, Searching(seen, below + [parent] + [f], path + [step]), k + 1)
         == Run(adj, mates, m, Searching(seen, below + [parent.(neighborsIdx := parent.neighborsIdx + 1)], path), k)
  {
    var s := Searching(seen, below + [parent] + [f], path + [step]);
    assert s.stack[..|s.stack| - 1] == below + [parent] && s.path[..|s.path| - 1] == path;
    assert Retreat(s).stack == below + [parent.(neighborsIdx := parent.neighborsIdx + 1)];
    assert DfsStep(adj, mates, m, s) == Retreat(s);
  }

  /** A triangle `root`, `near`, `far` whose side `mid` is matched; only `near` has an edge elsewhere,
      and the lists lead the search from `root` to `near` first. */
  ghost predicate Trap(adj: Adjacency, mates: Mates, m: set<nat>, root: nat, near: nat, far: nat, out: nat, back: nat,
                       mid: nat)
  {
    && root != near && near != far && far != root && near in mates && far in mates
    && mid in m && out !in m && back !in m
    && Neighbors(adj, root) == [(out, near), (back, far)] && Neighbors(adj, far) == [(mid, near), (back, root)]
    && |Neighbors(adj, near)| == 3 && Neighbors(adj, near)[0] == (mid, far)
    && Neighbors(adj, near)[1].0 !in m && Neighbors(adj, near)[2].0 !in m
  }

  /** Where the search stands once it has gone round two sides of the trap. */
  function Inside(root: nat, near: nat, far: nat, out: nat, mid: nat): Dfs {
    Searching({root} + {near} + {far}, [Frame(root, true, 0)] + [Frame(near, false, 0)] + [Frame(far, true, 0)],
              [(out, false)] + [(mid, true)])
  }

  /** And once it has backed out of the far corner. */
  function BackedOut(root: nat, near: nat, far: nat, out: nat): Dfs {
    Searching({root} + {near} + {far}, [Frame(root, true, 0)] + [Frame(near, false, 1)], [(out, false)])
  }

  lemma TrapEntered(adj: Adjacency, mates: Mates, m: set<nat>, root: nat, near: nat, far: nat, out: nat, back: nat,
                    mid: nat)
    requires Trap(adj, mates, m, root, near, far, out, back, mid)
    ensures Run(adj, mates, m, Outset(root), 10) == Run(adj, mates, m, Inside(root, near, far, out, mid), 8)
  {
    assert [] + [Frame(root, true, 0)] == [Frame(root, true, 0)] && [] + [(out, false)] == [(out, false)];
    TakeTurn(adj, mates, m, {root}, [], Frame(root, true, 0), [], 9);
    TakeTurn(adj, mates, m, {root} + {near}, [Frame(root, true, 0)], Frame(near, false, 0), [(out, false)], 8);
  }

  lemma TrapFar(adj: Adjacency, mates: Mates, m: set<nat>, root: nat, near: nat, far: nat, out: nat, back: nat,
                mid: nat)
    requires Trap(adj, mates, m, root, near, far, out, back, mid)
    ensures Run(adj, mates, m, Inside(root, near, far, out, mid), 8)
            == Run(adj, mates, m, BackedOut(root, near, far, out), 5)
  {
    var seen, below, path :=
      {root} + {near} + {far}, [Frame(root, true, 0)] + [Frame(near, false, 0)], [(out, false)] + [(mid, true)];
    SkipTurn(adj, mates, m, seen, below, Frame(far, true, 0), path, 7);
    SkipTurn(adj, mates, m, seen, below, Frame(far, true, 1), path, 6);
    RetreatTurn(adj, mates, m, seen, [Frame(root, true, 0)], Frame(near, false, 0), Frame(far, true, 2), [(out, false)],
                (mid, true), 5);
  }

  lemma TrapNear(adj: Adjacency, mates: Mates, m: set<nat>, root: nat, near: nat, far: nat, out: nat, back: nat,
                 mid: nat)
    requires Trap(adj, mates, m, root, near, far, out, back, mid)
    ensures Run(adj, mates, m, BackedOut(root, near, far, out), 5)
         == Run(adj, mates, m, Searching({root} + {near} + {far}, [Frame(root, true, 1)], []), 2)
  {
    var seen, below := {root} + {near} + {far}, [Frame(root, true, 0)];
    SkipTurn(adj, mates, m, seen, below, Frame(near, false, 1), [(out, false)], 4);
    SkipTurn(adj, mates, m, seen, below, Frame(near, false, 2), [(out, false)], 3);
    assert [] + [(out, false)] == [(out, false)] && [] + [Frame(root, true, 0)] == below
           && [] + [Frame(root, true, 1)] == [Frame(root, true, 1)];
    RetreatTurn(adj, mates, m, seen, [], Frame(root, true, 0), Frame(near, false, 3), [], (out, false), 2);
  }

  lemma TrapLeft(adj: Adjacency, mates: Mates, m: set<nat>, root: nat, near: nat, far: nat, out: nat, back: nat,
                 mid: nat)
    requires Trap(adj, mates, m, root, near, far, out, back, mid)
    ensures Run(adj, mates, m, Searching({root} + {near} + {far}, [Frame(root, true, 1)], []), 2)
            == Searching({root} + {near} + {far}, [], [])
  {
    var seen := {root} + {near} + {far};
    assert [] + [Frame(root, true, 1)] == [Frame(root, true, 1)]
           && [] + [Frame(root, true, 2)] == [Frame(root, true, 2)];
    SkipTurn(adj, mates, m, seen, [], Frame(root, true, 1), [], 1);
    var s := Searching(seen, [Frame(root, true, 2)], []);
    assert DfsStep(adj, mates, m, s) == Searching(seen, [], []);
  }

  /** The search from the free corner of such a triangle fails, whatever the rest of the graph is. */
  lemma TrapFails(adj: Adjacency, mates: Mates, m: set<nat>, root: nat, near: nat, far: nat, out: nat, back: nat,
                  mid: nat)
    requires Trap(adj, mates, m, root, near, far, out, back, mid)
    ensures Fails(adj, mates, m, root)
  {
    TrapEntered(adj, mates, m, root, near, far, out, back, mid);
    TrapFar(adj, mates, m, root, near, far, out, back, mid);
    TrapNear(adj, mates, m, root, near, far, out, back, mid);
    TrapLeft(adj, mates, m, root, near, far, out, back, mid);
    assert IsStuck(Run(adj, mates, m, Outset(root), 10));
  }

  // ----- two traps, joined at their near corners -----

  /** Edges 3, 4 and 6 match all six nodes; the greedy start takes 0 and 1. */
  function TwoTriangles(): Digraph {
    Digraph(6, [(1, 2), (3, 4), (0, 1), (0, 2), (1, 3), (5, 3), (5, 4)],
            [[2, 3], [0, 4], [], [1], [], [5, 6]], [[], [2], [0, 3], [4, 5], [1, 6], []])
  }

  function TriangleLists(): Adjacency {
    map[0 := [(2, 1), (3, 2)], 1 := [(0, 2), (2, 0), (4, 3)], 2 := [(0, 1), (3, 0)],
        3 := [(1, 4), (4, 1), (5, 5)], 4 := [(1, 3), (6, 5)], 5 := [(5, 3), (6, 4)]]
  }

  function TriangleMates(): Mates {
    map[1 := (0, 2), 2 := (0, 1), 3 := (1, 4), 4 := (1, 3)]
  }

  lemma TrianglesOut()
    ensures forall v: nat :: v < 6 ==> TwoTriangles().Lists(TwoTriangles().outs[v], v, true)
  {
    var g := TwoTriangles();
    forall v: nat | v < g.n ensures g.Lists(g.outs[v], v, true) {
    }
  }

  lemma TrianglesIn()
    ensures forall v: nat :: v < 6 ==> TwoTriangles().Lists(TwoTriangles().ins[v], v, false)
  {
    var g := TwoTriangles();
    forall v: nat | v < g.n ensures g.Lists(g.ins[v], v, false) {
    }
  }

  lemma ListedAs(adj: Adjacency, ends: seq<(nat, nat)>, i: nat, la: seq<(nat, nat)>, lb: seq<(nat, nat)>)
    requires i < |ends| && ends[i].0 != ends[i].1
    requires la == Neighbors(adj, ends[i].0) + [(i, ends[i].1)] && lb == Neighbors(adj, ends[i].1) + [(i, ends[i].0)]
    ensures Listed(adj, ends, i) == adj[ends[i].0 := la][ends[i].1 := lb]
  {
  }

  lemma TrianglesListed()
    ensures Lists(TwoTriangles().ends, 7) == TriangleLists()
  {
    var ends := TwoTriangles().ends;
    var l2 := map[1 := [(0, 2)], 2 := [(0, 1)], 3 := [(1, 4)], 4 := [(1, 3)]];
    var l4 := l2[0 := [(2, 1), (3, 2)]][1 := [(0, 2), (2, 0)]][2 := [(0, 1), (3, 0)]];
    assert Lists(ends, 2) == l2 by {
      assert Lists(ends, 0) == map[];
      ListedAs(Lists(ends, 0), ends, 0, [(0, 2)], [(0, 1)]);
      ListedAs(Lists(ends, 1), ends, 1, [(1, 4)], [(1, 3)]);
    }
    assert Lists(ends, 4) == l4 by {
      ListedAs(l2, ends, 2, [(2, 1)], [(0, 2), (2, 0)]);
      ListedAs(Lists(ends, 3), ends, 3, [(2, 1), (3, 2)], [(0, 1), (3, 0)]);
    }
    LastListed(ends, l4);
  }

  lemma LastListed(ends: seq<(nat, nat)>, l4: Adjacency)
    requires ends == TwoTriangles().ends && Lists(ends, 4) == l4
    requires l4 == map[0 := [(2, 1), (3, 2)], 1 := [(0, 2), (2, 0)], 2 := [(0, 1), (3, 0)], 3 := [(1, 4)], 4 :=
      [(1, 3)]]
    ensures Lists(ends, 7) == TriangleLists()
  {
    ListedAs(l4, ends, 4, [(0, 2), (2, 0), (4, 3)], [(1, 4), (4, 1)]);
    var l5 := l4[1 := [(0, 2), (2, 0), (4, 3)]][3 := [(1, 4), (4, 1)]];
    ListedAs(l5, ends, 5, [(5, 3)], [(1, 4), (4, 1), (5, 5)]);
    var l6 := l5[5 := [(5, 3)]][3 := [(1, 4), (4, 1), (5, 5)]];
    ListedAs(l6, ends, 6, [(5, 3), (6, 4)], [(1, 3), (6, 5)]);
  }

  lemma TrianglesGreedy()
    ensures Greedy(TwoTriangles().ends, 7) == TriangleMates()
  {
    var ends := TwoTriangles().ends;
    assert Greedy(ends, 0) == map[];
    assert Greedy(ends, 2) == TriangleMates();
    assert Greedy(ends, 4) == TriangleMates();
    assert Greedy(ends, 6) == TriangleMates();
  }

  lemma TrianglesMatched()
    ensures IsMatching(TwoTriangles(), {0, 1}) && IsMatching(TwoTriangles(), {3, 4, 6})
    ensures !IsMaximum(TwoTriangles(), {0, 1})
  {
    assert IsMatching(TwoTriangles(), {3, 4, 6});
    assert |{0, 1}| == 2 && |{3, 4, 6}| == 3;
  }

  lemma TrianglesTrapped()
    ensures Fails(TriangleLists(), TriangleMates(), {0, 1}, 0) && Fails(TriangleLists(), TriangleMates(), {0, 1}, 5)
  {
    TrapFails(TriangleLists(), TriangleMates(), {0, 1}, 0, 1, 2, 2, 3, 0);
    TrapFails(TriangleLists(), TriangleMates(), {0, 1}, 5, 3, 4, 5, 6, 1);
  }

  lemma TrianglesChosen()
    ensures TriangleMates().Keys == {1, 2, 3, 4} && Chosen(TriangleMates()) == {0, 1}
  {
    var mates := TriangleMates();
    assert mates.Keys == {1, 2, 3, 4};
    assert mates[1].0 == 0 && mates[3].0 == 1;
  }

  /** After the greedy start only nodes 0 and 5 are free, and the search fails from both. */
  lemma TrianglesFail()
    ensures TwoTriangles().Valid()
    ensures var mates := Greedy(TwoTriangles().ends, 7);
            Chosen(mates) == {0, 1} && AllFail(TwoTriangles(), Lists(TwoTriangles().ends, 7), mates)
  {
    TrianglesOut();
    TrianglesIn();
    TrianglesListed();
    TrianglesGreedy();
    TrianglesTrapped();
    TrianglesChosen();
    var mates := TriangleMates();
    forall v: nat | v < 6 && v !in mates ensures Fails(TriangleLists(), mates, {0, 1}, v) {
    }
  }

  /** So a matching of two edges is returned where three fit. */
  method MissOddCycles() returns (m: set<nat>)
    ensures TwoTriangles().Valid() && m == {0, 1}
    ensures IsMatching(TwoTriangles(), {3, 4, 6}) && |{3, 4, 6}| == 3
    ensures IsMatching(TwoTriangles(), m) && |m| == 2 && !IsMaximum(TwoTriangles(), m)
  {
    TrianglesFail();
    TrianglesMatched();
    m := MaxMatching(TwoTriangles());
    assert m == {0, 1} && |m| == 2;
  }
}
