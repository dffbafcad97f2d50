/** `src/algo/dominators.rs` calls the order it works through a reverse post-order.  On an acyclic
    graph such an order puts the tail of every edge before its head; here is one where it does not. */
module DominatorsGap {
  import opened Seqs
  import opened Graphs
  import opened Dominators

  /** From node 0 to nodes 1 and 2, and from node 1 to node 2. */
  function Shortcut(): Digraph {
    Digraph(3, [(0, 1), (0, 2), (1, 2)], [[0, 1], [2], []], [[], [0], [1, 2]])
  }

  lemma ShortcutValid()
    ensures Shortcut().Valid()
  {
    var g := Shortcut();
    forall v | 0 <= v < 3 ensures g.Lists(g.outs[v], v, true) && g.Lists(g.ins[v], v, false) {
      assert v == 0 || v == 1 || v == 2;
    }
  }

  /** Edges to higher nodes close no cycle. */
  lemma RisingIsDag(g: Digraph)
    requires g.Valid() && forall e :: 0 <= e < |g.ends| ==> g.ends[e].0 < g.ends[e].1
    ensures IsDag(g)
  {
    var r := g.Arcs();
    assert forall a: nat, b: nat :: (a, b) in r ==> a < b < g.n;
    forall u: nat, v: nat | (u, v) in r ensures !Reach(r, v, u) {
      var later := Below(g.n) - Below(v);
      assert Closed(r, later);
      if Reach(r, v, u) {
        ReachStays(r, later, v, u);
      }
    }
  }

  lemma ShortcutStart()
    ensures CanTurn(Shortcut(), Begin(0))
    ensures Turn(Shortcut(), Begin(0)) == Walk([(0, true)] + [(2, false)] + [(1, false)], Seen(), [])
  {
    ShortcutValid();
    assert Shortcut().Succs(0) == [1, 2];
    var stack, seen := [(0, true)], {0};
    assert Begin(0).stack[0 := (0, true)] == stack;
    assert Pushed([1, 2], 2, stack, seen) == Pushed([1, 2], 1, stack + [(2, false)], seen + {2});
    assert Pushed([1, 2], 1, stack + [(2, false)], seen + {2})
      == (stack + [(2, false)] + [(1, false)], seen + {2} + {1});
  }

  function Seen(): set<nat> {
    {0} + {2} + {1}
  }

  /** Where the search stands once node 1 is done. */
  function OneDone(): Walk {
    Walk([(0, true)] + [(2, false)], Seen(), [1])
  }

  lemma ShortcutEnd()
    ensures Turns(Shortcut(), OneDone(), 3) == Walk([], Seen(), [1, 2, 0])
  {
    ShortcutValid();
    var g := Shortcut();
    assert g.Succs(2) == [];
    var w4, w5 := Walk([(0, true)] + [(2, true)], Seen(), [1]), Walk([(0, true)], Seen(), [1, 2]);
    assert OneDone().stack[1 := (2, true)] == w4.stack && Turn(g, OneDone()) == w4;
    assert w4.stack[..1] == w5.stack && [1] + [2] == [1, 2] && Turn(g, w4) == w5;
    assert w5.stack[..0] == [] && Turn(g, w5) == Walk([], Seen(), [1, 2, 0]);
  }

  /** Node 2 is marked when node 0 is expanded, so it stays below node 1 on the stack. */
  lemma ShortcutTurns()
    ensures Leaves(Shortcut(), 0, [1, 2, 0])
  {
    ShortcutValid();
    var g := Shortcut();
    assert g.Succs(1) == [2];
    var w1 := Walk([(0, true)] + [(2, false)] + [(1, false)], Seen(), []);
    var w2 := Walk([(0, true)] + [(2, false)] + [(1, true)], Seen(), []);
    ShortcutStart();
    assert w1.stack[2 := (1, true)] == w2.stack && Turn(g, w1) == w2;
    assert w2.stack[..2] == OneDone().stack && Turn(g, w2) == OneDone();
    assert Turns(g, Begin(0), 6) == Turns(g, w1, 5);
    assert Turns(g, w1, 5) == Turns(g, OneDone(), 3);
    ShortcutEnd();
    assert LeavesAfter(g, 0, [1, 2, 0], 6);
  }

  /** The order lists node 2 before node 1, although an edge leads from node 1 to node 2. */
  method OrderShortcut() returns (rpo: seq<nat>)
    ensures Shortcut().Valid() && IsDag(Shortcut())
    ensures rpo == [0, 2, 1] && (1, 2) in Shortcut().Arcs()
  {
    ShortcutValid();
    RisingIsDag(Shortcut());
    ghost var disc;
    rpo, disc := DiscoveryOrder(Shortcut(), 0);
    ShortcutTurns();
    LeavesOnce(Shortcut(), 0, Reversed(rpo), [1, 2, 0]);
    assert Reversed(rpo)[0] == 1 && Reversed(rpo)[1] == 2 && Reversed(rpo)[2] == 0;
    assert Shortcut().ends[2] == (1, 2);
  }
}
