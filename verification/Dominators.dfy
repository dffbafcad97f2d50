/** Immediate dominators by the Cooper-Harvey-Kennedy fixpoint (`src/algo/dominators.rs`). */
module Dominators {
  import opened Seqs
  import opened Vec
  import opened Graphs
  import opened DomTree

  /** Every path from `start` to `v` passes through `d`. */
  ghost predicate Dominates(g: Digraph, start: nat, d: nat, v: nat) {
    forall p :: PathFrom(g.Arcs(), p, start, v) ==> d in p
  }

  /** `d` is the strict dominator of `v` that every strict dominator of `v` dominates. */
  ghost predicate ImmediatelyDominates(g: Digraph, start: nat, d: nat, v: nat) {
    && d != v && Dominates(g, start, d, v)
    && forall y: nat :: y != v && Dominates(g, start, y, v) ==> Dominates(g, start, y, d)
  }

  // ----- the discovery order -----

  ghost predicate Discovery(g: Digraph, start: nat, t: seq<nat>, disc: map<nat, nat>) {
    && NoDup(t)
    && (forall v :: v in t ==> v < g.n && Reach(g.Arcs(), start, v))
    && |t| > 0 && t[0] == start
    && forall v :: v in t && v != start ==> v in disc && (disc[v], v) in g.Arcs() && Before(t, disc[v], v)
  }

  function Nodes(stack: seq<(nat, bool)>): (r: seq<nat>)
    ensures |r| == |stack|
    ensures forall k :: 0 <= k < |r| ==> r[k] == stack[k].0
  {
    seq(|stack|, k requires 0 <= k < |stack| => stack[k].0)
  }

  /** Every successor of an expanded node has been seen. */
  ghost predicate Expanded(g: Digraph, stack: seq<(nat, bool)>, done: seq<nat>, visited: set<nat>) {
    && (forall k :: 0 <= k < |stack| && stack[k].1 ==> SuccsIn(g, stack[k].0, visited))
    && forall v :: v in done ==> SuccsIn(g, v, visited)
  }

  ghost predicate SuccsIn(g: Digraph, v: nat, visited: set<nat>) {
    forall w :: (v, w) in g.Arcs() ==> w in visited
  }

  lemma BeforeInsert(a: seq<nat>, b: seq<nat>, x: nat, u: nat, v: nat)
    requires Before(a + b, u, v)
    ensures Before(a + [x] + b, u, v)
  {
    var t, t' := a + b, a + [x] + b;
    var i, j :| 0 <= i < j < |t| && t[i] == u && t[j] == v;
    var i', j' := if i < |a| then i else i + 1, if j < |a| then j else j + 1;
    assert t'[i'] == u && t'[j'] == v;
  }

  /** A freshly seen node goes between the stack and the finished nodes. */
  lemma DiscoverStep(g: Digraph, start: nat, a: seq<nat>, b: seq<nat>, disc: map<nat, nat>, u: nat, x: nat)
    requires g.Valid() && Discovery(g, start, a + b, disc) && |a| > 0 && u in a && (u, x) in g.Arcs() && x !in a + b
    ensures Discovery(g, start, a + [x] + b, disc[x := u])
  {
    var t, t' := a + b, a + [x] + b;
    assert u in t && start in t;
    ReachStep(g.Arcs(), start, u, x);
    forall v | v in t' && v != start
      ensures v in disc[x := u] && (disc[x := u][v], v) in g.Arcs() && Before(t', disc[x := u][v], v)
    {
      if v == x {
        var i :| 0 <= i < |a| && a[i] == u;
        assert t'[i] == u && t'[|a|] == x;
      } else {
        assert v in t;
        BeforeInsert(a, b, x, disc[v], v);
      }
    }
    forall v | v in t' ensures v < g.n && Reach(g.Arcs(), start, v) {
      assert v == x || v in t;
    }
    forall i, j | 0 <= i < j < |t'| ensures t'[i] != t'[j] {
      var f := (k: int) => if k < |a| then k else k - 1;
      assert i != |a| ==> t'[i] == t[if i < |a| then i else i - 1];
      assert j != |a| ==> t'[j] == t[if j < |a| then j else j - 1];
    }
  }

  /** The search's stack, the nodes it has marked, and those it is done with. */
  datatype Walk = Walk(stack: seq<(nat, bool)>, visited: set<nat>, post: seq<nat>)

  /** The first `k` successors pushed, last one first, unless marked. */
  function Pushed(succs: seq<nat>, k: nat, stack: seq<(nat, bool)>, visited: set<nat>): (seq<(nat, bool)>, set<nat>)
    requires k <= |succs|
    decreases k
  {
    if k == 0 then (stack, visited)
    else if succs[k - 1] in visited then Pushed(succs, k - 1, stack, visited)
    else Pushed(succs, k - 1, stack + [(succs[k - 1], false)], visited + {succs[k - 1]})
  }

  ghost predicate CanTurn(g: Digraph, w: Walk) {
    g.Valid() && w.stack != [] && w.stack[|w.stack| - 1].0 < g.n
  }

  /** One turn: a node seen for the second time is done, otherwise its successors are pushed. */
  ghost function Turn(g: Digraph, w: Walk): Walk
    requires CanTurn(g, w)
  {
    var top := |w.stack| - 1;
    var (node, expanded) := w.stack[top];
    if expanded then Walk(w.stack[..top], w.visited, w.post + [node])
    else
      var (stack, visited) := Pushed(g.Succs(node), |g.Succs(node)|, w.stack[top := (node, true)], w.visited);
      Walk(stack, visited, w.post)
  }

  ghost function Turns(g: Digraph, w: Walk, k: nat): Walk
    decreases k
  {
    if k == 0 || !CanTurn(g, w) then w else Turns(g, Turn(g, w), k - 1)
  }

  function Begin(start: nat): Walk {
    Walk([(start, false)], {start}, [])
  }

  lemma {:induction false} TurnsNext(g: Digraph, w: Walk, k: nat)
    ensures var t := Turns(g, w, k);
            Turns(g, w, k + 1) == if CanTurn(g, t) then Turn(g, t) else t
    decreases k
  {
    if k > 0 && CanTurn(g, w) {
      TurnsNext(g, Turn(g, w), k - 1);
    }
  }

  /** A search that has come to its end stays there. */
  lemma {:induction false} TurnsStay(g: Digraph, w: Walk, k: nat, j: nat)
    requires k <= j && Turns(g, w, k).stack == []
    ensures Turns(g, w, j) == Turns(g, w, k)
  {
    if k < j {
      TurnsStay(g, w, k, j - 1);
      TurnsNext(g, w, j - 1);
    }
  }

  /** The search from `start` comes to its end with `post` as the order of finishing. */
  ghost predicate Leaves(g: Digraph, start: nat, post: seq<nat>) {
    exists k: nat :: LeavesAfter(g, start, post, k)
  }

  ghost predicate LeavesAfter(g: Digraph, start: nat, post: seq<nat>, k: nat) {
    var w := Turns(g, Begin(start), k);
    w.stack == [] && w.post == post
  }

  lemma LeavesOnce(g: Digraph, start: nat, post: seq<nat>, post': seq<nat>)
    requires Leaves(g, start, post) && Leaves(g, start, post')
    ensures post == post'
  {
    var k: nat :| LeavesAfter(g, start, post, k);
    var j: nat :| LeavesAfter(g, start, post', j);
    TurnsStay(g, Begin(start), if k <= j then k else j, if k <= j then j else k);
  }

  /** What holds between two turns; `done` is the order so far, as it will stand in the end. */
  ghost predicate OrderInv(g: Digraph, start: nat, w: Walk, done: seq<nat>, disc: map<nat, nat>) {
    && done == Reversed(w.post) && Discovery(g, start, Nodes(w.stack) + done, disc)
    && w.visited == Elems(Nodes(w.stack) + done) && Expanded(g, w.stack, done, w.visited)
  }

  /** Depth-first order in which successors are marked when pushed; reversed at the end, it
      lists the reachable nodes so that each but the first comes after its discoverer. */
  method DiscoveryOrder(g: Digraph, start: nat) returns (rpo: seq<nat>, ghost disc: map<nat, nat>)
    requires g.Valid() && start < g.n
    ensures Discovery(g, start, rpo, disc) && Leaves(g, start, Reversed(rpo))
    ensures forall v: nat :: v in rpo <==> Reach(g.Arcs(), start, v)
  {
    var w := Walk([(start, false)], {start}, []);
    ghost var done: seq<nat>, turns := [], 0;
    disc := map[];
    ReachRefl(g.Arcs(), start);
    assert Nodes(w.stack) + done == [start];
    while w.stack != []
      invariant OrderInv(g, start, w, done, disc) && w == Turns(g, Begin(start), turns)
      decreases g.n - |w.visited|, |w.stack|, if w.stack != [] && w.stack[|w.stack| - 1].1 then 0 else 1
    {
      w, done, disc := TakeTurn(g, start, w, done, disc);
      TurnsNext(g, Begin(start), turns);
      turns := turns + 1;
    }
    rpo := Reversed(w.post);
    assert LeavesAfter(g, start, Reversed(rpo), turns) by {
      assert Reversed(rpo) == w.post;
    }
    OrderDone(g, start, w, done, disc);
  }

  lemma OrderDone(g: Digraph, start: nat, w: Walk, done: seq<nat>, disc: map<nat, nat>)
    requires g.Valid() && OrderInv(g, start, w, done, disc) && w.stack == []
    ensures Discovery(g, start, Reversed(w.post), disc)
    ensures forall v: nat :: v in Reversed(w.post) <==> Reach(g.Arcs(), start, v)
  {
    assert Nodes([]) + done == done;
    AllFound(g, start, done, w.visited);
  }

  lemma AllFound(g: Digraph, start: nat, rpo: seq<nat>, visited: set<nat>)
    requires g.Valid() && start in rpo && visited == Elems(rpo)
    requires forall v :: v in rpo ==> SuccsIn(g, v, visited) && Reach(g.Arcs(), start, v)
    ensures forall v: nat :: v in rpo <==> Reach(g.Arcs(), start, v)
  {
    forall a, b | (a, b) in g.Arcs() && a in visited ensures b in visited {
      assert SuccsIn(g, a, visited);
    }
    forall v: nat | Reach(g.Arcs(), start, v) ensures v in rpo {
      ReachStays(g.Arcs(), visited, start, v);
    }
  }

  lemma PopKeeps(g: Digraph, start: nat, w: Walk, done: seq<nat>, disc: map<nat, nat>)
    requires OrderInv(g, start, w, done, disc) && w.stack != [] && w.stack[|w.stack| - 1].1
    ensures var top := |w.stack| - 1;
            var node := w.stack[top].0;
            OrderInv(g, start, Walk(w.stack[..top], w.visited, w.post + [node]), [node] + done, disc)
  {
    var top := |w.stack| - 1;
    var node := w.stack[top].0;
    assert Nodes(w.stack[..top]) + ([node] + done) == Nodes(w.stack) + done;
    assert Reversed(w.post + [node]) == [node] + done;
  }

  method TakeTurn(g: Digraph, start: nat, w0: Walk, ghost done0: seq<nat>, ghost disc0: map<nat, nat>)
    returns (w: Walk, ghost done: seq<nat>, ghost disc: map<nat, nat>)
    requires g.Valid() && OrderInv(g, start, w0, done0, disc0) && w0.stack != []
    ensures CanTurn(g, w0) && w == Turn(g, w0) && OrderInv(g, start, w, done, disc)
    ensures |w0.visited| <= |w.visited| <= g.n
    ensures |w.visited| == |w0.visited| ==>
              || |w.stack| < |w0.stack|
              || (|w.stack| == |w0.stack| && !w0.stack[|w0.stack| - 1].1 && w.stack[|w.stack| - 1].1)
  {
    VisitedBound(g, w0.visited);
    var top := |w0.stack| - 1;
    var (node, expanded) := w0.stack[top];
    assert Nodes(w0.stack)[top] == node && node in Nodes(w0.stack) + done0;
    if expanded {
      PopKeeps(g, start, w0, done0, disc0);
      w := Walk(w0.stack[..top], w0.visited, w0.post + [node]);
      done, disc := [node] + done0, disc0;
    } else {
      var stack := w0.stack[top := (node, true)];
      assert Nodes(stack) == Nodes(w0.stack) && stack[..top] == w0.stack[..top];
      var visited;
      stack, visited, disc := PushSuccs(g, start, node, stack, w0.visited, done0, disc0);
      w, done := Walk(stack, visited, w0.post), done0;
      VisitedBound(g, visited);
    }
  }

  ghost predicate Pushing(g: Digraph, start: nat, stack0: seq<(nat, bool)>, stack: seq<(nat, bool)>, visited0: set<nat>,
                          visited: set<nat>, done: seq<nat>, disc: map<nat, nat>, succs: seq<nat>, k: nat)
  {
    && k <= |succs| && (forall j :: k <= j < |succs| ==> succs[j] in visited)
    && |stack0| <= |stack| && stack[..|stack0|] == stack0
    && (forall j :: |stack0| <= j < |stack| ==> !stack[j].1)
    && Discovery(g, start, Nodes(stack) + done, disc)
    && visited == Elems(Nodes(stack) + done) && visited0 <= visited
    && (|visited| > |visited0| || (stack == stack0 && visited == visited0))
  }

  /** One turn of the push loop, looking at successor `k`. */
  lemma PushOne(g: Digraph, start: nat, node: nat, stack0: seq<(nat, bool)>, stack: seq<(nat, bool)>,
                visited0: set<nat>, visited: set<nat>, done: seq<nat>, disc: map<nat, nat>, k: nat)
    requires g.Valid() && node < g.n
    requires Pushing(g, start, stack0, stack, visited0, visited, done, disc, g.Succs(node), k + 1)
    requires |stack0| > 0 && stack0[|stack0| - 1].0 == node
    ensures var succ := g.Succs(node)[k];
            if succ in visited then Pushing(g, start, stack0, stack, visited0, visited, done, disc, g.Succs(node), k)
            else Pushing(g, start, stack0, stack + [(succ, false)], visited0, visited + {succ}, done,
                         disc[succ := node], g.Succs(node), k)
  {
    var succ := g.Succs(node)[k];
    if succ !in visited {
      assert succ in g.Succs(node);
      SuccIff(g, node, succ);
      assert Nodes(stack)[|stack0| - 1] == node;
      DiscoverStep(g, start, Nodes(stack), done, disc, node, succ);
      assert Nodes(stack + [(succ, false)]) == Nodes(stack) + [succ];
      SubsetCard(visited0, visited);
    }
  }

  /** Push the unseen successors of the node on top of the stack, last one first. */
  method PushSuccs(g: Digraph, start: nat, node: nat, stack0: seq<(nat, bool)>, visited0: set<nat>,
                   ghost done: seq<nat>, ghost disc0: map<nat, nat>)
    returns (stack: seq<(nat, bool)>, visited: set<nat>, ghost disc: map<nat, nat>)
    requires g.Valid() && node < g.n && |stack0| > 0 && stack0[|stack0| - 1] == (node, true)
    requires Discovery(g, start, Nodes(stack0) + done, disc0)
    requires visited0 == Elems(Nodes(stack0) + done)
    requires Expanded(g, stack0[..|stack0| - 1], done, visited0)
    ensures Discovery(g, start, Nodes(stack) + done, disc)
    ensures visited == Elems(Nodes(stack) + done)
    ensures Expanded(g, stack, done, visited)
    ensures stack != [] && (|visited| > |visited0| || (stack == stack0 && visited == visited0))
    ensures (stack, visited) == Pushed(g.Succs(node), |g.Succs(node)|, stack0, visited0)
  {
    stack, visited, disc := stack0, visited0, disc0;
    var succs := g.Succs(node);
    var k := |succs|;
    while k > 0
      invariant 0 <= k <= |succs| && Pushing(g, start, stack0, stack, visited0, visited, done, disc, succs, k)
      invariant Pushed(succs, k, stack, visited) == Pushed(succs, |succs|, stack0, visited0)
    {
      k := k - 1;
      PushOne(g, start, node, stack0, stack, visited0, visited, done, disc, k);
      var succ := succs[k];
      if succ !in visited {
        stack, visited, disc := stack + [(succ, false)], visited + {succ}, disc[succ := node];
      }
    }
    PushedAll(g, node, stack0, stack, visited0, visited, done);
  }

  lemma PushedAll(g: Digraph, node: nat, stack0: seq<(nat, bool)>, stack: seq<(nat, bool)>,
                  visited0: set<nat>, visited: set<nat>, done: seq<nat>)
    requires g.Valid() && node < g.n && |stack0| > 0 && stack0[|stack0| - 1].0 == node
    requires Expanded(g, stack0[..|stack0| - 1], done, visited0) && visited0 <= visited
    requires |stack0| <= |stack| && stack[..|stack0|] == stack0
    requires forall j :: |stack0| <= j < |stack| ==> !stack[j].1
    requires forall j :: 0 <= j < |g.Succs(node)| ==> g.Succs(node)[j] in visited
    ensures Expanded(g, stack, done, visited)
  {
    forall w | (node, w) in g.Arcs() ensures w in visited {
      ArcBounds(g, node, w);
      SuccIff(g, node, w);
    }
    forall j | 0 <= j < |stack| && stack[j].1 ensures SuccsIn(g, stack[j].0, visited) {
      if j < |stack0| - 1 {
        assert stack[j] == stack0[..|stack0| - 1][j];
        assert SuccsIn(g, stack[j].0, visited0);
      }
    }
  }

  lemma VisitedBound(g: Digraph, visited: set<nat>)
    requires forall v :: v in visited ==> v < g.n
    ensures |visited| <= g.n
  {
    SubsetCard(visited, Below(g.n));
  }

  // ----- the fixpoint -----

  /** For every position in the order, the positions of its predecessors. */
  ghost predicate PredSets(g: Digraph, rpo: seq<nat>, ps: seq<set<nat>>) {
    && |ps| == |rpo|
    && forall k, p: nat {:trigger p in ps[k]} :: 0 <= k < |rpo| ==>
         (p in ps[k] <==> p < |rpo| && (rpo[p], rpo[k]) in g.Arcs())
  }

  /** Strict dominators of `k` dominate its present parent: no true dominator is ever lost. */
  ghost predicate Kept(g: Digraph, start: nat, rpo: seq<nat>, t: Tree, k: nat)
    requires IsTree(t) && |t| == |rpo| && 1 <= k && Set(t, k)
  {
    forall y: nat {:trigger Dominates(g, start, rpo[y], rpo[k])} ::
      y < |rpo| && y != k && Dominates(g, start, rpo[y], rpo[k]) ==>
              Dominates(g, start, rpo[y], rpo[t[k].value])
  }

  ghost predicate AllKept(g: Digraph, start: nat, rpo: seq<nat>, t: Tree) {
    && IsTree(t) && |t| == |rpo| && NoDup(rpo) && rpo[0] == start
    && forall k {:trigger Kept(g, start, rpo, t, k)} :: 1 <= k && Set(t, k) ==> Kept(g, start, rpo, t, k)
  }

  lemma DominatesPred(g: Digraph, start: nat, d: nat, u: nat, v: nat)
    requires Dominates(g, start, d, v) && d != v && (u, v) in g.Arcs()
    ensures Dominates(g, start, d, u)
  {
    forall p | PathFrom(g.Arcs(), p, start, u) ensures d in p {
      assert PathFrom(g.Arcs(), p + [v], start, v) by {
        assert forall i :: 0 <= i < |p| ==> (p + [v])[i] == p[i];
      }
      assert d in p + [v];
    }
  }

  lemma OnlyStartDominatesStart(g: Digraph, start: nat, d: nat)
    requires Dominates(g, start, d, start)
    ensures d == start
  {
    assert PathFrom(g.Arcs(), [start], start, start);
  }

  /** True dominators stay on the ancestor chain, and if one is at or above `c`, it dominates `c`. */
  lemma {:induction false} DominatorsOnChain(g: Digraph, start: nat, rpo: seq<nat>, t: Tree, k: nat, y: nat, c: nat)
    requires AllKept(g, start, rpo, t) && Set(t, k) && y < |rpo| && Dominates(g, start, rpo[y], rpo[k])
    requires c in Anc(t, k)
    ensures y in Anc(t, k)
    ensures y <= c ==> Dominates(g, start, rpo[y], rpo[c])
    decreases k
  {
    if k == 0 {
      OnlyStartDominatesStart(g, start, rpo[y]);
    } else if y != k {
      assert Kept(g, start, rpo, t, k);
      DominatorsOnChain(g, start, rpo, t, t[k].value, y, if c == k then t[k].value else c);
    }
  }

  lemma KeptStep(g: Digraph, start: nat, rpo: seq<nat>, ps: seq<set<nat>>, t: Tree, i: nat, c: nat, p: nat)
    requires AllKept(g, start, rpo, t) && PredSets(g, rpo, ps) && 1 <= i < |t| && c < i
    requires Nearest(t, ps[i], c) && p in ps[i] && Set(t, p)
    requires IsTree(t[i := Some(c)])
    ensures AllKept(g, start, rpo, t[i := Some(c)])
  {
    var t' := t[i := Some(c)];
    forall k | 1 <= k && Set(t', k) ensures Kept(g, start, rpo, t', k) {
      if k != i {
        assert Set(t, k);
        assert Kept(g, start, rpo, t, k);
      } else {
        forall y: nat | y < |rpo| && y != i && Dominates(g, start, rpo[y], rpo[i])
          ensures Dominates(g, start, rpo[y], rpo[c])
        {
          forall q | q in ps[i] && Set(t, q) ensures y in Anc(t, q) && Dominates(g, start, rpo[y], rpo[q]) {
            DominatesPred(g, start, rpo[y], rpo[q], rpo[i]);
            DominatorsOnChain(g, start, rpo, t, q, y, q);
          }
          assert Common(t, ps[i], y);
          DominatorsOnChain(g, start, rpo, t, p, y, c);
        }
      }
    }
  }

  /** `intersect`: walk two fingers up until they meet. */
  method Intersect(t: Tree, a0: nat, b0: nat) returns (a: nat)
    requires IsTree(t) && Set(t, a0) && Set(t, b0)
    ensures Set(t, a) && Anc(t, a) == Anc(t, a0) * Anc(t, b0)
  {
    a := a0;
    var b: nat := b0;
    while a != b
      invariant Set(t, a) && Set(t, b)
      invariant Anc(t, a) * Anc(t, b) == Anc(t, a0) * Anc(t, b0)
      decreases a + b
    {
      ghost var a1, b1 := a, b;
      while a > b
        invariant Set(t, a) && Set(t, b)
        invariant Anc(t, a) * Anc(t, b) == Anc(t, a0) * Anc(t, b0)
        invariant a <= a1
        decreases a
      {
        assert a !in Anc(t, b);
        a := t[a].value;
      }
      while b > a
        invariant Set(t, a) && Set(t, b)
        invariant Anc(t, a) * Anc(t, b) == Anc(t, a0) * Anc(t, b0)
        invariant b <= b1
        decreases b
      {
        assert b !in Anc(t, a);
        b := t[b].value;
      }
    }
  }

  /** `c` is the nearest common ancestor of `seen`, if `seen` has members. */
  ghost predicate MeetOf(t: Tree, c: Option<nat>, seen: set<nat>)
    requires IsTree(t)
  {
    && (forall p :: p in seen ==> Set(t, p))
    && (c.None? <==> seen == {})
    && (c.Some? ==> Set(t, c.value))
    && (c.Some? ==> forall y: nat {:trigger y in Anc(t, c.value)} ::
          y in Anc(t, c.value) <==> (forall p {:trigger p in seen} :: p in seen ==> y in Anc(t, p)))
  }

  method Meet(t: Tree, c: Option<nat>, pred: nat, ghost seen: set<nat>) returns (c': Option<nat>)
    requires IsTree(t) && MeetOf(t, c, seen) && Set(t, pred)
    ensures MeetOf(t, c', seen + {pred})
  {
    match c
    case None => c' := Some(pred);
    case Some(current) =>
      var m := Intersect(t, current, pred);
      c' := Some(m);
  }

  /** Positions with a parent whose nodes are among the first `j` predecessors. */
  ghost predicate Seen(t: Tree, rpo: seq<nat>, preds: seq<nat>, j: nat, seen: set<nat>)
    requires |t| == |rpo| && j <= |preds|
  {
    forall p: nat {:trigger p in seen} :: p in seen <==> Set(t, p) && rpo[p] in preds[..j]
  }

  ghost predicate IndexOf(rpo: seq<nat>, rpoIndex: map<nat, nat>) {
    && (forall k :: 0 <= k < |rpo| ==> rpo[k] in rpoIndex && rpoIndex[rpo[k]] == k)
    && forall v :: v in rpoIndex ==> rpoIndex[v] < |rpo| && rpo[rpoIndex[v]] == v
  }

  lemma SeenNext(t: Tree, rpo: seq<nat>, rpoIndex: map<nat, nat>, preds: seq<nat>, j: nat, seen: set<nat>)
    requires |t| == |rpo| && j < |preds| && IndexOf(rpo, rpoIndex) && Seen(t, rpo, preds, j, seen)
    ensures var v := preds[j];
            Seen(t, rpo, preds, j + 1,
                 if v in rpoIndex && t[rpoIndex[v]].Some? then seen + {rpoIndex[v]} else seen)
  {
    assert preds[..j + 1] == preds[..j] + [preds[j]];
  }

  lemma SeenAll(g: Digraph, t: Tree, rpo: seq<nat>, ps: seq<set<nat>>, i: nat, j: nat, seen: set<nat>)
    requires g.Valid() && |t| == |rpo| && i < |rpo| && PredSets(g, rpo, ps)
    requires forall k :: 0 <= k < |rpo| ==> rpo[k] < g.n
    requires j == |g.Preds(rpo[i])| && Seen(t, rpo, g.Preds(rpo[i]), j, seen)
    ensures forall p: nat :: p in seen <==> p in ps[i] && Set(t, p)
  {
    var preds := g.Preds(rpo[i]);
    assert preds[..j] == preds;
    forall p: nat ensures p in seen <==> p in ps[i] && Set(t, p) {
      if p < |rpo| {
        PredIff(g, rpo[p], rpo[i]);
      }
    }
  }

  /** Nearest common ancestor of the predecessors of `rpo[i]` that already have a parent. */
  method NewIdom(g: Digraph, rpo: seq<nat>, rpoIndex: map<nat, nat>, t: Tree, i: nat, ghost ps: seq<set<nat>>,
                 ghost q: nat)
    returns (c: Option<nat>)
    requires g.Valid() && IsTree(t) && |t| == |rpo| && 1 <= i < |rpo| && PredSets(g, rpo, ps)
    requires IndexOf(rpo, rpoIndex) && forall k :: 0 <= k < |rpo| ==> rpo[k] < g.n
    requires q in ps[i] && Set(t, q)
    ensures c.Some? && Nearest(t, ps[i], c.value)
  {
    var preds := g.Preds(rpo[i]);
    c := None;
    var j := 0;
    ghost var seen: set<nat> := {};
    while j < |preds|
      invariant j <= |preds| && Seen(t, rpo, preds, j, seen) && MeetOf(t, c, seen)
    {
      SeenNext(t, rpo, rpoIndex, preds, j, seen);
      if preds[j] in rpoIndex {
        var pred := rpoIndex[preds[j]];
        if t[pred].Some? {
          c := Meet(t, c, pred, seen);
          seen := seen + {pred};
        }
      }
      j := j + 1;
    }
    SeenAll(g, t, rpo, ps, i, j, seen);
    assert q in seen;
    MeetNearest(t, c, seen, ps[i]);
  }

  lemma MeetNearest(t: Tree, c: Option<nat>, seen: set<nat>, ps: set<nat>)
    requires IsTree(t) && MeetOf(t, c, seen) && seen != {}
    requires forall p: nat :: p in seen <==> p in ps && Set(t, p)
    ensures c.Some? && Nearest(t, ps, c.value)
  {
    assert c.value in Anc(t, c.value);
    forall y | Common(t, ps, y) ensures y in Anc(t, c.value) {
      forall p | p in seen ensures y in Anc(t, p) {
        assert p in ps;
      }
    }
    assert Common(t, ps, c.value);
  }

  // ----- the algorithm -----

  /** At a fixpoint every parent is an ancestor of every predecessor. */
  ghost predicate Fix(t: Tree, ps: seq<set<nat>>, k: nat)
    requires IsTree(t) && k < |t| == |ps| && Set(t, k)
  {
    forall p {:trigger p in ps[k]} :: p in ps[k] && Set(t, p) ==> t[k].value in Anc(t, p)
  }

  ghost predicate FixBelow(t: Tree, ps: seq<set<nat>>, i: nat)
    requires IsTree(t) && |t| == |ps|
  {
    forall k {:trigger Fix(t, ps, k)} :: 1 <= k < i && Set(t, k) ==> Fix(t, ps, k)
  }

  ghost predicate Whole(t: Tree) {
    forall k :: 0 <= k < |t| ==> Set(t, k)
  }

  /** At a fixpoint an ancestor lies on every path. */
  lemma {:induction false} AncestorOnPath(g: Digraph, start: nat, rpo: seq<nat>, ps: seq<set<nat>>, t: Tree,
                                          p: seq<nat>, k: nat, y: nat)
    requires IsTree(t) && |t| == |rpo| == |ps| && PredSets(g, rpo, ps) && rpo[0] == start && NoDup(rpo)
    requires Whole(t) && FixBelow(t, ps, |t|)
    requires forall v: nat :: v in rpo <==> Reach(g.Arcs(), start, v)
    requires k < |t| && PathFrom(g.Arcs(), p, start, rpo[k]) && y in Anc(t, k)
    ensures rpo[y] in p
    decreases |p|
  {
    if k > 0 && y != k {
      assert rpo[0] != rpo[k];
      var q := p[..|p| - 1];
      var v := q[|q| - 1];
      assert (p[|p| - 2], p[|p| - 1]) in g.Arcs();
      assert PathFrom(g.Arcs(), q, start, v);
      assert v in rpo;
      var m :| 0 <= m < |rpo| && rpo[m] == v;
      assert m in ps[k] && Set(t, m) && Set(t, k);
      assert Fix(t, ps, k);
      AncUp(t, m, t[k].value);
      AncestorOnPath(g, start, rpo, ps, t, q, m, y);
    }
  }

  lemma FixpointIsDominators(g: Digraph, start: nat, rpo: seq<nat>, ps: seq<set<nat>>, t: Tree, k: nat)
    requires AllKept(g, start, rpo, t) && |ps| == |t| && PredSets(g, rpo, ps)
    requires Whole(t) && FixBelow(t, ps, |t|) && 1 <= k < |t| && Set(t, k)
    requires forall v: nat :: v in rpo <==> Reach(g.Arcs(), start, v)
    ensures ImmediatelyDominates(g, start, rpo[t[k].value], rpo[k])
  {
    var d := t[k].value;
    assert Set(t, k) && Kept(g, start, rpo, t, k);
    assert rpo[d] != rpo[k];
    forall p | PathFrom(g.Arcs(), p, start, rpo[k]) ensures rpo[d] in p {
      AncestorOnPath(g, start, rpo, ps, t, p, k, d);
    }
    forall y: nat | y != rpo[k] && Dominates(g, start, y, rpo[k]) ensures Dominates(g, start, y, rpo[d]) {
      assert rpo[k] in rpo;
      var p :| PathFrom(g.Arcs(), p, start, rpo[k]);
      var j :| 0 <= j < |p| && p[j] == y;
      assert PathFrom(g.Arcs(), p[..j + 1], start, y);
      assert y in rpo;
      var m :| 0 <= m < |rpo| && rpo[m] == y;
    }
  }

  ghost function DiscIndices(rpo: seq<nat>, disc: map<nat, nat>): (r: seq<nat>)
    requires forall k :: 1 <= k < |rpo| ==> rpo[k] in disc && exists j :: 0 <= j < k && rpo[j] == disc[rpo[k]]
    ensures |r| == |rpo|
    ensures forall k :: 1 <= k < |rpo| ==> r[k] < k && rpo[r[k]] == disc[rpo[k]]
  {
    seq(|rpo|, k requires 0 <= k < |rpo| =>
      if k == 0 then 0 else var j: nat :| j < k && rpo[j] == disc[rpo[k]]; j)
  }

  ghost function PredsAt(g: Digraph, rpo: seq<nat>, k: nat): (r: set<nat>)
    requires k < |rpo|
    ensures forall p: nat :: p in r <==> p < |rpo| && (rpo[p], rpo[k]) in g.Arcs()
  {
    set p: nat | p in Below(|rpo|) && (rpo[p], rpo[k]) in g.Arcs()
  }

  ghost function PredsOf(g: Digraph, rpo: seq<nat>): (ps: seq<set<nat>>)
    ensures PredSets(g, rpo, ps)
  {
    seq(|rpo|, k requires 0 <= k < |rpo| => PredsAt(g, rpo, k))
  }

  lemma DiscoveredEarlier(g: Digraph, start: nat, rpo: seq<nat>, disc: map<nat, nat>, k: nat)
    requires Discovery(g, start, rpo, disc) && 1 <= k < |rpo|
    ensures rpo[k] in disc && (disc[rpo[k]], rpo[k]) in g.Arcs()
    ensures exists j :: 0 <= j < k && rpo[j] == disc[rpo[k]]
  {
    assert rpo[k] in rpo && rpo[k] != rpo[0];
    assert Before(rpo, disc[rpo[k]], rpo[k]);
    var i, j :| 0 <= i < j < |rpo| && rpo[i] == disc[rpo[k]] && rpo[j] == rpo[k];
    assert j == k;
  }

  /** A state between sweeps. */
  ghost predicate Settled(g: Digraph, start: nat, rpo: seq<nat>, ps: seq<set<nat>>, disc: seq<nat>, t: Tree) {
    AllKept(g, start, rpo, t) && PredSets(g, rpo, ps) && Preds(t, ps, disc) && AllPost(t, ps, disc)
  }

  /** A state within a sweep that began at `t0`. */
  ghost predicate InSweep(g: Digraph, start: nat, rpo: seq<nat>, ps: seq<set<nat>>, disc: seq<nat>,
                          t: Tree, t0: Tree, i: nat, changed: bool)
  {
    && Sweep(t, t0, ps, disc, i) && AllKept(g, start, rpo, t) && PredSets(g, rpo, ps)
    && (changed ==> Weight(t, |t|) < Weight(t0, |t0|))
    && (!changed ==> t == t0 && FixBelow(t, ps, i))
  }

  lemma SweepBegins(g: Digraph, start: nat, rpo: seq<nat>, ps: seq<set<nat>>, disc: seq<nat>, t: Tree)
    requires Settled(g, start, rpo, ps, disc, t)
    ensures InSweep(g, start, rpo, ps, disc, t, t, 1, false)
  {
    SweepEndStart(t, ps, disc);
  }

  lemma SweepTurn(g: Digraph, start: nat, rpo: seq<nat>, ps: seq<set<nat>>, disc: seq<nat>,
                  t: Tree, t0: Tree, i: nat, changed: bool, c: nat)
    requires InSweep(g, start, rpo, ps, disc, t, t0, i, changed) && i < |t| && Nearest(t, ps[i], c)
    ensures InSweep(g, start, rpo, ps, disc, t[i := Some(c)], t0, i + 1, changed || t[i] != Some(c))
  {
    assert Set(t, disc[i]) && disc[i] in ps[i];
    NewBelowOld(t, t0, ps, disc, i, c);
    if t[i] != Some(c) {
      WeightStep(t, i, c, |t|);
    }
    TurnKeeps(g, start, rpo, ps, disc, t, t0, i, c);
    if t[i] == Some(c) {
      assert t[i := Some(c)] == t;
      if !changed {
        FixNext(t, ps, i, c);
      }
    }
  }

  lemma NewBelowOld(t: Tree, t0: Tree, ps: seq<set<nat>>, disc: seq<nat>, i: nat, c: nat)
    requires Sweep(t, t0, ps, disc, i) && i < |t| && Nearest(t, ps[i], c)
    ensures c < i && (t[i].Some? ==> c <= t[i].value)
  {
    SweepStep(t, t0, ps, disc, i, c);
  }

  lemma TurnKeeps(g: Digraph, start: nat, rpo: seq<nat>, ps: seq<set<nat>>, disc: seq<nat>, t: Tree, t0: Tree, i: nat,
                  c: nat)
    requires Sweep(t, t0, ps, disc, i) && AllKept(g, start, rpo, t) && PredSets(g, rpo, ps)
    requires i < |t| && Nearest(t, ps[i], c) && Set(t, disc[i]) && disc[i] in ps[i]
    ensures Sweep(t[i := Some(c)], t0, ps, disc, i + 1) && AllKept(g, start, rpo, t[i := Some(c)])
  {
    SweepStep(t, t0, ps, disc, i, c);
    KeptStep(g, start, rpo, ps, t, i, c, disc[i]);
  }

  lemma FixNext(t: Tree, ps: seq<set<nat>>, i: nat, c: nat)
    requires IsTree(t) && |t| == |ps| && FixBelow(t, ps, i) && i < |t| && t[i] == Some(c) && Set(t, c)
    requires Common(t, ps[i], c)
    ensures FixBelow(t, ps, i + 1)
  {
    FixHere(t, ps, i, c);
  }

  lemma FixHere(t: Tree, ps: seq<set<nat>>, i: nat, c: nat)
    requires IsTree(t) && |t| == |ps| && i < |t| && t[i] == Some(c) && Set(t, c) && Common(t, ps[i], c)
    ensures Set(t, i) && Fix(t, ps, i)
  {
  }

  lemma SweepFinishes(g: Digraph, start: nat, rpo: seq<nat>, ps: seq<set<nat>>, disc: seq<nat>, t: Tree, t0: Tree,
                      changed: bool)
    requires InSweep(g, start, rpo, ps, disc, t, t0, |t|, changed)
    ensures Settled(g, start, rpo, ps, disc, t) && Whole(t)
    ensures changed ==> Weight(t, |t|) < Weight(t0, |t0|)
    ensures !changed ==> t == t0 && FixBelow(t, ps, |t|)
  {
    SweepEnd(t, t0, ps, disc);
  }

  /** One turn of a sweep: the node at position `i` takes the nearest common dominator of its
      predecessors. */
  method Improve(g: Digraph, rpo: seq<nat>, rpoIndex: map<nat, nat>, t: Tree, ghost t0: Tree, i: nat, changed: bool,
                 ghost start: nat, ghost ps: seq<set<nat>>, ghost disc: seq<nat>)
    returns (t': Tree, changed': bool)
    requires g.Valid() && IndexOf(rpo, rpoIndex) && forall k :: 0 <= k < |rpo| ==> rpo[k] < g.n
    requires i < |rpo| == |t| && InSweep(g, start, rpo, ps, disc, t, t0, i, changed)
    ensures |t'| == |t| && InSweep(g, start, rpo, ps, disc, t', t0, i + 1, changed')
  {
    assert Set(t, disc[i]) && disc[i] in ps[i];
    var c := NewIdom(g, rpo, rpoIndex, t, i, ps, disc[i]);
    SweepTurn(g, start, rpo, ps, disc, t, t0, i, changed, c.value);
    t', changed' := t[i := c], changed || c != t[i];
  }

  /** One sweep over the order. */
  method SweepOnce(g: Digraph, rpo: seq<nat>, rpoIndex: map<nat, nat>, t0: Tree,
                   ghost start: nat, ghost ps: seq<set<nat>>, ghost disc: seq<nat>)
    returns (t: Tree, changed: bool)
    requires g.Valid() && Settled(g, start, rpo, ps, disc, t0)
    requires IndexOf(rpo, rpoIndex) && forall k :: 0 <= k < |rpo| ==> rpo[k] < g.n
    ensures Settled(g, start, rpo, ps, disc, t) && Whole(t)
    ensures changed ==> Weight(t, |t|) < Weight(t0, |t0|)
    ensures !changed ==> t == t0 && FixBelow(t, ps, |t|)
  {
    t, changed := t0, false;
    SweepBegins(g, start, rpo, ps, disc, t);
    var i := 1;
    while i < |rpo|
      invariant 1 <= i <= |rpo| == |t| && InSweep(g, start, rpo, ps, disc, t, t0, i, changed)
    {
      t, changed := Improve(g, rpo, rpoIndex, t, t0, i, changed, start, ps, disc);
      i := i + 1;
    }
    SweepFinishes(g, start, rpo, ps, disc, t, t0, changed);
  }

  lemma FixpointStart(g: Digraph, start: nat, rpo: seq<nat>, disc: map<nat, nat>, t: Tree)
    returns (ps: seq<set<nat>>, ds: seq<nat>)
    requires Discovery(g, start, rpo, disc)
    requires |t| == |rpo| && forall k :: 0 <= k < |t| ==> t[k] == if k == 0 then Some(0) else None
    ensures Settled(g, start, rpo, ps, ds, t)
  {
    forall k | 1 <= k < |rpo|
      ensures rpo[k] in disc && (disc[rpo[k]], rpo[k]) in g.Arcs() && exists j :: 0 <= j < k && rpo[j] == disc[rpo[k]]
    {
      DiscoveredEarlier(g, start, rpo, disc, k);
    }
    ps, ds := PredsOf(g, rpo), DiscIndices(rpo, disc);
  }

  /** The pairs are about the nodes of `post`, last one first. */
  ghost predicate InReverse(post: seq<nat>, pairs: seq<(nat, nat)>) {
    |pairs| == |post| && forall i {:trigger pairs[i]} :: 0 <= i < |pairs| ==> pairs[i].0 == post[|post| - 1 - i]
  }

  /** `dominators_unchecked`: one pair per reachable node, the node with its immediate
      dominator, the start with itself. */
  method ImmediateDominators(g: Digraph, start: nat) returns (pairs: seq<(nat, nat)>)
    requires g.Valid() && start < g.n
    ensures forall i, j :: 0 <= i < j < |pairs| ==> pairs[i].0 != pairs[j].0
    ensures exists post :: Leaves(g, start, post) && InReverse(post, pairs)
    ensures forall v: nat :: Reach(g.Arcs(), start, v) <==> exists i :: 0 <= i < |pairs| && pairs[i].0 == v
    ensures forall i :: 0 <= i < |pairs| ==>
              if pairs[i].0 == start then pairs[i].1 == start
              else ImmediatelyDominates(g, start, pairs[i].1, pairs[i].0)
  {
    var rpo;
    ghost var disc;
    rpo, disc := DiscoveryOrder(g, start);
    var idom := Fixpoint(g, rpo, start, disc);
    pairs := seq(|rpo|, k requires 0 <= k < |rpo| && k < |idom| && idom[k].Some? && idom[k].value < |rpo| =>
      (rpo[k], rpo[idom[k].value]));
    assert InReverse(Reversed(rpo), pairs);
    forall v: nat ensures Reach(g.Arcs(), start, v) <==> exists i :: 0 <= i < |pairs| && pairs[i].0 == v {
      if v in rpo {
        var i :| 0 <= i < |rpo| && rpo[i] == v;
        assert pairs[i].0 == v;
      }
    }
  }

  /** Sweep until nothing changes. */
  method Fixpoint(g: Digraph, rpo: seq<nat>, ghost start: nat, ghost disc: map<nat, nat>) returns (idom: Tree)
    requires g.Valid() && Discovery(g, start, rpo, disc)
    requires forall v: nat :: v in rpo <==> Reach(g.Arcs(), start, v)
    ensures |idom| == |rpo| && idom[0] == Some(0)
    ensures forall k :: 1 <= k < |rpo| ==> idom[k].Some? && idom[k].value < k
                                           && ImmediatelyDominates(g, start, rpo[idom[k].value], rpo[k])
  {
    var rpoIndex := IndexMap(rpo);
    assert forall k :: 0 <= k < |rpo| ==> rpo[k] in rpo;
    idom := seq(|rpo|, k => if k == 0 then Some(0) else None);
    ghost var ps, ds := FixpointStart(g, start, rpo, disc, idom);
    var changed := true;
    while changed
      invariant Settled(g, start, rpo, ps, ds, idom)
      invariant !changed ==> Whole(idom) && FixBelow(idom, ps, |idom|)
      decreases Weight(idom, |idom|), changed
    {
      idom, changed := SweepOnce(g, rpo, rpoIndex, idom, start, ps, ds);
    }
    forall k | 1 <= k < |rpo| ensures idom[k].Some? && idom[k].value < k
                                      && ImmediatelyDominates(g, start, rpo[idom[k].value], rpo[k]) {
      assert Set(idom, k);
      FixpointIsDominators(g, start, rpo, ps, idom, k);
    }
  }

  method IndexMap(rpo: seq<nat>) returns (rpoIndex: map<nat, nat>)
    requires NoDup(rpo)
    ensures IndexOf(rpo, rpoIndex)
  {
    rpoIndex := map[];
    var k := 0;
    while k < |rpo|
      invariant k <= |rpo|
      invariant forall j :: 0 <= j < k ==> rpo[j] in rpoIndex && rpoIndex[rpo[j]] == j
      invariant forall v :: v in rpoIndex ==> rpoIndex[v] < k && rpo[rpoIndex[v]] == v
    {
      rpoIndex := rpoIndex[rpo[k] := k];
      k := k + 1;
    }
  }
}
