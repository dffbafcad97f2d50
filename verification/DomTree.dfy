/** Theory behind the dominator fixpoint of `src/algo/dominators.rs`: partial trees whose parents
    have smaller numbers, one sweep over them, and why sweeping only ever shrinks ancestor
    chains.  Nothing here assumes that the numbering is a reverse post-order: only that every
    number but 0 has one distinguished predecessor (`disc`) with a smaller number. */
module DomTree {
  import opened Vec

  type Tree = seq<Option<nat>>

  ghost predicate Set(t: Tree, k: nat) {
    k < |t| && t[k].Some?
  }

  ghost predicate IsTree(t: Tree) {
    && |t| > 0 && t[0] == Some(0)
    && forall k {:trigger Set(t, k)} :: 1 <= k && Set(t, k) ==> t[k].value < k && t[t[k].value].Some?
  }

  /** `k`, its parent, its parent's parent and so on up to 0. */
  ghost function Anc(t: Tree, k: nat): (r: set<nat>)
    requires IsTree(t) && Set(t, k)
    ensures k in r && 0 in r
    ensures forall y :: y in r ==> y <= k && Set(t, y)
    decreases k
  {
    if k == 0 then {0} else {k} + Anc(t, t[k].value)
  }

  lemma {:induction false} AncUp(t: Tree, k: nat, y: nat)
    requires IsTree(t) && Set(t, k) && y in Anc(t, k)
    ensures Anc(t, y) == set z | z in Anc(t, k) && z <= y
    decreases k
  {
    if y != k {
      AncUp(t, t[k].value, y);
    }
  }

  /** `y` is an ancestor of every member of `ps` that has a parent yet. */
  ghost predicate Common(t: Tree, ps: set<nat>, y: nat)
    requires IsTree(t)
  {
    forall p {:trigger p in ps} :: p in ps && Set(t, p) ==> y in Anc(t, p)
  }

  ghost predicate Preds(t: Tree, ps: seq<set<nat>>, disc: seq<nat>) {
    && |ps| == |t| == |disc|
    && (forall k, p :: 0 <= k < |ps| && p in ps[k] ==> p < |t|)
    && forall k :: 1 <= k < |t| ==> disc[k] < k && disc[k] in ps[k]
  }

  /** The parent of `k` is at or below every common ancestor of its predecessors, and is an
      ancestor of its discoverer. */
  ghost predicate Post(t: Tree, ps: seq<set<nat>>, disc: seq<nat>, k: nat)
    requires IsTree(t) && Preds(t, ps, disc) && 1 <= k && Set(t, k)
  {
    && Set(t, disc[k]) && t[k].value in Anc(t, disc[k])
    && forall y :: Common(t, ps[k], y) ==> y in Anc(t, t[k].value)
  }

  ghost predicate AllPost(t: Tree, ps: seq<set<nat>>, disc: seq<nat>)
    requires IsTree(t) && Preds(t, ps, disc)
  {
    forall k {:trigger Post(t, ps, disc, k)} :: 1 <= k && Set(t, k) ==> Post(t, ps, disc, k)
  }

  /** Against the tree `t0` the sweep started from: nodes below `i` are done and moved to an
      ancestor of their old parent, the others are untouched. */
  ghost predicate Swept(t: Tree, t0: Tree, i: nat)
    requires IsTree(t) && IsTree(t0)
  {
    && |t| == |t0| && i <= |t|
    && (forall k :: 0 <= k < i ==> Set(t, k))
    && (forall k :: i <= k < |t| ==> t[k] == t0[k])
    && (forall k {:trigger Set(t0, k)} :: Set(t0, k) ==> Set(t, k))
    && forall k {:trigger Set(t0, k)} :: 1 <= k < i && Set(t0, k) ==> t[k].value in Anc(t, t0[k].value)
  }

  lemma {:induction false} SweptShrinks(t: Tree, t0: Tree, i: nat, x: nat)
    requires IsTree(t) && IsTree(t0) && Swept(t, t0, i) && Set(t0, x)
    ensures Anc(t, x) <= Anc(t0, x)
    decreases x
  {
    if x > 0 {
      SweptShrinks(t, t0, i, t0[x].value);
      if x < i {
        AncUp(t, t0[x].value, t[x].value);
      }
    }
  }

  /** Walking up from `q` in the new tree meets only nodes above `d` until it joins the chain
      of `d`, provided `d` was an ancestor of `q` before. */
  lemma {:induction false} SweptJoins(t: Tree, t0: Tree, i: nat, q: nat, d: nat)
    requires IsTree(t) && IsTree(t0) && Swept(t, t0, i) && Set(t0, q) && q < i && d in Anc(t0, q)
    ensures forall y :: y in Anc(t, q) ==> y > d || y in Anc(t, d)
    decreases q
  {
    if q != d {
      var y := t0[q].value;
      SweptJoins(t, t0, i, y, d);
      AncUp(t, y, t[q].value);
    }
  }

  /** A node common to all current predecessors of `i` is an ancestor of its present parent. */
  lemma NewIsAncestor(t: Tree, t0: Tree, ps: seq<set<nat>>, disc: seq<nat>, i: nat, c: nat)
    requires IsTree(t) && IsTree(t0) && Preds(t, ps, disc) && Preds(t0, ps, disc)
    requires Swept(t, t0, i) && AllPost(t0, ps, disc) && 1 <= i && Set(t0, i)
    requires Common(t, ps[i], c)
    ensures c in Anc(t, t0[i].value)
  {
    assert Post(t0, ps, disc, i);
    var was := t0[i].value;
    forall p | p in ps[i] && Set(t0, p) ensures c in Anc(t0, p) {
      SweptShrinks(t, t0, i, p);
    }
    assert Common(t0, ps[i], c);
    assert c <= was;
    SweptJoins(t, t0, i, disc[i], was);
    assert c in Anc(t, disc[i]);
  }

  /** Giving `i` a parent that was already above it removes ancestors, adds none. */
  lemma {:induction false} ReparentShrinks(t: Tree, i: nat, c: nat, x: nat)
    requires IsTree(t) && 1 <= i < |t| && c < i && Set(t, c) && Set(t, x)
    requires Set(t, i) ==> c in Anc(t, t[i].value)
    ensures IsTree(t[i := Some(c)])
    ensures Anc(t[i := Some(c)], x) <= Anc(t, x)
    ensures x < i ==> Anc(t[i := Some(c)], x) == Anc(t, x)
    decreases x
  {
    var t' := t[i := Some(c)];
    forall k | 1 <= k && Set(t', k) ensures t'[k].value < k && t'[t'[k].value].Some? {
      assert k != i ==> Set(t, k);
    }
    if x > 0 {
      if x == i {
        ReparentShrinks(t, i, c, c);
        AncUp(t, t[i].value, c);
      } else {
        ReparentShrinks(t, i, c, t[x].value);
      }
    }
  }

  /** What one sweep maintains. */
  ghost predicate Sweep(t: Tree, t0: Tree, ps: seq<set<nat>>, disc: seq<nat>, i: nat) {
    && IsTree(t) && IsTree(t0) && Preds(t, ps, disc) && Preds(t0, ps, disc)
    && 1 <= i && Swept(t, t0, i) && AllPost(t0, ps, disc)
    && forall k {:trigger Post(t, ps, disc, k)} :: 1 <= k < i && Set(t, k) ==> Post(t, ps, disc, k)
  }

  /** `c` is the nearest common ancestor of the predecessors of `i` that have a parent. */
  ghost predicate Nearest(t: Tree, ps: set<nat>, c: nat)
    requires IsTree(t)
  {
    && Set(t, c) && Common(t, ps, c)
    && forall y :: Common(t, ps, y) ==> y in Anc(t, c)
  }

  lemma NewParent(t: Tree, t0: Tree, ps: seq<set<nat>>, disc: seq<nat>, i: nat, c: nat)
    requires Sweep(t, t0, ps, disc, i) && i < |t| && Nearest(t, ps[i], c)
    ensures c < i && Set(t, c) && (Set(t, i) ==> t[i].Some? && c in Anc(t, t[i].value) && c <= t[i].value)
  {
    assert Set(t, disc[i]) && disc[i] in ps[i];
    assert c in Anc(t, disc[i]);
    if t[i].Some? {
      assert Set(t0, i);
      NewIsAncestor(t, t0, ps, disc, i, c);
    }
  }

  lemma SweepStep(t: Tree, t0: Tree, ps: seq<set<nat>>, disc: seq<nat>, i: nat, c: nat)
    requires Sweep(t, t0, ps, disc, i) && i < |t| && Nearest(t, ps[i], c)
    ensures Sweep(t[i := Some(c)], t0, ps, disc, i + 1)
    ensures c < i && (t[i].Some? ==> c <= t[i].value)
  {
    var t' := t[i := Some(c)];
    NewParent(t, t0, ps, disc, i, c);
    ReparentShrinks(t, i, c, 0);
    StepSwept(t, t0, i, c, t');
    forall k | 1 <= k < i + 1 && Set(t', k) ensures Post(t', ps, disc, k) {
      StepPost(t, t0, ps, disc, i, c, t', k);
    }
  }

  lemma StepSwept(t: Tree, t0: Tree, i: nat, c: nat, t': Tree)
    requires IsTree(t) && IsTree(t0) && Swept(t, t0, i) && 1 <= i < |t| && c < i && Set(t, c)
    requires Set(t, i) ==> c in Anc(t, t[i].value)
    requires t' == t[i := Some(c)] && IsTree(t')
    ensures Swept(t', t0, i + 1)
  {
    forall k {:trigger Set(t0, k)} | 1 <= k < i + 1 && Set(t0, k) ensures t'[k].value in Anc(t', t0[k].value) {
      StepChain(t, t0, i, c, t', k);
    }
    forall k {:trigger Set(t0, k)} | Set(t0, k) ensures Set(t', k) {
      assert Set(t, k);
    }
    forall k | 0 <= k < i + 1 ensures Set(t', k) {
      assert k < i ==> Set(t, k);
    }
  }

  lemma StepChain(t: Tree, t0: Tree, i: nat, c: nat, t': Tree, k: nat)
    requires IsTree(t) && IsTree(t0) && Swept(t, t0, i) && 1 <= i < |t| && c < i && Set(t, c)
    requires Set(t, i) ==> c in Anc(t, t[i].value)
    requires t' == t[i := Some(c)] && IsTree(t') && 1 <= k <= i && Set(t0, k)
    ensures Set(t', t0[k].value) && t'[k].value in Anc(t', t0[k].value)
  {
    assert Set(t, k) && Set(t0, t0[k].value) && Set(t, t0[k].value);
    ReparentShrinks(t, i, c, t0[k].value);
  }

  lemma StepPost(t: Tree, t0: Tree, ps: seq<set<nat>>, disc: seq<nat>, i: nat, c: nat, t': Tree, k: nat)
    requires Sweep(t, t0, ps, disc, i) && i < |t| && Nearest(t, ps[i], c) && c < i
    requires Set(t, i) ==> c in Anc(t, t[i].value)
    requires t' == t[i := Some(c)] && IsTree(t') && Preds(t', ps, disc)
    requires 1 <= k <= i && Set(t', k)
    requires Set(t, disc[i]) && c in Anc(t, disc[i])
    ensures Post(t', ps, disc, k)
  {
    assert k < i ==> Set(t, k) && Post(t, ps, disc, k);
    ReparentShrinks(t, i, c, disc[k]);
    ReparentShrinks(t, i, c, t'[k].value);
    forall y | Common(t', ps[k], y) ensures y in Anc(t', t'[k].value) {
      CommonShrinks(t, i, c, t', ps[k], y);
    }
  }

  lemma CommonShrinks(t: Tree, i: nat, c: nat, t': Tree, ps: set<nat>, y: nat)
    requires IsTree(t) && 1 <= i < |t| && c < i && Set(t, c)
    requires Set(t, i) ==> c in Anc(t, t[i].value)
    requires t' == t[i := Some(c)] && IsTree(t') && Common(t', ps, y)
    ensures Common(t, ps, y)
  {
    forall p | p in ps && Set(t, p) ensures y in Anc(t, p) {
      assert Set(t', p);
      ReparentShrinks(t, i, c, p);
    }
  }

  /** A finished sweep is a start for the next one. */
  lemma SweepEnd(t: Tree, t0: Tree, ps: seq<set<nat>>, disc: seq<nat>)
    requires Sweep(t, t0, ps, disc, |t|)
    ensures AllPost(t, ps, disc) && Sweep(t, t, ps, disc, 1)
  {
    forall k | 1 <= k && Set(t, k) ensures Post(t, ps, disc, k) {
    }
    assert Swept(t, t, 1);
  }

  lemma SweepEndStart(t: Tree, ps: seq<set<nat>>, disc: seq<nat>)
    requires IsTree(t) && Preds(t, ps, disc) && AllPost(t, ps, disc)
    ensures Sweep(t, t, ps, disc, 1)
  {
  }

  // ----- progress -----

  /** Parents added up, a missing one counting as the number of nodes. */
  ghost function Weight(t: Tree, k: nat): nat
    requires k <= |t|
  {
    if k == 0 then 0
    else Weight(t, k - 1) + if t[k - 1].Some? then t[k - 1].value else |t|
  }

  lemma {:induction false} WeightStep(t: Tree, i: nat, c: nat, k: nat)
    requires i < |t| && k <= |t| && (if t[i].Some? then c < t[i].value else c < |t|)
    ensures i < k ==> Weight(t[i := Some(c)], k) < Weight(t, k)
    ensures k <= i ==> Weight(t[i := Some(c)], k) == Weight(t, k)
  {
    if k > 0 {
      WeightStep(t, i, c, k - 1);
    }
  }
}
