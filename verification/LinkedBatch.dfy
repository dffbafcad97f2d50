/** Facts about the phases of `take_nodes_edges_unchecked`
    (`src/raw_graph/linked_adj_edge.rs`), in terms of views. */
module LinkedBatch {
  import opened Seqs
  import opened Vec
  import opened LinkedStore
  import opened LinkedView

  ghost predicate Dying<N, E>(b: Store<N, E>, ns: seq<nat>, es: seq<nat>, x: nat) {
    x < |b.edges| && (x in es || exists d: Dir :: b.edges[x].node.At(d) in ns)
  }

  /** The members of `xs` whose `d` endpoint is `v`. */
  ghost function Ends<N, E>(s: Store<N, E>, xs: set<nat>, d: Dir, v: nat): set<nat> {
    set x | x in xs && x < |s.edges| && s.edges[x].node.At(d) == v
  }

  // ----- relocation records -----

  /** `moves` sends the old slot of every moved survivor to its present slot; `origin` sends
      every slot holding a moved survivor back to the slot it came from. */
  ghost predicate Recorded(o: seq<nat>, l: map<nat, nat>, moves: map<nat, nat>, origin: map<nat, nat>) {
    && MovedMapOf(l, moves) && (forall x :: x in moves ==> |o| <= x)
    && OriginOf(o, origin)
  }

  ghost predicate MovedMapOf(l: map<nat, nat>, moved: map<nat, nat>) {
    && (forall x: nat :: x in moved <==> x in l && l[x] != x)
    && (forall x :: x in moved ==> moved[x] == l[x])
  }

  ghost predicate OriginOf(o: seq<nat>, origin: map<nat, nat>) {
    && (forall i: nat :: i in origin <==> i < |o| && o[i] != i)
    && (forall i :: i in origin ==> origin[i] == o[i])
  }

  function Composed(origin: map<nat, nat>, last: nat): nat {
    if last in origin then origin[last] else last
  }

  function NextMoves(moves: map<nat, nat>, origin: map<nat, nat>, length: nat, e: nat): map<nat, nat>
    requires e < length
  {
    match Relocated(length, e)
    case None => moves
    case Some(last) => moves[Composed(origin, last) := e]
  }

  function NextOrigin(origin: map<nat, nat>, length: nat, e: nat): map<nat, nat>
    requires e < length
  {
    match Relocated(length, e)
    case None => origin
    case Some(last) => (origin - {last})[e := Composed(origin, last)]
  }

  lemma RecordLast(o: seq<nat>, l: map<nat, nat>, moves: map<nat, nat>, origin: map<nat, nat>)
    requires Inverse(o, l) && Recorded(o, l, moves, origin)
    requires |o| > 0 && o[|o| - 1] == |o| - 1
    ensures Recorded(SwapRemove(o, |o| - 1), Gone(o, l, |o| - 1), moves, origin)
  {
    GoneInverse(o, l, |o| - 1);
    assert l[|o| - 1] == |o| - 1;
  }

  lemma RecordMove(o: seq<nat>, l: map<nat, nat>, moves: map<nat, nat>, origin: map<nat, nat>, e: nat)
    requires Inverse(o, l) && Recorded(o, l, moves, origin)
    requires e < |o| - 1 && o[e] == e
    ensures var f := Composed(origin, |o| - 1);
            Recorded(SwapRemove(o, e), Gone(o, l, e), moves[f := e], (origin - {|o| - 1})[e := f])
  {
    var last := |o| - 1;
    var f := Composed(origin, last);
    var l' := Gone(o, l, e);
    GoneInverse(o, l, e);
    assert o[last] == f && l[e] == e && l[f] == last;
    assert forall x :: x in l' ==> l'[x] == if x == f then e else l[x];
    MoveEntered(l, l', moves, f, e);
    OriginEntered(o, origin, f, e);
  }

  lemma MoveEntered(l: map<nat, nat>, l': map<nat, nat>, moves: map<nat, nat>, f: nat, e: nat)
    requires MovedMapOf(l, moves) && e in l && l[e] == e && f in l && f != e && l'.Keys == l.Keys - {e}
    requires forall x :: x in l' ==> l'[x] == if x == f then e else l[x]
    ensures MovedMapOf(l', moves[f := e])
  {
  }

  lemma OriginEntered(o: seq<nat>, origin: map<nat, nat>, f: nat, e: nat)
    requires OriginOf(o, origin) && e < |o| - 1 && o[|o| - 1] == f != e
    ensures OriginOf(SwapRemove(o, e), (origin - {|o| - 1})[e := f])
  {
  }

  /** The records kept while removing `e` are the location map of the survivors that moved. */
  lemma RecordStep(o: seq<nat>, l: map<nat, nat>, moves: map<nat, nat>, origin: map<nat, nat>, e: nat)
    requires Inverse(o, l) && Recorded(o, l, moves, origin)
    requires e < |o| && o[e] == e
    ensures Recorded(SwapRemove(o, e), Gone(o, l, e), NextMoves(moves, origin, |o|, e), NextOrigin(origin, |o|, e))
  {
    if e == |o| - 1 {
      RecordLast(o, l, moves, origin);
    } else {
      RecordMove(o, l, moves, origin, e);
    }
  }

  // ----- changing several things at once -----

  ghost function WithLinked(w: View, lk: Pair<set<nat>>, lv: set<nat>): View {
    w.(lk := lk, lv := lv)
  }

  /** Chains that are no longer maintained may be forgotten, with the edges on them. */
  lemma ForgetStep<N, E>(b: Store<N, E>, ch: Chains, w: View, s: Store<N, E>, lk: Pair<set<nat>>, lv: set<nat>)
    requires Tracks(b, ch, w, s) && lv <= w.lv
    requires forall d: Dir :: lk.At(d) <= w.lk.At(d)
    requires forall d: Dir, x: nat {:trigger x in lk.At(d)} ::
               x in w.lk.At(d) && x < |b.edges| && b.edges[x].node.At(d) in lv ==> x in lk.At(d)
    ensures Tracks(b, ch, WithLinked(w, lk, lv), s)
  {
    var w' := WithLinked(w, lk, lv);
    forall x | x in w'.el ensures EdgeHeld(b, w', s, x) {
      assert EdgeHeld(b, w, s, x);
    }
    forall u | u in w'.nl ensures NodeHeld(b, w', s, u) {
      assert NodeHeld(b, w, s, u);
    }
    forall d: Dir, u: nat | u in w'.lv ensures ChainHeld(w', s, d, u, Chain(ch, w', d, u)) {
      assert Threaded(b, d, u, ch.At(d)[u]);
      FilterAgree(ch.At(d)[u], w.lk.At(d), lk.At(d));
      MovedChain(w, w', s, s, d, u, Chain(ch, w, d, u));
    }
  }

  // ----- phase 2: one sweep per chain unlinks the dying edges -----

  ghost function Without2(w: View, d: Dir, gone: set<nat>): View {
    w.(lk := With(w.lk, d, w.lk.At(d) - gone))
  }

  lemma SuffixCount(c: seq<nat>, a: set<nat>, j: nat)
    requires NoDup(c) && j < |c|
    ensures |a * Elems(c[j..])| == |a * Elems(c[j + 1..])| + if c[j] in a then 1 else 0
  {
    var rest := a * Elems(c[j + 1..]);
    assert c[j..] == [c[j]] + c[j + 1..];
    assert c[j] !in c[j + 1..];
    if c[j] in a {
      assert a * Elems(c[j..]) == rest + {c[j]};
    } else {
      assert a * Elems(c[j..]) == rest;
    }
  }

  /** Where a sweep of chain `c0` has got to: `gone` has been cut out, `c` is left, and nothing
      before position `j` is dying. */
  ghost predicate Sweeping(c0: seq<nat>, dying: set<nat>, gone: set<nat>, c: seq<nat>, j: nat, expected: nat) {
    && j <= |c| && NoDup(c)
    && (forall x {:trigger x in gone} :: x in gone ==> x in dying && x in c0)
    && (forall x {:trigger x in c} {:trigger x in c0} :: x in c <==> x in c0 && x !in gone)
    && (forall k :: 0 <= k < j ==> c[k] !in dying)
    && expected == |dying * Elems(c[j..])|
  }

  lemma SweepCut(c0: seq<nat>, dying: set<nat>, gone: set<nat>, c: seq<nat>, j: nat, expected: nat)
    requires Sweeping(c0, dying, gone, c, j, expected) && j < |c| && c[j] in dying
    ensures expected > 0 && Sweeping(c0, dying, gone + {c[j]}, Without(c, j), j, expected - 1)
  {
    SuffixCount(c, dying, j);
    WithoutMember(c, j);
    var c' := Without(c, j);
    assert c[j] in c;
    forall x ensures x in c' <==> x in c && x != c[j] {
      assert x in Elems(c') <==> x in Elems(c) - {c[j]};
    }
    assert forall k :: 0 <= k < j ==> c'[..j][k] == c[k];
  }

  lemma SweepPass(c0: seq<nat>, dying: set<nat>, gone: set<nat>, c: seq<nat>, j: nat, expected: nat)
    requires Sweeping(c0, dying, gone, c, j, expected) && j < |c| && c[j] !in dying
    ensures Sweeping(c0, dying, gone, c, j + 1, expected)
  {
    SuffixCount(c, dying, j);
    assert c[..j + 1] == c[..j] + [c[j]];
  }

  lemma SweepDone(c0: seq<nat>, dying: set<nat>, gone: set<nat>, c: seq<nat>, j: nat)
    requires Sweeping(c0, dying, gone, c, j, 0)
    ensures gone == dying * Elems(c0)
  {
    var rest := c[j..];
    assert dying * Elems(rest) == {};
    forall k | 0 <= k < |c| ensures c[k] !in dying {
      var x := c[k];
      assert k >= j ==> rest[k - j] == x;
      assert x in rest && x in dying ==> x in dying * Elems(rest);
    }
  }

  lemma SweepLive(c0: seq<nat>, dying: set<nat>, gone: set<nat>, c: seq<nat>, j: nat, expected: nat)
    requires Sweeping(c0, dying, gone, c, j, expected) && expected > 0
    ensures j < |c|
  {
    var rest := c[j..];
    assert j == |c| ==> dying * Elems(rest) == {};
  }

  // ----- phase 4: one sweep per chain redirects the stale pointers -----

  ghost function Patched(pl: map<nat, nat>, el: map<nat, nat>, c: seq<nat>): map<nat, nat> {
    map x | x in pl :: if x in c && x in el then el[x] else pl[x]
  }

  ghost function PatchedView(w: View, d: Dir, c: seq<nat>): View {
    w.(pl := With(w.pl, d, Patched(w.pl.At(d), w.el, c)))
  }

  lemma PatchNone(w: View, d: Dir)
    ensures PatchedView(w, d, []) == w
  {
    assert Patched(w.pl.At(d), w.el, []) == w.pl.At(d);
  }

  lemma PatchNext(w: View, d: Dir, c: seq<nat>, k: nat)
    requires k < |c| && c[k] in w.pl.At(d) && c[k] in w.el
    ensures Repointed(PatchedView(w, d, c[..k]), d, c[k], w.el[c[k]]) == PatchedView(w, d, c[..k + 1])
    ensures w.pl.At(d)[c[k]] == w.el[c[k]] ==> PatchedView(w, d, c[..k]) == PatchedView(w, d, c[..k + 1])
  {
    assert c[..k + 1] == c[..k] + [c[k]];
    var a, z := PatchedView(w, d, c[..k]), PatchedView(w, d, c[..k + 1]);
    assert Repointed(a, d, c[k], w.el[c[k]]).pl.At(d) == z.pl.At(d);
    if w.pl.At(d)[c[k]] == w.el[c[k]] {
      assert a.pl.At(d) == z.pl.At(d);
    }
  }

  lemma PatchRest(w: View, d: Dir, c: seq<nat>, k: nat)
    requires k <= |c|
    requires forall x :: x in c[k..] && x in w.pl.At(d) && x in w.el ==> w.pl.At(d)[x] == w.el[x]
    ensures PatchedView(w, d, c[..k]) == PatchedView(w, d, c)
  {
    assert c == c[..k] + c[k..];
    assert PatchedView(w, d, c[..k]).pl.At(d) == PatchedView(w, d, c).pl.At(d);
  }

  // ----- the two sweeps as loops over a store -----

  function ReadLink<N, E>(s: Store<N, E>, i: nat, pred: Slot, d: Dir): Slot
    requires i < |s.nodes| && (pred.Some? ==> pred.value < |s.edges|)
  {
    match pred
    case None => s.nodes[i].next.At(d)
    case Some(p) => s.edges[p].next.At(d)
  }

  /** Reading behind the predecessor of position `k` yields the pointer to position `k`. */
  lemma ReadAt<N, E>(b: Store<N, E>, ch: Chains, w: View, s: Store<N, E>, d: Dir, v: nat, k: nat)
    requires Tracks(b, ch, w, s) && v in w.lv && k <= |Chain(ch, w, d, v)|
    ensures var pred := Pred(w, Chain(ch, w, d, v), k);
            && (pred.Some? ==> pred.value < |s.edges|)
            && ReadLink(s, w.nl[v], pred, d) == Pointer(w, d, Chain(ch, w, d, v), k)
    ensures forall x :: x in Chain(ch, w, d, v) ==> x in w.el && x in w.pl.At(d)
  {
    var c := Chain(ch, w, d, v);
    assert ChainHeld(w, s, d, v, c);
    if k > 0 {
      assert c[k - 1] in c;
    }
  }

  ghost predicate UnlinkLoop<N, E>(b: Store<N, E>, ch: Chains, w: View, s: Store<N, E>, d: Dir, i: nat,
                                   dying: set<nat>, gone: set<nat>, r: View, j: nat, expected: nat)
  {
    && Tracks(b, ch, r, s) && r == Without2(w, d, gone)
    && Sweeping(Chain(ch, w, d, i), dying, gone, Chain(ch, r, d, i), j, expected)
  }

  lemma UnlinkLoopStart<N, E>(b: Store<N, E>, ch: Chains, w: View, s: Store<N, E>, d: Dir, i: nat, dying: set<nat>)
    requires Tracks(b, ch, w, s) && i in w.lv
    ensures UnlinkLoop(b, ch, w, s, d, i, dying, {}, w, 0, |dying * Elems(Chain(ch, w, d, i))|)
  {
    var c := Chain(ch, w, d, i);
    ChainMembers(b, ch, w, d, i);
    assert c[0..] == c && c[..0] == [];
    assert Without2(w, d, {}).lk.At(d) == w.lk.At(d);
  }

  /** What one turn of the sweep finds: an edge, at its own slot, behind the predecessor. */
  lemma UnlinkLoopRead<N, E>(b: Store<N, E>, ch: Chains, w: View, s: Store<N, E>, d: Dir, i: nat,
                             dying: set<nat>, gone: set<nat>, r: View, j: nat, expected: nat)
    requires UnlinkLoop(b, ch, w, s, d, i, dying, gone, r, j, expected) && expected > 0 && i in w.lv
    requires PointersCurrent(w) && w.el == Identity(|b.edges|) && w.nl == Identity(|b.nodes|)
    ensures j < |Chain(ch, r, d, i)|
    ensures var pred, x := Pred(r, Chain(ch, r, d, i), j), Chain(ch, r, d, i)[j];
            && (pred.Some? ==> pred.value < |s.edges|) && i < |s.nodes| && x < |s.edges|
            && ReadLink(s, i, pred, d) == Some(x)
            && s.edges[x].next.At(d) == Pointer(r, d, Chain(ch, r, d, i), j + 1)
  {
    var c := Chain(ch, r, d, i);
    SweepLive(Chain(ch, w, d, i), dying, gone, c, j, expected);
    ReadAt(b, ch, r, s, d, i, j);
    assert c[j] in c;
    ChainMembers(b, ch, r, d, i);
    assert ChainHeld(r, s, d, i, c);
  }

  lemma UnlinkLoopCut<N, E>(b: Store<N, E>, ch: Chains, w: View, s: Store<N, E>, d: Dir, i: nat,
                            dying: set<nat>, gone: set<nat>, r: View, j: nat, expected: nat) returns (r': View)
    requires UnlinkLoop(b, ch, w, s, d, i, dying, gone, r, j, expected) && i in w.lv && w.nl == Identity(|b.nodes|)
    requires j < |Chain(ch, r, d, i)| && Chain(ch, r, d, i)[j] in dying && expected > 0
    requires Pred(r, Chain(ch, r, d, i), j).Some? ==> Pred(r, Chain(ch, r, d, i), j).value < |s.edges|
    ensures var c := Chain(ch, r, d, i);
            && UnlinkLoop(b, ch, w, SetLink(s, i, Pred(r, c, j), d, Pointer(r, d, c, j + 1)),
                          d, i, dying, gone + {c[j]}, r', j, expected - 1)
            && Pred(r', Chain(ch, r', d, i), j) == Pred(r, c, j)
            && |Chain(ch, r', d, i)| == |c| - 1
  {
    var c := Chain(ch, r, d, i);
    UnlinkStep(b, ch, r, s, d, i, j);
    SweepCut(Chain(ch, w, d, i), dying, gone, c, j, expected);
    r' := Unlinked(r, d, c[j]);
    CutView(w, d, gone, r, c[j]);
    assert forall k :: 0 <= k < j ==> Without(c, j)[k] == c[k];
  }

  lemma CutView(w: View, d: Dir, gone: set<nat>, r: View, x: nat)
    requires r == Without2(w, d, gone)
    ensures Unlinked(r, d, x) == Without2(w, d, gone + {x})
  {
    assert Unlinked(r, d, x).lk.At(d) == Without2(w, d, gone + {x}).lk.At(d);
  }

  lemma UnlinkLoopPass<N, E>(b: Store<N, E>, ch: Chains, w: View, s: Store<N, E>, d: Dir, i: nat,
                             dying: set<nat>, gone: set<nat>, r: View, j: nat, expected: nat)
    requires UnlinkLoop(b, ch, w, s, d, i, dying, gone, r, j, expected) && i in w.lv
    requires PointersCurrent(w) && w.el == Identity(|b.edges|)
    requires j < |Chain(ch, r, d, i)| && Chain(ch, r, d, i)[j] !in dying
    ensures UnlinkLoop(b, ch, w, s, d, i, dying, gone, r, j + 1, expected)
    ensures Pred(r, Chain(ch, r, d, i), j + 1) == Some(Chain(ch, r, d, i)[j])
  {
    var c := Chain(ch, r, d, i);
    SweepPass(Chain(ch, w, d, i), dying, gone, c, j, expected);
    ReadAt(b, ch, r, s, d, i, j);
    assert c[j] in c;
  }

  lemma UnlinkLoopDone<N, E>(b: Store<N, E>, ch: Chains, w: View, s: Store<N, E>, d: Dir, i: nat,
                             dying: set<nat>, gone: set<nat>, r: View, j: nat)
    requires UnlinkLoop(b, ch, w, s, d, i, dying, gone, r, j, 0)
    ensures Tracks(b, ch, Without2(w, d, dying * Elems(Chain(ch, w, d, i))), s)
  {
    SweepDone(Chain(ch, w, d, i), dying, gone, Chain(ch, r, d, i), j);
  }

  ghost predicate PatchLoop<N, E>(b: Store<N, E>, ch: Chains, w: View, s: Store<N, E>, d: Dir, i: nat,
                                  moved: map<nat, nat>, r: View, k: nat, expected: nat)
  {
    var c := Chain(ch, w, d, i);
    && k <= |c| && r == PatchedView(w, d, c[..k]) && Tracks(b, ch, r, s)
    && expected == |moved.Keys * Elems(c[k..])|
  }

  /** Every pointer of the chain still holds the slot its edge had before the removals. */
  ghost predicate AllStale(w: View, d: Dir, c: seq<nat>) {
    forall x :: x in c ==> x in w.pl.At(d) && w.pl.At(d)[x] == x
  }

  ghost predicate MovedMap(w: View, moved: map<nat, nat>) {
    MovedMapOf(w.el, moved)
  }

  lemma PatchLoopStart<N, E>(b: Store<N, E>, ch: Chains, w: View, s: Store<N, E>, d: Dir, i: nat, moved: map<nat, nat>)
    requires Tracks(b, ch, w, s)
    ensures PatchLoop(b, ch, w, s, d, i, moved, w, 0, |moved.Keys * Elems(Chain(ch, w, d, i))|)
  {
    var c := Chain(ch, w, d, i);
    assert c[0..] == c && c[..0] == [];
    PatchNone(w, d);
  }

  lemma PatchLoopRead<N, E>(b: Store<N, E>, ch: Chains, w: View, s: Store<N, E>, d: Dir, i: nat,
                            moved: map<nat, nat>, r: View, k: nat, expected: nat)
    requires PatchLoop(b, ch, w, s, d, i, moved, r, k, expected) && expected > 0
    requires i in w.lv && w.nl[i] == i && AllStale(w, d, Chain(ch, w, d, i)) && WellFormed(b, ch) && i < |b.nodes|
    ensures k < |Chain(ch, w, d, i)| && Chain(ch, r, d, i) == Chain(ch, w, d, i)
    ensures var pred := Pred(w, Chain(ch, w, d, i), k);
            && (pred.Some? ==> pred.value < |s.edges|) && i < |s.nodes|
            && ReadLink(s, i, pred, d) == Some(Chain(ch, w, d, i)[k])
  {
    var c := Chain(ch, w, d, i);
    var rest := c[k..];
    assert k == |c| ==> moved.Keys * Elems(rest) == {};
    assert Chain(ch, r, d, i) == c;
    ReadAt(b, ch, r, s, d, i, k);
    ChainMembers(b, ch, w, d, i);
    assert c[k] in c && c[k] !in c[..k];
  }

  lemma PatchLoopStep<N, E>(b: Store<N, E>, ch: Chains, w: View, s: Store<N, E>, d: Dir, i: nat,
                            moved: map<nat, nat>, r: View, k: nat, expected: nat, s': Store<N, E>) returns (r': View)
    requires PatchLoop(b, ch, w, s, d, i, moved, r, k, expected) && WellFormed(b, ch) && i < |b.nodes|
    requires i in w.lv && w.nl[i] == i && MovedMap(w, moved) && AllStale(w, d, Chain(ch, w, d, i))
    requires k < |Chain(ch, w, d, i)| && Chain(ch, r, d, i) == Chain(ch, w, d, i)
    requires Pred(w, Chain(ch, w, d, i), k).Some? ==> Pred(w, Chain(ch, w, d, i), k).value < |s.edges|
    requires var c := Chain(ch, w, d, i);
             s' == if c[k] in moved then SetLink(s, i, Pred(w, c, k), d, Some(moved[c[k]])) else s
    ensures expected > 0 || Chain(ch, w, d, i)[k] !in moved
    ensures PatchLoop(b, ch, w, s', d, i, moved, r', k + 1, if Chain(ch, w, d, i)[k] in moved then expected - 1
                      else expected)
    ensures var x := Chain(ch, w, d, i)[k];
            Pred(w, Chain(ch, w, d, i), k + 1) == Some(if x in moved then moved[x] else x)
  {
    var c := Chain(ch, w, d, i);
    ChainMembers(b, ch, w, d, i);
    SuffixCount(c, moved.Keys, k);
    assert c[k] in c;
    assert c[k] in w.el by { assert ChainHeld(r, s, d, i, c); }
    PatchNext(w, d, c, k);
    r' := PatchedView(w, d, c[..k + 1]);
    if c[k] in moved {
      RepointStep(b, ch, r, s, d, i, k, moved[c[k]]);
    }
  }

  lemma PatchLoopDone<N, E>(b: Store<N, E>, ch: Chains, w: View, s: Store<N, E>, d: Dir, i: nat,
                            moved: map<nat, nat>, r: View, k: nat)
    requires PatchLoop(b, ch, w, s, d, i, moved, r, k, 0)
    requires MovedMap(w, moved) && AllStale(w, d, Chain(ch, w, d, i))
    ensures Tracks(b, ch, PatchedView(w, d, Chain(ch, w, d, i)), s)
  {
    var c := Chain(ch, w, d, i);
    var rest := c[k..];
    assert moved.Keys * Elems(rest) == {};
    forall x | x in rest && x in w.pl.At(d) && x in w.el ensures w.pl.At(d)[x] == w.el[x] {
      assert x in c;
      assert x in moved ==> x in moved.Keys * Elems(rest);
    }
    PatchRest(w, d, c, k);
  }

  // ----- phase 2 as a whole -----

  type ChainKey = (nat, Dir)

  /** The dying edges whose `d` chain has been swept: its node stays and is no longer queued. */
  ghost function Cleared<N, E>(b: Store<N, E>, dying: set<nat>, dead: set<nat>, queued: set<ChainKey>, d: Dir): set<nat>
  {
    set x | x in dying && x < |b.edges| && b.edges[x].node.At(d) !in dead && (b.edges[x].node.At(d), d) !in queued
  }

  ghost function SweptView<N, E>(b: Store<N, E>, w: View, dying: set<nat>, dead: set<nat>,
                                 queued: set<ChainKey>): (r: View)
    ensures r == w.(lk := r.lk)
    ensures forall d: Dir {:trigger r.lk.At(d)} :: r.lk.At(d) == w.lk.At(d) - Cleared(b, dying, dead, queued, d)
  {
    w.(lk := Pair(w.lk.out - Cleared(b, dying, dead, queued, Outgoing),
                  w.lk.inn - Cleared(b, dying, dead, queued, Incoming)))
  }

  /** `m` counts, for every `d` chain of a surviving node, the members of `xs` ending there. */
  ghost predicate CountsFor<N, E>(s: Store<N, E>, xs: set<nat>, dead: set<nat>, m: map<ChainKey, nat>, d: Dir) {
    && (forall v: nat {:trigger (v, d) in m} :: (v, d) in m <==> v !in dead && Ends(s, xs, d, v) != {})
    && (forall v: nat {:trigger m[(v, d)]} :: (v, d) in m ==> m[(v, d)] == |Ends(s, xs, d, v)|)
  }

  ghost predicate Counts<N, E>(s: Store<N, E>, xs: set<nat>, dead: set<nat>, m: map<ChainKey, nat>) {
    forall d: Dir :: CountsFor(s, xs, dead, m, d)
  }

  lemma SweptStart<N, E>(b: Store<N, E>, w: View, dying: set<nat>, dead: set<nat>, m: map<ChainKey, nat>)
    requires Counts(b, dying, dead, m)
    ensures SweptView(b, w, dying, dead, m.Keys) == w
  {
    forall d: Dir ensures Cleared(b, dying, dead, m.Keys, d) == {} {
      assert CountsFor(b, dying, dead, m, d);
      assert forall x | x in dying && x < |b.edges| :: x in Ends(b, dying, d, b.edges[x].node.At(d));
    }
    var r := SweptView(b, w, dying, dead, m.Keys);
    assert r.lk.At(Outgoing) == w.lk.At(Outgoing) && r.lk.At(Incoming) == w.lk.At(Incoming);
  }

  /** The dying edges on a chain not yet swept are exactly those ending at its node. */
  lemma SweptChain<N, E>(b: Store<N, E>, ch: Chains, w: View, dying: set<nat>, dead: set<nat>,
                         queued: set<ChainKey>, v: nat, d: Dir)
    requires WellFormed(b, ch) && v < |b.nodes| && v !in dead && (v, d) in queued
    requires forall x :: x in dying ==> x < |b.edges|
    requires forall d: Dir :: w.lk.At(d) == Below(|b.edges|)
    ensures dying * Elems(Chain(ch, SweptView(b, w, dying, dead, queued), d, v)) == Ends(b, dying, d, v)
  {
    var r := SweptView(b, w, dying, dead, queued);
    ChainMembers(b, ch, r, d, v);
    assert r.lk.At(d) == w.lk.At(d) - Cleared(b, dying, dead, queued, d);
    forall x | x in Ends(b, dying, d, v) ensures x in Chain(ch, r, d, v) {
      assert x !in Cleared(b, dying, dead, queued, d);
    }
  }

  lemma SweptNext<N, E>(b: Store<N, E>, w: View, dying: set<nat>, dead: set<nat>, queued: set<ChainKey>, v: nat, d: Dir)
    requires v !in dead && (v, d) in queued
    ensures Without2(SweptView(b, w, dying, dead, queued), d, Ends(b, dying, d, v))
         == SweptView(b, w, dying, dead, queued - {(v, d)})
  {
    var q := queued - {(v, d)};
    assert Cleared(b, dying, dead, q, d) == Cleared(b, dying, dead, queued, d) + Ends(b, dying, d, v);
    assert Cleared(b, dying, dead, q, d.Other()) == Cleared(b, dying, dead, queued, d.Other());
    var x, y :=
      Without2(SweptView(b, w, dying, dead, queued), d, Ends(b, dying, d, v)), SweptView(b, w, dying, dead, q);
    assert x.lk.At(d) == y.lk.At(d) && x.lk.At(d.Other()) == y.lk.At(d.Other());
  }

  /** Once every chain has been swept, no dying edge is linked to a surviving node. */
  lemma SweptDone<N, E>(b: Store<N, E>, ch: Chains, w: View, s: Store<N, E>, dying: set<nat>, dead: set<nat>)
    returns (r: View)
    requires Tracks(b, ch, SweptView(b, w, dying, dead, {}), s)
    requires forall v :: v in w.lv ==> v !in dead
    requires forall d: Dir :: w.lk.At(d) == Below(|b.edges|)
    ensures r == w.(lk := r.lk) && Tracks(b, ch, r, s)
    ensures forall d: Dir :: r.lk.At(d) == Below(|b.edges|) - dying
  {
    var t := SweptView(b, w, dying, dead, {});
    var lk := Pair(Below(|b.edges|) - dying, Below(|b.edges|) - dying);
    r := WithLinked(t, lk, t.lv);
    forall d: Dir ensures lk.At(d) == Below(|b.edges|) - dying {
    }
    forall d: Dir ensures lk.At(d) <= t.lk.At(d) {
      assert t.lk.At(d) == w.lk.At(d) - Cleared(b, dying, dead, {}, d);
    }
    forall d: Dir, x: nat | x in t.lk.At(d) && x < |b.edges| && b.edges[x].node.At(d) in t.lv ensures x in lk.At(d) {
      assert t.lk.At(d) == w.lk.At(d) - Cleared(b, dying, dead, {}, d);
    }
    ForgetStep(b, ch, t, s, lk, t.lv);
  }

  // ----- phase 4 as a whole -----

  ghost function PatchedFor<N, E>(b: Store<N, E>, w: View, d: Dir, queued: set<ChainKey>): map<nat, nat> {
    map x | x in w.pl.At(d) ::
      if x in w.el && x < |b.edges| && (b.edges[x].node.At(d), d) !in queued then w.el[x] else w.pl.At(d)[x]
  }

  ghost function RelinkedView<N, E>(b: Store<N, E>, w: View, queued: set<ChainKey>): (r: View)
    ensures r == w.(pl := r.pl)
    ensures forall d: Dir {:trigger r.pl.At(d)} :: r.pl.At(d) == PatchedFor(b, w, d, queued)
  {
    w.(pl := Pair(PatchedFor(b, w, Outgoing, queued), PatchedFor(b, w, Incoming, queued)))
  }

  /** Edge `x` stores the endpoint it had at the start, a node of `live`. */
  ghost predicate AtHome<N, E>(b: Store<N, E>, w: View, live: set<nat>, d: Dir, x: nat) {
    && x < |b.edges| && b.edges[x].node.At(d) in live
    && x in w.tg.At(d) && w.tg.At(d)[x] == b.edges[x].node.At(d)
  }

  /** The state between physical edge removal and pointer repair: everything left is linked,
      and every pointer holds the slot its edge had at the start. */
  ghost predicate Displaced<N, E>(b: Store<N, E>, w: View) {
    && Inverse(w.eo, w.el)
    && (forall d: Dir :: w.lk.At(d) == w.el.Keys)
    && (forall d: Dir, x: nat {:trigger x in w.pl.At(d)} :: x in w.el ==> x in w.pl.At(d) && w.pl.At(d)[x] == x)
    && (forall d: Dir, x: nat {:trigger AtHome(b, w, w.lv, d, x)} :: x in w.el ==> AtHome(b, w, w.lv, d, x))
    && w.lv <= w.nl.Keys && (forall v :: v in w.nl ==> w.nl[v] == v)
  }

  lemma RelinkedStart<N, E>(b: Store<N, E>, w: View, queued: set<ChainKey>)
    requires Displaced(b, w)
    requires forall x: nat, d: Dir :: x in w.el && x < |b.edges| && w.el[x] != x ==>
               (b.edges[x].node.At(d), d) in queued
    ensures RelinkedView(b, w, queued) == w
  {
    forall d: Dir ensures PatchedFor(b, w, d, queued) == w.pl.At(d) {
      forall x | x in w.pl.At(d) ensures PatchedFor(b, w, d, queued)[x] == w.pl.At(d)[x] {
      }
    }
    var r := RelinkedView(b, w, queued);
    assert r.pl.out == w.pl.At(Outgoing) && r.pl.inn == w.pl.At(Incoming);
  }

  lemma RelinkedChain<N, E>(b: Store<N, E>, ch: Chains, w: View, queued: set<ChainKey>, v: nat, d: Dir)
    requires WellFormed(b, ch) && Displaced(b, w) && v < |b.nodes| && (v, d) in queued
    ensures Chain(ch, RelinkedView(b, w, queued), d, v) == Chain(ch, w, d, v)
    ensures AllStale(RelinkedView(b, w, queued), d, Chain(ch, w, d, v))
    ensures PatchedView(RelinkedView(b, w, queued), d, Chain(ch, w, d, v)) == RelinkedView(b, w, queued - {(v, d)})
  {
    var c := Chain(ch, w, d, v);
    var r := RelinkedView(b, w, queued);
    ChainMembers(b, ch, w, d, v);
    assert w.lk.At(d) == w.el.Keys;
    forall x | x in w.el ensures x < |b.edges| && (x in c <==> b.edges[x].node.At(d) == v) {
      assert AtHome(b, w, w.lv, d, x);
    }
    var p, z := PatchedView(r, d, c), RelinkedView(b, w, queued - {(v, d)});
    PatchedNext(b, w, queued, v, d, c);
    assert p.pl.At(d) == z.pl.At(d);
    assert p.pl.At(d.Other()) == z.pl.At(d.Other());
  }

  /** Taking a chain off the queue is patching its pointers. */
  lemma PatchedNext<N, E>(b: Store<N, E>, w: View, queued: set<ChainKey>, v: nat, d: Dir, c: seq<nat>)
    requires (v, d) in queued && forall x :: x in w.el ==> x < |b.edges|
    requires forall x :: x in w.el ==> (x in c <==> b.edges[x].node.At(d) == v)
    ensures Patched(PatchedFor(b, w, d, queued), w.el, c) == PatchedFor(b, w, d, queued - {(v, d)})
    ensures PatchedFor(b, w, d.Other(), queued) == PatchedFor(b, w, d.Other(), queued - {(v, d)})
  {
  }

  lemma RelinkedDone<N, E>(b: Store<N, E>, w: View)
    requires Displaced(b, w)
    ensures PointersCurrent(RelinkedView(b, w, {}))
  {
    var r := RelinkedView(b, w, {});
    forall d: Dir, x: nat | x in r.lk.At(d) ensures x in r.pl.At(d) && x in r.el && r.pl.At(d)[x] == r.el[x] {
      assert r.pl.At(d) == PatchedFor(b, w, d, {});
      assert x in w.pl.At(d) && AtHome(b, w, w.lv, d, x);
    }
  }

  /** The number of moved edges ending at `v` is the number of stale pointers in its chain. */
  lemma StaleCount<N, E>(b: Store<N, E>, ch: Chains, w: View, s: Store<N, E>, moved: map<nat, nat>, d: Dir, v: nat)
    requires Tracks(b, ch, w, s) && Displaced(b, w) && MovedMap(w, moved) && v < |b.nodes|
    ensures |Ends(s, moved.Values, d, v)| == |moved.Keys * Elems(Chain(ch, w, d, v))|
  {
    var c := Chain(ch, w, d, v);
    ChainMembers(b, ch, w, d, v);
    var xs := moved.Keys * Elems(c);
    forall e | e in Ends(s, moved.Values, d, v) ensures e in (set x | x in xs :: w.el[x]) {
      var x :| x in moved && moved[x] == e;
      assert EdgeHeld(b, w, s, x);
      assert AtHome(b, w, w.lv, d, x);
      assert x in c;
    }
    forall x | x in xs ensures w.el[x] in Ends(s, moved.Values, d, v) {
      assert EdgeHeld(b, w, s, x);
      assert AtHome(b, w, w.lv, d, x);
      assert moved[x] in moved.Values;
    }
    assert Ends(s, moved.Values, d, v) == set x | x in xs :: w.el[x];
    ImageCard(xs, w.el);
  }

  // ----- phase 6 as a whole -----

  ghost function RetaggedFor<N, E>(b: Store<N, E>, w: View, d: Dir, queued: set<nat>): map<nat, nat> {
    map x | x in w.tg.At(d) ::
      if x in w.el && x < |b.edges| && b.edges[x].node.At(d) in w.nl && b.edges[x].node.At(d) !in queued
      then w.nl[b.edges[x].node.At(d)] else w.tg.At(d)[x]
  }

  ghost function RehousedView<N, E>(b: Store<N, E>, w: View, queued: set<nat>): (r: View)
    ensures r == w.(tg := r.tg)
    ensures forall d: Dir {:trigger r.tg.At(d)} :: r.tg.At(d) == RetaggedFor(b, w, d, queued)
  {
    w.(tg := Pair(RetaggedFor(b, w, Outgoing, queued), RetaggedFor(b, w, Incoming, queued)))
  }

  /** The state between physical node removal and endpoint repair. */
  ghost predicate Homeless<N, E>(b: Store<N, E>, w: View) {
    && Inverse(w.no, w.nl) && PointersCurrent(w)
    && (forall d: Dir :: w.lk.At(d) == w.el.Keys)
    && (forall d: Dir, x: nat {:trigger AtHome(b, w, w.nl.Keys, d, x)} :: x in w.el ==> AtHome(b, w, w.nl.Keys, d, x))
    && w.lv == w.nl.Keys
  }

  lemma RehousedStart<N, E>(b: Store<N, E>, w: View, queued: set<nat>)
    requires Homeless(b, w)
    requires forall v :: v in w.nl && w.nl[v] != v ==> v in queued
    ensures RehousedView(b, w, queued) == w
  {
    forall d: Dir ensures RetaggedFor(b, w, d, queued) == w.tg.At(d) {
      forall x | x in w.tg.At(d) ensures RetaggedFor(b, w, d, queued)[x] == w.tg.At(d)[x] {
        if x in w.el {
          assert AtHome(b, w, w.nl.Keys, d, x);
        }
      }
    }
    var r := RehousedView(b, w, queued);
    assert r.tg.out == w.tg.At(Outgoing) && r.tg.inn == w.tg.At(Incoming);
  }

  lemma RehousedNext<N, E>(b: Store<N, E>, ch: Chains, w: View, queued: set<nat>, u: nat)
    requires WellFormed(b, ch) && Homeless(b, w) && u in w.nl && u < |b.nodes| && u in queued
    ensures var r := RehousedView(b, w, queued);
            var r1 := Rehomed(r, Outgoing, Chain(ch, r, Outgoing, u), w.nl[u]);
            Rehomed(r1, Incoming, Chain(ch, r1, Incoming, u), w.nl[u]) == RehousedView(b, w, queued - {u})
  {
    var r := RehousedView(b, w, queued);
    var r1 := Rehomed(r, Outgoing, Chain(ch, r, Outgoing, u), w.nl[u]);
    var r2 := Rehomed(r1, Incoming, Chain(ch, r1, Incoming, u), w.nl[u]);
    var z := RehousedView(b, w, queued - {u});
    ChainMembers(b, ch, w, Outgoing, u);
    ChainMembers(b, ch, w, Incoming, u);
    assert Chain(ch, r, Outgoing, u) == Chain(ch, w, Outgoing, u);
    assert Chain(ch, r1, Incoming, u) == Chain(ch, w, Incoming, u);
    assert r2.tg.At(Outgoing) == z.tg.At(Outgoing);
    assert r2.tg.At(Incoming) == z.tg.At(Incoming);
  }

  lemma RehousedDone<N, E>(b: Store<N, E>, w: View)
    requires Homeless(b, w)
    ensures Finished(b, RehousedView(b, w, {}))
  {
    var r := RehousedView(b, w, {});
    forall d: Dir, x: nat | x in r.el ensures EndCurrent(b, r, d, x) {
      assert r.tg.At(d) == RetaggedFor(b, w, d, {});
      assert AtHome(b, w, w.nl.Keys, d, x);
    }
  }

  // ----- counting, collecting and removing -----

  function Bump(m: map<ChainKey, nat>, k: ChainKey): map<ChainKey, nat> {
    m[k := if k in m then m[k] + 1 else 1]
  }

  function Counted(m: map<ChainKey, nat>, dead: set<nat>, v: nat, d: Dir): map<ChainKey, nat> {
    if v in dead then m else Bump(m, (v, d))
  }

  lemma CountStepFor<N, E>(s: Store<N, E>, xs: set<nat>, dead: set<nat>, m: map<ChainKey, nat>, x: nat, d: Dir)
    requires CountsFor(s, xs, dead, m, d) && x !in xs && x < |s.edges|
    ensures CountsFor(s, xs + {x}, dead, Counted(m, dead, s.edges[x].node.At(d), d), d)
  {
    var u := s.edges[x].node.At(d);
    var m' := Counted(m, dead, u, d);
    forall v: nat
      ensures (v, d) in m' <==> v !in dead && Ends(s, xs + {x}, d, v) != {}
      ensures (v, d) in m' ==> m'[(v, d)] == |Ends(s, xs + {x}, d, v)|
    {
      if v == u {
        assert Ends(s, xs + {x}, d, v) == Ends(s, xs, d, v) + {x};
        assert x in Ends(s, xs + {x}, d, v);
        assert x !in Ends(s, xs, d, v);
      } else {
        assert Ends(s, xs + {x}, d, v) == Ends(s, xs, d, v);
      }
      assert (v, d) in m <==> v !in dead && Ends(s, xs, d, v) != {};
    }
  }

  lemma CountOther<N, E>(s: Store<N, E>, xs: set<nat>, dead: set<nat>, m: map<ChainKey, nat>, v: nat, d: Dir)
    requires CountsFor(s, xs, dead, m, d.Other())
    ensures CountsFor(s, xs, dead, Counted(m, dead, v, d), d.Other())
  {
    var m' := Counted(m, dead, v, d);
    forall u: nat
      ensures (u, d.Other()) in m' <==> u !in dead && Ends(s, xs, d.Other(), u) != {}
      ensures (u, d.Other()) in m' ==> m'[(u, d.Other())] == |Ends(s, xs, d.Other(), u)|
    {
      assert (u, d.Other()) in m' <==> (u, d.Other()) in m;
    }
  }

  lemma CountStep<N, E>(s: Store<N, E>, xs: set<nat>, dead: set<nat>, m: map<ChainKey, nat>, x: nat)
    requires Counts(s, xs, dead, m) && x !in xs && x < |s.edges|
    ensures Counts(s, xs + {x}, dead,
                   Counted(Counted(m, dead, s.edges[x].node.At(Outgoing), Outgoing), dead, s.edges[x].node.At(Incoming),
                           Incoming))
  {
    var m1 := Counted(m, dead, s.edges[x].node.At(Outgoing), Outgoing);
    CountStepFor(s, xs, dead, m, x, Outgoing);
    CountOther(s, xs, dead, m, s.edges[x].node.At(Outgoing), Outgoing);
    CountStepFor(s, xs, dead, m1, x, Incoming);
    CountOther(s, xs + {x}, dead, m1, s.edges[x].node.At(Incoming), Incoming);
    var m2 := Counted(m1, dead, s.edges[x].node.At(Incoming), Incoming);
    forall d: Dir ensures CountsFor(s, xs + {x}, dead, m2, d) {
      assert d == Outgoing || d == Incoming;
    }
  }

  /** The pending removals: distinct slots in descending order, all still where they were. */
  ghost predicate Pending(o: seq<nat>, q: seq<nat>) {
    && (forall i :: 0 <= i < |q| ==> q[i] < |o| && o[q[i]] == q[i])
    && forall i, j {:trigger Above(q, i, j)} :: 0 <= i < j < |q| ==> Above(q, i, j)
  }

  ghost predicate Above(q: seq<nat>, i: nat, j: nat) {
    i < |q| && j < |q| && q[i] > q[j]
  }

  lemma PendingNext(o: seq<nat>, q: seq<nat>)
    requires Pending(o, q) && |q| > 0
    ensures Pending(SwapRemove(o, q[0]), q[1..])
  {
    var o', q' := SwapRemove(o, q[0]), q[1..];
    forall i | 0 <= i < |q'| ensures q'[i] < |o'| && o'[q'[i]] == q'[i] {
      assert Above(q, 0, i + 1) && q'[i] == q[i + 1];
    }
    forall i, j | 0 <= i < j < |q'| ensures Above(q', i, j) {
      assert Above(q, i + 1, j + 1);
    }
  }

  /** What the queue has taken so far. */
  ghost predicate Taken(l: map<nat, nat>, n: nat, q: seq<nat>, k: nat) {
    && k <= |q|
    && forall x: nat {:trigger x in l} :: x in l <==> x < n && x !in q[..k]
  }

  lemma TakenNext(o: seq<nat>, l: map<nat, nat>, n: nat, q: seq<nat>, k: nat)
    requires Inverse(o, l) && Taken(l, n, q, k) && k < |q| && q[k] < |o| && o[q[k]] == q[k]
    ensures Taken(Gone(o, l, q[k]), n, q, k + 1)
  {
    GoneInverse(o, l, q[k]);
    assert q[..k + 1] == q[..k] + [q[k]];
  }

  /** A result buffer holds the payload of every requested entry already taken. */
  ghost predicate Filled<T>(buf: seq<Option<T>>, wanted: seq<nat>, payload: seq<T>, l: map<nat, nat>) {
    && |buf| == |wanted|
    && forall k :: 0 <= k < |wanted| && wanted[k] !in l ==> wanted[k] < |payload| && buf[k] == Some(payload[wanted[k]])
  }

  ghost function NodePayloads<N, E>(s: Store<N, E>): (r: seq<N>)
    ensures |r| == |s.nodes|
    ensures forall v :: 0 <= v < |r| ==> r[v] == s.nodes[v].value
  {
    seq(|s.nodes|, v requires 0 <= v < |s.nodes| => s.nodes[v].value)
  }

  ghost function EdgePayloads<N, E>(s: Store<N, E>): (r: seq<E>)
    ensures |r| == |s.edges|
    ensures forall e :: 0 <= e < |r| ==> r[e] == s.edges[e].value
  {
    seq(|s.edges|, e requires 0 <= e < |s.edges| => s.edges[e].value)
  }

  /** The outcome promised by batch removal: exactly the requested nodes, the requested edges
      and the edges touching a removed node are gone. */
  ghost predicate BatchRemoved<N, E>(b: Store<N, E>, ch: Chains, s: Store<N, E>, ch': Chains, ns: seq<nat>,
                                     es: seq<nat>, nm: map<nat, nat>, em: map<nat, nat>)
  {
    && Survives(b, ch, s, ch', nm, em)
    && (forall v: nat :: v in nm <==> v < |b.nodes| && v !in ns)
    && (forall x: nat :: x in em <==> x < |b.edges| && !Dying(b, ns, es, x))
  }

  ghost predicate BatchView<N, E>(b: Store<N, E>, ch: Chains, w: View, s: Store<N, E>, ns: seq<nat>, es: seq<nat>) {
    && Tracks(b, ch, w, s) && Finished(b, w)
    && (forall v: nat {:trigger v in w.nl} :: v in w.nl <==> v < |b.nodes| && v !in ns)
    && (forall x: nat {:trigger x in w.el} :: x in w.el <==> x < |b.edges| && !Dying(b, ns, es, x))
  }

  lemma BatchDone<N, E>(b: Store<N, E>, ch: Chains, w: View, s: Store<N, E>, ns: seq<nat>, es: seq<nat>)
    returns (ch': Chains, nm: map<nat, nat>, em: map<nat, nat>)
    requires BatchView(b, ch, w, s, ns, es)
    ensures WellFormed(s, ch') && BatchRemoved(b, ch, s, ch', ns, es, nm, em) && nm == w.nl
  {
    nm, em := w.nl, w.el;
    ch' := FinishAs(b, ch, w, s, nm, em);
  }

  lemma KeyOfCount<N, E>(b: Store<N, E>, ch: Chains, xs: set<nat>, dead: set<nat>, m: map<ChainKey, nat>, v: nat,
                         d: Dir)
    requires WellFormed(b, ch) && Counts(b, xs, dead, m) && (v, d) in m
    ensures v !in dead && v < |b.nodes| && m[(v, d)] == |Ends(b, xs, d, v)|
  {
    assert CountsFor(b, xs, dead, m, d);
    var x :| x in Ends(b, xs, d, v);
    assert Placed(b, ch, d, x);
  }

  lemma DyingNext<N, E>(b: Store<N, E>, ch: Chains, ns: seq<nat>, es: seq<nat>, k: nat, before: seq<nat>, all: seq<nat>)
    requires WellFormed(b, ch) && k < |ns| && ns[k] < |b.nodes|
    requires forall x: nat :: x in before <==> Dying(b, ns[..k], es, x)
    requires forall x: nat :: x in all <==> x in before || x in ch.At(Outgoing)[ns[k]] || x in ch.At(Incoming)[ns[k]]
    ensures forall x: nat :: x in all <==> Dying(b, ns[..k + 1], es, x)
  {
    var v := ns[k];
    assert ns[..k + 1] == ns[..k] + [v];
    assert Threaded(b, Outgoing, v, ch.At(Outgoing)[v]) && Threaded(b, Incoming, v, ch.At(Incoming)[v]);
    forall x: nat ensures x in all <==> Dying(b, ns[..k + 1], es, x) {
      if x < |b.edges| {
        assert Placed(b, ch, Outgoing, x) && Placed(b, ch, Incoming, x);
        assert b.edges[x].node.At(Outgoing) == v ==> x in ch.At(Outgoing)[v];
        assert b.edges[x].node.At(Incoming) == v ==> x in ch.At(Incoming)[v];
      }
    }
  }

  // ----- phases 3 and 5: descending removal with composed relocation records -----

  ghost predicate EdgeLoop<N, E>(b: Store<N, E>, ch: Chains, w: View, s: Store<N, E>, q: seq<nat>, k: nat,
                                 r: View, moves: map<nat, nat>, origin: map<nat, nat>)
  {
    && Tracks(b, ch, r, s) && r == w.(eo := r.eo, el := r.el)
    && Taken(r.el, |b.edges|, q, k) && Pending(r.eo, q[k..])
    && Recorded(r.eo, r.el, moves, origin)
  }

  lemma EdgeLoopStep<N, E>(b: Store<N, E>, ch: Chains, w: View, s: Store<N, E>, q: seq<nat>, k: nat,
                           r: View, moves: map<nat, nat>, origin: map<nat, nat>) returns (r': View)
    requires EdgeLoop(b, ch, w, s, q, k, r, moves, origin) && k < |q|
    requires forall d: Dir :: q[k] !in w.lk.At(d)
    ensures q[k] < |s.edges| && q[k] < |b.edges| && s.edges[q[k]].value == b.edges[q[k]].value
    ensures EdgeLoop(b, ch, w, Store(s.nodes, SwapRemove(s.edges, q[k])), q, k + 1, r',
                     NextMoves(moves, origin, |s.edges|, q[k]), NextOrigin(origin, |s.edges|, q[k]))
    ensures r'.el.Keys == r.el.Keys - {q[k]}
  {
    var e := q[k];
    assert q[k..][0] == e;
    assert EdgeHeld(b, r, s, e) by { assert e in r.el; }
    EdgeGoneStep(b, ch, r, s, e);
    RecordStep(r.eo, r.el, moves, origin, e);
    TakenNext(r.eo, r.el, |b.edges|, q, k);
    PendingNext(r.eo, q[k..]);
    assert q[k..][1..] == q[k + 1..];
    GoneInverse(r.eo, r.el, e);
    r' := EdgeGone(r, e);
  }

  ghost predicate NodeLoop<N, E>(b: Store<N, E>, ch: Chains, w: View, s: Store<N, E>, q: seq<nat>, k: nat,
                                 r: View, moves: map<nat, nat>, origin: map<nat, nat>)
  {
    && Tracks(b, ch, r, s) && r == w.(no := r.no, nl := r.nl)
    && Taken(r.nl, |b.nodes|, q, k) && Pending(r.no, q[k..])
    && Recorded(r.no, r.nl, moves, origin)
  }

  lemma NodeLoopStep<N, E>(b: Store<N, E>, ch: Chains, w: View, s: Store<N, E>, q: seq<nat>, k: nat,
                           r: View, moves: map<nat, nat>, origin: map<nat, nat>) returns (r': View)
    requires NodeLoop(b, ch, w, s, q, k, r, moves, origin) && k < |q|
    requires q[k] !in w.lv
    ensures q[k] < |s.nodes| && q[k] < |b.nodes| && s.nodes[q[k]].value == b.nodes[q[k]].value
    ensures NodeLoop(b, ch, w, Store(SwapRemove(s.nodes, q[k]), s.edges), q, k + 1, r',
                     NextMoves(moves, origin, |s.nodes|, q[k]), NextOrigin(origin, |s.nodes|, q[k]))
    ensures r'.nl.Keys == r.nl.Keys - {q[k]}
  {
    var i := q[k];
    assert q[k..][0] == i;
    assert NodeHeld(b, r, s, i) by { assert i in r.nl; }
    NodeGoneStep(b, ch, r, s, i);
    RecordStep(r.no, r.nl, moves, origin, i);
    TakenNext(r.no, r.nl, |b.nodes|, q, k);
    PendingNext(r.no, q[k..]);
    assert q[k..][1..] == q[k + 1..];
    GoneInverse(r.no, r.nl, i);
    r' := NodeGone(r, i);
  }

  /** Storing the payload of the entry just taken at its requester's position. */
  lemma FilledNext<T>(buf: seq<Option<T>>, wanted: seq<nat>, payload: seq<T>, l: map<nat, nat>, l': map<nat, nat>,
                      x: nat, buf': seq<Option<T>>)
    requires Filled(buf, wanted, payload, l) && NoDup(wanted)
    requires x < |payload| && l'.Keys == l.Keys - {x}
    requires |buf'| == |buf|
    requires forall k :: 0 <= k < |buf| ==> buf'[k] == if wanted[k] == x then Some(payload[x]) else buf[k]
    ensures Filled(buf', wanted, payload, l')
  {
  }

  function Enumerated(s: seq<nat>): (r: seq<(nat, nat)>)
    ensures |r| == |s|
    ensures forall k :: 0 <= k < |s| ==> r[k] == (k, s[k])
  {
    seq(|s|, k requires 0 <= k < |s| => (k, s[k]))
  }

  function Second(p: (nat, nat)): nat {
    p.1
  }

  function SortedPairs(s: seq<nat>): seq<(nat, nat)> {
    SortDescending(Enumerated(s), Second)
  }

  ghost function Seconds(p: seq<(nat, nat)>): (r: seq<nat>)
    ensures |r| == |p|
    ensures forall k :: 0 <= k < |p| ==> r[k] == p[k].1
  {
    seq(|p|, k requires 0 <= k < |p| => p[k].1)
  }

  /** The sorted requests: strictly descending slots, each with its requester's position. */
  lemma SortedRequests(s: seq<nat>)
    requires NoDup(s)
    ensures var p := SortedPairs(s);
            && |p| == |s|
            && (forall k :: 0 <= k < |p| ==> p[k].0 < |s| && s[p[k].0] == p[k].1)
            && (forall i, j :: 0 <= i < j < |p| ==> Seconds(p)[i] > Seconds(p)[j])
            && forall x :: x in s <==> x in Seconds(p)
  {
    var e, p := Enumerated(s), SortedPairs(s);
    SortStrict(e, Second);
    assert p == SortDescending(e, Second);
    forall i, j | 0 <= i < j < |p| ensures Seconds(p)[i] > Seconds(p)[j] {
      assert Second(p[i]) > Second(p[j]);
    }
    forall k | 0 <= k < |p| ensures p[k].0 < |s| && s[p[k].0] == p[k].1 {
      assert p[k] in e;
    }
    forall x ensures x in s <==> x in Seconds(p) {
      if x in s {
        var k :| 0 <= k < |s| && s[k] == x;
        assert e[k] in p;
        var j :| 0 <= j < |p| && p[j] == e[k];
        assert Seconds(p)[j] == x;
      }
      if x in Seconds(p) {
        var j :| 0 <= j < |p| && Seconds(p)[j] == x;
        assert p[j] in e;
      }
    }
  }

  /** Requests within an untouched vector are pending. */
  lemma PendingAtStart(n: nat, s: seq<nat>)
    requires NoDup(s) && forall k :: 0 <= k < |s| ==> s[k] < n
    ensures Pending(Upto(n), Seconds(SortedPairs(s)))
    ensures Taken(Identity(n), n, Seconds(SortedPairs(s)), 0)
  {
    SortedRequests(s);
    var q := Seconds(SortedPairs(s));
    forall i | 0 <= i < |q| ensures q[i] < n {
      assert q[i] in q;
      assert q[i] in s;
    }
    PendingFresh(n, q);
  }

  function Unwrapped<T>(buf: seq<Option<T>>): (r: seq<T>)
    requires forall k :: 0 <= k < |buf| ==> buf[k].Some?
    ensures |r| == |buf|
    ensures forall k :: 0 <= k < |buf| ==> r[k] == buf[k].value
  {
    seq(|buf|, k requires 0 <= k < |buf| => buf[k].value)
  }

  lemma SortedIndices(n: nat, s: seq<nat>, q: seq<nat>)
    requires NoDup(s) && forall k :: 0 <= k < |s| ==> s[k] < n
    requires q == SortDescending(s, Itself)
    ensures Pending(Upto(n), q) && Taken(Identity(n), n, q, 0)
    ensures forall x :: x in q <==> x in s
  {
    StrictIndices(s, q);
    forall i | 0 <= i < |q| ensures q[i] < n {
      assert q[i] in s;
    }
    PendingFresh(n, q);
  }

  lemma PendingFresh(n: nat, q: seq<nat>)
    requires forall i, j :: 0 <= i < j < |q| ==> q[i] > q[j]
    requires forall i :: 0 <= i < |q| ==> q[i] < n
    ensures Pending(Upto(n), q) && Taken(Identity(n), n, q, 0)
  {
  }

  ghost predicate StaleKey<N, E>(b: Store<N, E>, ch: Chains, w: View, moved: map<nat, nat>, m: map<ChainKey, nat>,
                                 v: nat, d: Dir)
  {
    && (v, d) in m && v < |b.nodes| && v in w.lv && v in w.nl && w.nl[v] == v
    && m[(v, d)] == |moved.Keys * Elems(Chain(ch, w, d, v))|
  }

  /** The chains to patch, and how many stale pointers each holds. */
  lemma StaleKeys<N, E>(b: Store<N, E>, ch: Chains, w: View, s: Store<N, E>, moved: map<nat, nat>,
                        m: map<ChainKey, nat>)
    requires Tracks(b, ch, w, s) && Displaced(b, w) && MovedMap(w, moved)
    requires Counts(s, moved.Values, {}, m)
    ensures forall v: nat, d: Dir {:trigger StaleKey(b, ch, w, moved, m, v, d)} :: (v, d) in m ==>
              StaleKey(b, ch, w, moved, m, v, d)
    ensures RelinkedView(b, w, m.Keys) == w
  {
    forall v: nat, d: Dir | (v, d) in m ensures StaleKey(b, ch, w, moved, m, v, d) {
      assert CountsFor(s, moved.Values, {}, m, d);
      var e :| e in Ends(s, moved.Values, d, v);
      var x :| x in moved && moved[x] == e;
      assert EdgeHeld(b, w, s, x);
      assert AtHome(b, w, w.lv, d, x);
      StaleCount(b, ch, w, s, moved, d, v);
    }
    forall x: nat, d: Dir | x in w.el && x < |b.edges| && w.el[x] != x ensures (b.edges[x].node.At(d), d) in m {
      assert EdgeHeld(b, w, s, x);
      assert AtHome(b, w, w.lv, d, x);
      assert moved[x] in moved.Values;
      assert moved[x] in Ends(s, moved.Values, d, b.edges[x].node.At(d));
      assert CountsFor(s, moved.Values, {}, m, d);
    }
    RelinkedStart(b, w, m.Keys);
  }

  lemma FilledAll<T>(buf: seq<Option<T>>, wanted: seq<nat>, payload: seq<T>, l: map<nat, nat>)
    requires Filled(buf, wanted, payload, l)
    requires forall k :: 0 <= k < |wanted| ==> wanted[k] !in l
    ensures forall k :: 0 <= k < |wanted| ==> wanted[k] < |payload| && buf[k] == Some(payload[wanted[k]])
  {
  }

  // ----- the scalar fast paths -----

  ghost predicate EdgeFast<N, E>(b: Store<N, E>, ch: Chains, w: View, s: Store<N, E>, q: seq<nat>, k: nat, r: View) {
    && Tracks(b, ch, r, s) && Finished(b, r) && r.nl == w.nl && r.no == w.no
    && Taken(r.el, |b.edges|, q, k) && Pending(r.eo, q[k..])
  }

  /** The `k`th request in descending order, and whose it is. */
  lemma RequestAt(s: seq<nat>, k: nat)
    requires NoDup(s) && k < |SortedPairs(s)|
    ensures var p := SortedPairs(s)[k];
            p.0 < |s| && s[p.0] == p.1 && Seconds(SortedPairs(s))[k] == p.1
  {
    SortedRequests(s);
  }

  lemma AllRequested(l: map<nat, nat>, n: nat, s: seq<nat>, k: nat)
    requires NoDup(s) && Taken(l, n, Seconds(SortedPairs(s)), k) && k == |SortedPairs(s)|
    ensures forall x: nat {:trigger x in l} :: x in l <==> x < n && x !in s
  {
    SortedRequests(s);
    var q := Seconds(SortedPairs(s));
    assert q[..k] == q;
  }

  lemma RequestsFilled<T>(buf: seq<Option<T>>, s: seq<nat>, payload: seq<T>, l: map<nat, nat>, n: nat, k: nat)
    requires NoDup(s) && Taken(l, n, Seconds(SortedPairs(s)), k) && k == |SortedPairs(s)|
    requires Filled(buf, s, payload, l)
    ensures forall k :: 0 <= k < |s| ==> s[k] < |payload| && buf[k] == Some(payload[s[k]])
  {
    AllRequested(l, n, s, k);
  }

  lemma EdgeFastDone<N, E>(b: Store<N, E>, ch: Chains, w: View, s: Store<N, E>, es: seq<nat>, k: nat, r: View)
    requires EdgeFast(b, ch, w, s, Seconds(SortedPairs(es)), k, r)
    requires NoDup(es) && k == |SortedPairs(es)| && w.nl == Identity(|b.nodes|)
    ensures BatchView(b, ch, r, s, [], es)
  {
    AllRequested(r.el, |b.edges|, es, k);
    forall x: nat ensures Dying(b, [], es, x) <==> x < |b.edges| && x in es {
    }
  }

  lemma EdgeFastRead<N, E>(b: Store<N, E>, ch: Chains, w: View, s: Store<N, E>, q: seq<nat>, k: nat, r: View)
    requires EdgeFast(b, ch, w, s, q, k, r) && k < |q|
    ensures q[k] < |s.edges| && q[k] < |b.edges| && s.edges[q[k]].value == b.edges[q[k]].value
  {
    assert q[k..][0] == q[k];
    assert q[k] in r.el;
    assert EdgeHeld(b, r, s, q[k]);
  }

  lemma EdgeFastStep<N, E>(b: Store<N, E>, ch: Chains, w: View, s: Store<N, E>, q: seq<nat>, k: nat, r: View)
    returns (r': View)
    requires Inverse(r.eo, r.el) && Finished(b, r) && r.nl == w.nl && r.no == w.no
    requires Taken(r.el, |b.edges|, q, k) && Pending(r.eo, q[k..]) && k < |q| && q[k] < |r.eo|
    requires Tracks(b, ch, Removed(r, q[k]), s)
    ensures EdgeFast(b, ch, w, s, q, k + 1, r')
    ensures r'.el.Keys == r.el.Keys - {q[k]}
  {
    assert q[k..][0] == q[k];
    r' := AfterRemoval(b, ch, r, q[k], s);
    TakenNext(r.eo, r.el, |b.edges|, q, k);
    PendingNext(r.eo, q[k..]);
    assert q[k..][1..] == q[k + 1..];
  }

  ghost predicate NodeFast<N, E>(b: Store<N, E>, ch: Chains, s: Store<N, E>, q: seq<nat>, k: nat, r: View) {
    && Tracks(b, ch, r, s) && Finished(b, r)
    && Taken(r.nl, |b.nodes|, q, k) && Pending(r.no, q[k..])
    && forall x: nat {:trigger x in r.el} :: x in r.el <==> x < |b.edges| && !Dying(b, q[..k], [], x)
  }

  lemma NodeFastRead<N, E>(b: Store<N, E>, ch: Chains, s: Store<N, E>, q: seq<nat>, k: nat, r: View)
    requires NodeFast(b, ch, s, q, k, r) && k < |q|
    ensures q[k] < |s.nodes| && q[k] < |b.nodes| && s.nodes[q[k]].value == b.nodes[q[k]].value
  {
    assert q[k..][0] == q[k];
    assert q[k] in r.nl;
    assert NodeHeld(b, r, s, q[k]);
  }

  lemma NodeFastStep<N, E>(b: Store<N, E>, ch: Chains, s: Store<N, E>, q: seq<nat>, k: nat, r: View, r': View)
    requires Inverse(r.no, r.nl) && k < |q|
    requires Taken(r.nl, |b.nodes|, q, k) && Pending(r.no, q[k..]) && q[k] < |r.no|
    requires forall x: nat {:trigger x in r.el} :: x in r.el <==> x < |b.edges| && !Dying(b, q[..k], [], x)
    requires Tracks(b, ch, r', s) && Finished(b, r') && Evicted(b, r, r', q[k])
    ensures NodeFast(b, ch, s, q, k + 1, r')
    ensures r'.nl.Keys == r.nl.Keys - {q[k]}
  {
    assert q[k..][0] == q[k];
    TakenNext(r.no, r.nl, |b.nodes|, q, k);
    PendingNext(r.no, q[k..]);
    GoneInverse(r.no, r.nl, q[k]);
    assert q[k..][1..] == q[k + 1..];
    assert q[..k + 1] == q[..k] + [q[k]];
    forall x: nat ensures x in r'.el <==> x < |b.edges| && !Dying(b, q[..k + 1], [], x) {
      assert x < |b.edges| ==> (Dying(b, q[..k + 1], [], x) <==> Dying(b, q[..k], [], x) || Incident(b, x, q[k]));
    }
  }

  lemma NodeFastDone<N, E>(b: Store<N, E>, ch: Chains, s: Store<N, E>, ns: seq<nat>, k: nat, r: View)
    requires NodeFast(b, ch, s, Seconds(SortedPairs(ns)), k, r)
    requires NoDup(ns) && k == |SortedPairs(ns)|
    ensures BatchView(b, ch, r, s, ns, [])
  {
    AllRequested(r.nl, |b.nodes|, ns, k);
    var q := Seconds(SortedPairs(ns));
    assert q[..k] == q;
    SortedRequests(ns);
    forall x: nat ensures Dying(b, q, [], x) <==> Dying(b, ns, [], x) {
    }
  }

  // ----- gluing the phases together -----

  lemma AbandonDead<N, E>(b: Store<N, E>, ch: Chains, w: View, ns: seq<nat>, es: seq<nat>, all: seq<nat>)
    returns (w1: View)
    requires Tracks(b, ch, w, b) && Finished(b, w) && w.el == Identity(|b.edges|) && w.nl == Identity(|b.nodes|)
    requires forall x: nat :: x in all <==> Dying(b, ns, es, x)
    ensures w1 == w.(lv := w1.lv) && Tracks(b, ch, w1, b) && PointersCurrent(w1)
    ensures forall v: nat :: v in w1.lv <==> v < |b.nodes| && v !in ns
    ensures forall d: Dir :: w1.lk.At(d) == Below(|b.edges|)
    ensures forall k :: 0 <= k < |all| ==> all[k] < |b.edges|
  {
    var lv := set v | v in w.lv && v !in ns;
    ForgetStep(b, ch, w, b, w.lk, lv);
    w1 := WithLinked(w, w.lk, lv);
    assert w1.lk == w.lk && w1.pl == w.pl && w1.el == w.el;
    forall d: Dir ensures w1.lk.At(d) == Below(|b.edges|) {
      assert w.lk.At(d) == w.el.Keys;
    }
    forall k | 0 <= k < |all| ensures all[k] < |b.edges| {
      assert all[k] in all;
    }
  }

  lemma DisplacedAfterRemoval<N, E>(b: Store<N, E>, ch: Chains, w: View, w1: View, w2: View, w3: View, s: Store<N, E>,
                                    ns: seq<nat>, es: seq<nat>, all: seq<nat>)
    requires WellFormed(b, ch) && Finished(b, w) && w.el == Identity(|b.edges|) && w.nl == Identity(|b.nodes|)
    requires w1 == w.(lv := w1.lv) && w2 == w1.(lk := w2.lk) && w3 == w2.(eo := w3.eo, el := w3.el)
    requires Tracks(b, ch, w3, s)
    requires forall v: nat :: v in w1.lv <==> v < |b.nodes| && v !in ns
    requires forall d: Dir :: w2.lk.At(d) == Below(|b.edges|) - Elems(all)
    requires forall x: nat :: x in all <==> Dying(b, ns, es, x)
    requires forall x: nat :: x in w3.el <==> x < |b.edges| && x !in all
    ensures Displaced(b, w3)
  {
    assert w3.pl == w.pl && w3.tg == w.tg && w3.lk == w2.lk && w3.lv == w1.lv && w3.nl == w.nl;
    assert w3.el.Keys == Below(|b.edges|) - Elems(all);
    forall d: Dir, x: nat {:trigger x in w3.pl.At(d)} | x in w3.el ensures x in w3.pl.At(d) && w3.pl.At(d)[x] == x {
      StillAtHome(b, ch, w, d, x);
    }
    forall d: Dir, x: nat {:trigger AtHome(b, w3, w3.lv, d, x)} | x in w3.el ensures AtHome(b, w3, w3.lv, d, x) {
      StillAtHome(b, ch, w, d, x);
      assert !Dying(b, ns, es, x);
    }
  }

  lemma StillAtHome<N, E>(b: Store<N, E>, ch: Chains, w: View, d: Dir, x: nat)
    requires WellFormed(b, ch) && Finished(b, w) && w.el == Identity(|b.edges|) && w.nl == Identity(|b.nodes|)
    requires x in w.el
    ensures x in w.pl.At(d) && w.pl.At(d)[x] == x
    ensures x < |b.edges| && b.edges[x].node.At(d) < |b.nodes|
    ensures x in w.tg.At(d) && w.tg.At(d)[x] == b.edges[x].node.At(d)
  {
    assert x in w.lk.At(d);
    assert EndCurrent(b, w, d, x);
    assert Placed(b, ch, d, x);
  }

  /** The state after phase 4: pointers current, endpoints as at the start, all of them alive. */
  ghost predicate Relinked<N, E>(b: Store<N, E>, w: View, ns: seq<nat>) {
    && PointersCurrent(w)
    && (forall d: Dir :: w.lk.At(d) == w.el.Keys)
    && (forall d: Dir, x: nat {:trigger AtHome(b, w, w.lv, d, x)} :: x in w.el ==> AtHome(b, w, w.lv, d, x))
    && forall v: nat :: v in w.lv <==> v < |b.nodes| && v !in ns
  }

  ghost predicate EdgesDone<N, E>(b: Store<N, E>, w: View, r: View, ns: seq<nat>, es: seq<nat>) {
    && Relinked(b, r, ns) && r.no == w.no && r.nl == w.nl
    && forall x: nat {:trigger x in r.el} :: x in r.el <==> x < |b.edges| && !Dying(b, ns, es, x)
  }

  lemma RelinkedAfterPatch<N, E>(b: Store<N, E>, w: View, w3: View, r: View, ns: seq<nat>, es: seq<nat>, all: seq<nat>)
    requires Displaced(b, w3) && r == w3.(pl := r.pl) && PointersCurrent(r)
    requires w3.no == w.no && w3.nl == w.nl
    requires forall v: nat :: v in w3.lv <==> v < |b.nodes| && v !in ns
    requires forall x: nat :: x in all <==> Dying(b, ns, es, x)
    requires forall x: nat :: x in w3.el <==> x < |b.edges| && x !in all
    ensures EdgesDone(b, w, r, ns, es)
  {
    forall d: Dir, x: nat | x in r.el ensures AtHome(b, r, r.lv, d, x) {
      assert AtHome(b, w3, w3.lv, d, x);
    }
    forall d: Dir ensures r.lk.At(d) == r.el.Keys {
      assert w3.lk.At(d) == w3.el.Keys;
    }
  }

  lemma HomelessAfterRemoval<N, E>(b: Store<N, E>, w: View, w5: View, ns: seq<nat>)
    requires Relinked(b, w, ns)
    requires w5 == w.(no := w5.no, nl := w5.nl) && Inverse(w5.no, w5.nl)
    requires forall v: nat :: v in w5.nl <==> v < |b.nodes| && v !in ns
    ensures Homeless(b, w5)
  {
    forall d: Dir, x: nat | x in w5.el ensures AtHome(b, w5, w5.nl.Keys, d, x) {
      assert AtHome(b, w, w.lv, d, x);
    }
    forall d: Dir ensures w5.lk.At(d) == w5.el.Keys {
      assert w.lk.At(d) == w.el.Keys;
    }
  }
}
