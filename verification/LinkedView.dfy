/** Where everything of a fixed store `(b, ch)` currently sits while its removal code runs.
    Edges and nodes are named by their slots in `b`; a view records the slot each one has now,
    which edges are still linked, what value the pointer to each edge holds, and what endpoint
    each edge stores. */
module LinkedView {
  import opened Seqs
  import opened Vec
  import opened LinkedStore

  ghost predicate Inverse(o: seq<nat>, l: map<nat, nat>) {
    && (forall i :: 0 <= i < |o| ==> o[i] in l && l[o[i]] == i)
    && (forall x :: x in l ==> l[x] < |o| && o[l[x]] == x)
  }

  datatype View = View(
    eo: seq<nat>, el: map<nat, nat>,
    no: seq<nat>, nl: map<nat, nat>,
    lk: Pair<set<nat>>, pl: Pair<map<nat, nat>>, tg: Pair<map<nat, nat>>, lv: set<nat>)

  /** The edges still linked into the `d` chain of `v`, in order. */
  ghost function Chain(ch: Chains, w: View, d: Dir, v: nat): seq<nat> {
    if v < |ch.At(d)| then Filter(ch.At(d)[v], w.lk.At(d)) else []
  }

  ghost function Pointer(w: View, d: Dir, c: seq<nat>, k: nat): Slot {
    if k < |c| && c[k] in w.pl.At(d) then Some(w.pl.At(d)[c[k]]) else None
  }

  ghost predicate ChainHeld<N, E>(w: View, s: Store<N, E>, d: Dir, v: nat, c: seq<nat>)
    requires Inverse(w.eo, w.el) && |w.eo| == |s.edges|
    requires Inverse(w.no, w.nl) && |w.no| == |s.nodes|
    requires v in w.nl
  {
    && (forall x :: x in c ==> x in w.el && x in w.pl.At(d))
    && s.nodes[w.nl[v]].next.At(d) == Pointer(w, d, c, 0)
    && forall k :: 0 <= k < |c| ==> s.edges[w.el[c[k]]].next.At(d) == Pointer(w, d, c, k + 1)
  }

  ghost predicate EdgeHeld<N, E>(b: Store<N, E>, w: View, s: Store<N, E>, x: nat)
    requires Inverse(w.eo, w.el) && |w.eo| == |s.edges|
    requires x in w.el
  {
    && x < |b.edges|
    && s.edges[w.el[x]].value == b.edges[x].value
    && forall d: Dir :: x in w.tg.At(d) && s.edges[w.el[x]].node.At(d) == w.tg.At(d)[x]
  }

  ghost predicate NodeHeld<N, E>(b: Store<N, E>, w: View, s: Store<N, E>, v: nat)
    requires Inverse(w.no, w.nl) && |w.no| == |s.nodes|
    requires v in w.nl
  {
    v < |b.nodes| && s.nodes[w.nl[v]].value == b.nodes[v].value
  }

  ghost predicate EdgesHeld<N, E>(b: Store<N, E>, w: View, s: Store<N, E>)
    requires Inverse(w.eo, w.el) && |w.eo| == |s.edges|
  {
    forall x {:trigger EdgeHeld(b, w, s, x)} :: x in w.el ==> EdgeHeld(b, w, s, x)
  }

  ghost predicate NodesHeld<N, E>(b: Store<N, E>, w: View, s: Store<N, E>)
    requires Inverse(w.no, w.nl) && |w.no| == |s.nodes|
  {
    forall v {:trigger NodeHeld(b, w, s, v)} :: v in w.nl ==> NodeHeld(b, w, s, v)
  }

  ghost predicate ChainsHeld<N, E>(ch: Chains, w: View, s: Store<N, E>)
    requires Inverse(w.eo, w.el) && |w.eo| == |s.edges|
    requires Inverse(w.no, w.nl) && |w.no| == |s.nodes|
    requires w.lv <= w.nl.Keys
  {
    forall d: Dir, v: nat {:trigger ChainHeld(w, s, d, v, Chain(ch, w, d, v))} ::
      v in w.lv ==> ChainHeld(w, s, d, v, Chain(ch, w, d, v))
  }

  ghost predicate Tracks<N, E>(b: Store<N, E>, ch: Chains, w: View, s: Store<N, E>) {
    && WellFormed(b, ch)
    && Inverse(w.eo, w.el) && |w.eo| == |s.edges|
    && Inverse(w.no, w.nl) && |w.no| == |s.nodes|
    && w.lv <= w.nl.Keys && (forall v :: v in w.lv ==> v < |b.nodes|)
    && (forall d: Dir :: w.lk.At(d) <= w.el.Keys)
    && EdgesHeld(b, w, s) && NodesHeld(b, w, s) && ChainsHeld(ch, w, s)
  }

  /** Every linked edge is reached through a pointer that holds its present slot. */
  ghost predicate PointersCurrent(w: View) {
    forall d: Dir, x: nat :: x in w.lk.At(d) ==> x in w.pl.At(d) && x in w.el && w.pl.At(d)[x] == w.el[x]
  }

  lemma ChainMembers<N, E>(b: Store<N, E>, ch: Chains, w: View, d: Dir, v: nat)
    requires WellFormed(b, ch) && v < |b.nodes|
    ensures NoDup(Chain(ch, w, d, v))
    ensures forall x :: x in Chain(ch, w, d, v) ==>
              x in w.lk.At(d) && x < |b.edges| && b.edges[x].node.At(d) == v
    ensures forall x :: x in w.lk.At(d) && x < |b.edges| && b.edges[x].node.At(d) == v ==>
              x in Chain(ch, w, d, v)
  {
    var c := ch.At(d)[v];
    assert Threaded(b, d, v, c);
    FilterMember(c, w.lk.At(d));
    FilterNoDup(c, w.lk.At(d));
    forall x | x in w.lk.At(d) && x < |b.edges| && b.edges[x].node.At(d) == v
      ensures x in Chain(ch, w, d, v)
    {
      assert Placed(b, ch, d, x);
    }
  }

  // ----- the view before anything happens -----

  ghost function Upto(n: nat): (s: seq<nat>)
    ensures |s| == n
    ensures forall i :: 0 <= i < n ==> s[i] == i
  {
    seq(n, i => i)
  }

  ghost function Identity(n: nat): (m: map<nat, nat>)
    ensures m.Keys == Below(n)
    ensures forall x :: x in m ==> m[x] == x
  {
    map x | x in Below(n) :: x
  }

  ghost function EndsOf<N, E>(b: Store<N, E>, d: Dir): (m: map<nat, nat>)
    ensures m.Keys == Below(|b.edges|)
    ensures forall x :: x in m ==> m[x] == b.edges[x].node.At(d)
  {
    map x | x in Below(|b.edges|) :: b.edges[x].node.At(d)
  }

  ghost function Initial<N, E>(b: Store<N, E>): View {
    var ne, nn := |b.edges|, |b.nodes|;
    View(Upto(ne), Identity(ne), Upto(nn), Identity(nn), Pair(Below(ne), Below(ne)),
         Pair(Identity(ne), Identity(ne)), Pair(EndsOf(b, Outgoing), EndsOf(b, Incoming)), Below(nn))
  }

  lemma InitialTracks<N, E>(b: Store<N, E>, ch: Chains)
    requires WellFormed(b, ch)
    ensures Tracks(b, ch, Initial(b), b)
    ensures PointersCurrent(Initial(b))
  {
    var w := Initial(b);
    RestingEdges(b, w);
    RestingNodes(b, w);
    RestingChains(b, ch, w);
  }

  lemma RestingChains<N, E>(b: Store<N, E>, ch: Chains, w: View)
    requires WellFormed(b, ch)
    requires Inverse(w.eo, w.el) && |w.eo| == |b.edges|
    requires Inverse(w.no, w.nl) && |w.no| == |b.nodes|
    requires w.el == Identity(|b.edges|) && w.nl == Identity(|b.nodes|) && w.lv == Below(|b.nodes|)
    requires forall d: Dir :: w.lk.At(d) == Below(|b.edges|)
    requires forall d: Dir :: w.pl.At(d) == Identity(|b.edges|)
    ensures ChainsHeld(ch, w, b)
  {
    forall d: Dir, v: nat | v in w.lv ensures ChainHeld(w, b, d, v, Chain(ch, w, d, v)) {
      RestingChain(b, ch, w, d, v);
    }
  }

  lemma RestingEdges<N, E>(b: Store<N, E>, w: View)
    requires w.eo == Upto(|b.edges|) && w.el == Identity(|b.edges|)
    requires forall d: Dir :: w.tg.At(d) == EndsOf(b, d)
    ensures Inverse(w.eo, w.el) && EdgesHeld(b, w, b)
  {
  }

  lemma RestingNodes<N, E>(b: Store<N, E>, w: View)
    requires w.no == Upto(|b.nodes|) && w.nl == Identity(|b.nodes|)
    ensures Inverse(w.no, w.nl) && NodesHeld(b, w, b)
  {
  }

  lemma RestingChain<N, E>(b: Store<N, E>, ch: Chains, w: View, d: Dir, v: nat)
    requires WellFormed(b, ch) && v < |b.nodes|
    requires w.el == Identity(|b.edges|) && w.nl == Identity(|b.nodes|)
    requires w.lk.At(d) == Below(|b.edges|) && w.pl.At(d) == Identity(|b.edges|)
    requires Inverse(w.eo, w.el) && |w.eo| == |b.edges|
    requires Inverse(w.no, w.nl) && |w.no| == |b.nodes|
    ensures ChainHeld(w, b, d, v, Chain(ch, w, d, v))
  {
    var c := ch.At(d)[v];
    assert Threaded(b, d, v, c);
    FilterAll(c, w.lk.At(d));
    assert forall k :: 0 <= k < |c| ==> c[k] in c && c[k] in w.pl.At(d);
    forall k: nat | k <= |c| ensures Pointer(w, d, c, k) == LinkAt(c, k) {
    }
  }

  // ----- single steps -----

  /** The entry whose pointer leads to position `k` of the chain: a node slot or an edge slot. */
  ghost function Pred(w: View, c: seq<nat>, k: nat): Slot {
    if 0 < k <= |c| && c[k - 1] in w.el then Some(w.el[c[k - 1]]) else None
  }

  /** A pointer write at `(v, d, k)` leaves every other chain alone. */
  lemma OtherChain<N, E>(b: Store<N, E>, ch: Chains, w: View, s: Store<N, E>, d: Dir, v: nat, k: nat,
                         link: Slot, d': Dir, v': nat)
    requires Tracks(b, ch, w, s) && v in w.lv && v' in w.lv && (d != d' || v != v')
    requires k <= |Chain(ch, w, d, v)|
    ensures ChainHeld(w, SetLink(s, w.nl[v], Pred(w, Chain(ch, w, d, v), k), d, link), d', v', Chain(ch, w, d', v'))
  {
    var c, c' := Chain(ch, w, d, v), Chain(ch, w, d', v');
    assert ChainHeld(w, s, d', v', c') && ChainHeld(w, s, d, v, c);
    ChainMembers(b, ch, w, d, v);
    ChainMembers(b, ch, w, d', v');
    var s' := SetLink(s, w.nl[v], Pred(w, c, k), d, link);
    if 0 < k {
      assert c[k - 1] in c;
      LinkApart(s, w.nl[v], w.el[c[k - 1]], d, link);
      forall j | 0 <= j < |c'| ensures s'.edges[w.el[c'[j]]].next.At(d') == s.edges[w.el[c'[j]]].next.At(d') {
        assert c'[j] in c';
      }
    }
  }

  /** A write to an edge's pointer touches that one pointer. */
  lemma LinkApart<N, E>(s: Store<N, E>, i: nat, p: nat, d: Dir, link: Slot)
    requires i < |s.nodes| && p < |s.edges|
    ensures var s' := SetLink(s, i, Some(p), d, link);
            && s'.nodes == s.nodes && |s'.edges| == |s.edges|
            && forall x, d': Dir {:trigger s'.edges[x].next.At(d')} :: 0 <= x < |s.edges| && (x != p || d' != d) ==>
                 s'.edges[x].next.At(d') == s.edges[x].next.At(d')
  {
  }

  lemma LinkKeepsEntries<N, E>(b: Store<N, E>, ch: Chains, w: View, s: Store<N, E>, d: Dir, i: nat, pred: Slot,
                               link: Slot)
    requires Tracks(b, ch, w, s) && i < |s.nodes| && (pred.Some? ==> pred.value < |s.edges|)
    ensures EdgesHeld(b, w, SetLink(s, i, pred, d, link)) && NodesHeld(b, w, SetLink(s, i, pred, d, link))
  {
    var s' := SetLink(s, i, pred, d, link);
    forall x | x in w.el ensures EdgeHeld(b, w, s', x) {
      assert EdgeHeld(b, w, s, x);
    }
    forall v | v in w.nl ensures NodeHeld(b, w, s', v) {
      assert NodeHeld(b, w, s, v);
    }
  }

  lemma LinkKeepsEnds<N, E>(s: Store<N, E>, i: nat, pred: Slot, d: Dir, link: Slot)
    requires i < |s.nodes| && (pred.Some? ==> pred.value < |s.edges|)
    ensures var s' := SetLink(s, i, pred, d, link);
            && |s'.nodes| == |s.nodes| && |s'.edges| == |s.edges|
            && forall e :: 0 <= e < |s.edges| ==> s'.edges[e].node == s.edges[e].node
  {
  }

  ghost function Unlinked(w: View, d: Dir, x: nat): View {
    w.(lk := With(w.lk, d, w.lk.At(d) - {x}))
  }

  /** Making the pointer to the `k`th edge of a chain skip it takes that edge out of the chain. */
  lemma UnlinkStep<N, E>(b: Store<N, E>, ch: Chains, w: View, s: Store<N, E>, d: Dir, v: nat, k: nat)
    requires Tracks(b, ch, w, s) && v in w.lv
    requires k < |Chain(ch, w, d, v)|
    ensures forall x :: x in Chain(ch, w, d, v) ==> x in w.el && x in w.pl.At(d)
    ensures var c := Chain(ch, w, d, v);
            && Tracks(b, ch, Unlinked(w, d, c[k]), SetLink(s, w.nl[v], Pred(w, c, k), d, Pointer(w, d, c, k + 1)))
            && Chain(ch, Unlinked(w, d, c[k]), d, v) == Without(c, k)
  {
    var c := Chain(ch, w, d, v);
    assert ChainHeld(w, s, d, v, c);
    var w' := Unlinked(w, d, c[k]);
    var link := Pointer(w, d, c, k + 1);
    var s' := SetLink(s, w.nl[v], Pred(w, c, k), d, link);
    ChainMembers(b, ch, w, d, v);
    assert Threaded(b, d, v, ch.At(d)[v]);
    FilterDrop(ch.At(d)[v], w.lk.At(d), k);
    LinkKeepsEntries(b, ch, w, s, d, w.nl[v], Pred(w, c, k), link);
    forall x | x in w'.el ensures EdgeHeld(b, w', s', x) {
      assert EdgeHeld(b, w, s', x);
    }
    forall u | u in w'.nl ensures NodeHeld(b, w', s', u) {
      assert NodeHeld(b, w, s', u);
    }
    forall d': Dir, v': nat | v' in w'.lv
      ensures ChainHeld(w', s', d', v', Chain(ch, w', d', v'))
    {
      if d' == d && v' == v {
        ChainShortened(w, s, d, v, c, k);
      } else {
        OtherChain(b, ch, w, s, d, v, k, link, d', v');
        if d' == d {
          ChainMembers(b, ch, w, d, v');
          assert Threaded(b, d, v', ch.At(d)[v']);
          assert c[k] in c;
          FilterAgree(ch.At(d)[v'], w.lk.At(d), w'.lk.At(d));
        }
        ChainHeldLk(w, w', s', d', v', Chain(ch, w, d', v'));
      }
    }
  }

  /** `ChainHeld` does not look at the linked sets. */
  lemma ChainHeldLk<N, E>(w: View, w': View, s: Store<N, E>, d: Dir, v: nat, c: seq<nat>)
    requires w' == w.(lk := w'.lk)
    requires Inverse(w.eo, w.el) && |w.eo| == |s.edges|
    requires Inverse(w.no, w.nl) && |w.no| == |s.nodes|
    requires v in w.nl && ChainHeld(w, s, d, v, c)
    ensures ChainHeld(w', s, d, v, c)
  {
    assert Pointer(w, d, c, 0) == Pointer(w', d, c, 0);
    forall k | 0 <= k < |c| ensures s.edges[w'.el[c[k]]].next.At(d) == Pointer(w', d, c, k + 1) {
      assert Pointer(w, d, c, k + 1) == Pointer(w', d, c, k + 1);
    }
  }

  lemma ChainShortened<N, E>(w: View, s: Store<N, E>, d: Dir, v: nat, c: seq<nat>, k: nat)
    requires Inverse(w.eo, w.el) && |w.eo| == |s.edges|
    requires Inverse(w.no, w.nl) && |w.no| == |s.nodes|
    requires v in w.nl && ChainHeld(w, s, d, v, c) && NoDup(c) && k < |c|
    ensures ChainHeld(Unlinked(w, d, c[k]), SetLink(s, w.nl[v], Pred(w, c, k), d, Pointer(w, d, c, k + 1)),
                      d, v, Without(c, k))
  {
    var w' := Unlinked(w, d, c[k]);
    var s' := SetLink(s, w.nl[v], Pred(w, c, k), d, Pointer(w, d, c, k + 1));
    var c' := Without(c, k);
    assert forall j :: 0 <= j < |c'| ==> c'[j] == if j < k then c[j] else c[j + 1];
    assert forall j :: 0 <= j < |c| ==> c[j] in c;
    forall x | x in c' ensures x in c {
    }
    forall j | 0 <= j < |c'|
      ensures s'.edges[w'.el[c'[j]]].next.At(d) == Pointer(w', d, c', j + 1)
    {
      ShortenedLink(w, s, d, v, c, k, j);
    }
  }

  lemma ShortenedLink<N, E>(w: View, s: Store<N, E>, d: Dir, v: nat, c: seq<nat>, k: nat, j: nat)
    requires Inverse(w.eo, w.el) && |w.eo| == |s.edges|
    requires Inverse(w.no, w.nl) && |w.no| == |s.nodes|
    requires v in w.nl && ChainHeld(w, s, d, v, c) && NoDup(c) && k < |c| && j < |c| - 1
    requires forall i :: 0 <= i < |c| ==> c[i] in w.el
    ensures SetLink(s, w.nl[v], Pred(w, c, k), d, Pointer(w, d, c, k + 1)).edges[w.el[Without(c, k)[j]]].next.At(d)
         == Pointer(w, d, Without(c, k), j + 1)
  {
    var i := if j < k then j else j + 1;
    assert Without(c, k)[j] == c[i];
    assert s.edges[w.el[c[i]]].next.At(d) == Pointer(w, d, c, i + 1);
    if j + 1 < |c| - 1 {
      assert Without(c, k)[j + 1] == if j + 1 < k then c[j + 1] else c[j + 2];
    }
    if k > 0 && i != k - 1 {
      assert w.el[c[i]] != w.el[c[k - 1]];
    }
  }

  ghost function Repointed(w: View, d: Dir, x: nat, p: nat): View {
    w.(pl := With(w.pl, d, w.pl.At(d)[x := p]))
  }

  /** Overwriting the pointer to the `k`th edge of a chain changes just that pointer. */
  lemma RepointStep<N, E>(b: Store<N, E>, ch: Chains, w: View, s: Store<N, E>, d: Dir, v: nat, k: nat, p: nat)
    requires Tracks(b, ch, w, s) && v in w.lv
    requires k < |Chain(ch, w, d, v)|
    ensures forall x :: x in Chain(ch, w, d, v) ==> x in w.el
    ensures var c := Chain(ch, w, d, v);
            Tracks(b, ch, Repointed(w, d, c[k], p), SetLink(s, w.nl[v], Pred(w, c, k), d, Some(p)))
  {
    var c := Chain(ch, w, d, v);
    assert ChainHeld(w, s, d, v, c);
    var w' := Repointed(w, d, c[k], p);
    var s' := SetLink(s, w.nl[v], Pred(w, c, k), d, Some(p));
    ChainMembers(b, ch, w, d, v);
    LinkKeepsEntries(b, ch, w, s, d, w.nl[v], Pred(w, c, k), Some(p));
    forall x | x in w'.el ensures EdgeHeld(b, w', s', x) {
      assert EdgeHeld(b, w, s', x);
    }
    forall u | u in w'.nl ensures NodeHeld(b, w', s', u) {
      assert NodeHeld(b, w, s', u);
    }
    forall d': Dir, v': nat | v' in w'.lv
      ensures ChainHeld(w', s', d', v', Chain(ch, w', d', v'))
    {
      var c' := Chain(ch, w, d', v');
      if d' == d && v' == v {
        ChainRepointed(w, s, d, v, c, k, p);
      } else {
        OtherChain(b, ch, w, s, d, v, k, Some(p), d', v');
        ChainMembers(b, ch, w, d', v');
        assert c[k] in c;
        forall j: nat | j <= |c'| ensures Pointer(w, d', c', j) == Pointer(w', d', c', j) {
          if j < |c'| {
            assert c'[j] in c';
          }
        }
      }
    }
  }

  lemma ChainRepointed<N, E>(w: View, s: Store<N, E>, d: Dir, v: nat, c: seq<nat>, k: nat, p: nat)
    requires Inverse(w.eo, w.el) && |w.eo| == |s.edges|
    requires Inverse(w.no, w.nl) && |w.no| == |s.nodes|
    requires v in w.nl && ChainHeld(w, s, d, v, c) && NoDup(c) && k < |c|
    requires Pred(w, c, k).Some? ==> Pred(w, c, k).value < |s.edges|
    ensures ChainHeld(Repointed(w, d, c[k], p), SetLink(s, w.nl[v], Pred(w, c, k), d, Some(p)), d, v, c)
  {
    var w', s' := Repointed(w, d, c[k], p), SetLink(s, w.nl[v], Pred(w, c, k), d, Some(p));
    assert forall j :: 0 <= j < |c| ==> c[j] in c;
    forall j: nat | j < |c| ensures Pointer(w', d, c, j) == if j == k then Some(p) else Pointer(w, d, c, j) {
    }
    assert Pointer(w', d, c, |c|) == Pointer(w, d, c, |c|) == None;
    if k > 0 {
      LinkApart(s, w.nl[v], w.el[c[k - 1]], d, Some(p));
    }
    forall j | 0 <= j < |c| ensures s'.edges[w'.el[c[j]]].next.At(d) == Pointer(w', d, c, j + 1) {
      RepointedLink(w, s, d, v, c, k, p, j);
    }
  }

  lemma RepointedLink<N, E>(w: View, s: Store<N, E>, d: Dir, v: nat, c: seq<nat>, k: nat, p: nat, j: nat)
    requires Inverse(w.eo, w.el) && |w.eo| == |s.edges|
    requires Inverse(w.no, w.nl) && |w.no| == |s.nodes|
    requires v in w.nl && ChainHeld(w, s, d, v, c) && NoDup(c) && k < |c| && j < |c| && c[j] in c
    requires (k > 0 ==> c[k - 1] in c)
    ensures SetLink(s, w.nl[v], Pred(w, c, k), d, Some(p)).edges[w.el[c[j]]].next.At(d) == if j + 1 == k then Some(p)
            else Pointer(w, d, c, j + 1)
  {
    assert s.edges[w.el[c[j]]].next.At(d) == Pointer(w, d, c, j + 1);
  }

  // ----- entries leaving their vector -----

  /** The location map after slot `i` of `o` has been swap-removed. */
  ghost function Gone(o: seq<nat>, l: map<nat, nat>, i: nat): map<nat, nat>
    requires i < |o|
  {
    map x | x in l && x != o[i] :: if l[x] == |o| - 1 then i else l[x]
  }

  lemma GoneInverse(o: seq<nat>, l: map<nat, nat>, i: nat)
    requires Inverse(o, l) && i < |o|
    ensures Inverse(SwapRemove(o, i), Gone(o, l, i))
    ensures Gone(o, l, i).Keys == l.Keys - {o[i]}
  {
  }

  /** The view after the edge in slot `i` has been swap-removed: the last edge moves into `i`,
      while the pointers to it keep their value. */
  ghost function EdgeGone(w: View, i: nat): View
    requires i < |w.eo|
  {
    w.(eo := SwapRemove(w.eo, i),
       el := Gone(w.eo, w.el, i))
  }

  lemma EdgeGoneStep<N, E>(b: Store<N, E>, ch: Chains, w: View, s: Store<N, E>, i: nat)
    requires Tracks(b, ch, w, s) && i < |s.edges|
    requires forall d: Dir :: w.eo[i] !in w.lk.At(d)
    ensures Tracks(b, ch, EdgeGone(w, i), Store(s.nodes, SwapRemove(s.edges, i)))
  {
    var w' := EdgeGone(w, i);
    var s' := Store(s.nodes, SwapRemove(s.edges, i));
    GoneInverse(w.eo, w.el, i);
    assert forall x :: x in w'.el ==> x in w.el && s'.edges[w'.el[x]] == s.edges[w.el[x]];
    forall x | x in w'.el ensures EdgeHeld(b, w', s', x) {
      assert EdgeHeld(b, w, s, x);
    }
    forall v | v in w'.nl ensures NodeHeld(b, w', s', v) {
      assert NodeHeld(b, w, s, v);
    }
    forall d: Dir, v: nat | v in w'.lv ensures ChainHeld(w', s', d, v, Chain(ch, w', d, v)) {
      ChainMembers(b, ch, w, d, v);
      MovedChain(w, w', s, s', d, v, Chain(ch, w, d, v));
    }
  }

  /** A chain is unaffected when all its edges and its node keep their entries, wherever they
      are now stored. */
  lemma MovedChain<N, E>(w: View, w': View, s: Store<N, E>, s': Store<N, E>, d: Dir, v: nat, c: seq<nat>)
    requires Inverse(w.eo, w.el) && |w.eo| == |s.edges| && Inverse(w.no, w.nl) && |w.no| == |s.nodes|
    requires Inverse(w'.eo, w'.el) && |w'.eo| == |s'.edges| && Inverse(w'.no, w'.nl) && |w'.no| == |s'.nodes|
    requires v in w.nl && v in w'.nl && ChainHeld(w, s, d, v, c)
    requires w'.pl == w.pl && forall x :: x in c ==> x in w'.el
    requires forall x :: x in c && x in w.el ==> s'.edges[w'.el[x]].next == s.edges[w.el[x]].next
    requires s'.nodes[w'.nl[v]].next == s.nodes[w.nl[v]].next
    ensures ChainHeld(w', s', d, v, c)
  {
    forall k | 0 <= k < |c| ensures s'.edges[w'.el[c[k]]].next.At(d) == Pointer(w', d, c, k + 1) {
      assert c[k] in c;
    }
  }

  /** Giving up the chains of a node. */
  ghost function Abandoned(w: View, v: nat): View {
    w.(lv := w.lv - {v})
  }

  lemma AbandonStep<N, E>(b: Store<N, E>, ch: Chains, w: View, s: Store<N, E>, v: nat)
    requires Tracks(b, ch, w, s)
    ensures Tracks(b, ch, Abandoned(w, v), s)
  {
    var w' := Abandoned(w, v);
    forall x | x in w'.el ensures EdgeHeld(b, w', s, x) {
      assert EdgeHeld(b, w, s, x);
    }
    forall u | u in w'.nl ensures NodeHeld(b, w', s, u) {
      assert NodeHeld(b, w, s, u);
    }
    forall d: Dir, u: nat | u in w'.lv ensures ChainHeld(w', s, d, u, Chain(ch, w', d, u)) {
      MovedChain(w, w', s, s, d, u, Chain(ch, w, d, u));
    }
  }

  ghost function NodeGone(w: View, i: nat): View
    requires i < |w.no|
  {
    w.(no := SwapRemove(w.no, i),
       nl := Gone(w.no, w.nl, i))
  }

  lemma NodeGoneStep<N, E>(b: Store<N, E>, ch: Chains, w: View, s: Store<N, E>, i: nat)
    requires Tracks(b, ch, w, s) && i < |s.nodes| && w.no[i] !in w.lv
    ensures Tracks(b, ch, NodeGone(w, i), Store(SwapRemove(s.nodes, i), s.edges))
  {
    var w' := NodeGone(w, i);
    var s' := Store(SwapRemove(s.nodes, i), s.edges);
    GoneInverse(w.no, w.nl, i);
    assert forall v :: v in w'.nl ==> v in w.nl && s'.nodes[w'.nl[v]] == s.nodes[w.nl[v]];
    forall x | x in w'.el ensures EdgeHeld(b, w', s', x) {
      assert EdgeHeld(b, w, s, x);
    }
    forall v | v in w'.nl ensures NodeHeld(b, w', s', v) {
      assert NodeHeld(b, w, s, v);
    }
    forall d: Dir, v: nat | v in w'.lv ensures ChainHeld(w', s', d, v, Chain(ch, w', d, v)) {
      MovedChain(w, w', s, s', d, v, Chain(ch, w, d, v));
    }
  }

  // ----- endpoint rewriting -----

  function SetEnd<N, E>(s: Store<N, E>, e: nat, d: Dir, v: nat): Store<N, E>
    requires e < |s.edges|
  {
    Store(s.nodes, s.edges[e := EdgeEntry(s.edges[e].value, s.edges[e].next, With(s.edges[e].node, d, v))])
  }

  ghost function Retagged(w: View, d: Dir, x: nat, v: nat): View {
    w.(tg := With(w.tg, d, w.tg.At(d)[x := v]))
  }

  lemma RetagStep<N, E>(b: Store<N, E>, ch: Chains, w: View, s: Store<N, E>, d: Dir, x: nat, v: nat)
    requires Tracks(b, ch, w, s) && x in w.el
    ensures Tracks(b, ch, Retagged(w, d, x, v), SetEnd(s, w.el[x], d, v))
  {
    var w' := Retagged(w, d, x, v);
    var s' := SetEnd(s, w.el[x], d, v);
    forall y | y in w'.el ensures EdgeHeld(b, w', s', y) {
      assert EdgeHeld(b, w, s, y) && EdgeHeld(b, w, s, x);
    }
    forall u | u in w'.nl ensures NodeHeld(b, w', s', u) {
      assert NodeHeld(b, w, s, u);
    }
    forall d': Dir, u: nat | u in w'.lv ensures ChainHeld(w', s', d', u, Chain(ch, w', d', u)) {
      MovedChain(w, w', s, s', d', u, Chain(ch, w, d', u));
    }
  }

  // ----- walking to a pointer -----

  function Hop(path: seq<nat>, target: nat, k: nat): nat {
    if k < |path| then path[k] else target
  }

  /** Following the `d` pointers from node slot `i` passes the edges of `path` and then arrives
      at the value `target`. */
  ghost predicate Leads<N, E>(s: Store<N, E>, i: nat, d: Dir, path: seq<nat>, target: nat) {
    && i < |s.nodes|
    && (forall j :: 0 <= j < |path| ==> path[j] < |s.edges| && path[j] != target)
    && s.nodes[i].next.At(d) == Some(Hop(path, target, 0))
    && forall j :: 0 <= j < |path| ==> s.edges[path[j]].next.At(d) == Some(Hop(path, target, j + 1))
  }

  function LastOf(path: seq<nat>): Slot {
    if path == [] then None else Some(path[|path| - 1])
  }

  ghost function PathTo(w: View, c: seq<nat>, k: nat): (p: seq<nat>)
    requires k <= |c|
    ensures |p| == k
    ensures forall j :: 0 <= j < k && c[j] in w.el ==> p[j] == w.el[c[j]]
  {
    seq(k, j requires 0 <= j < k => if c[j] in w.el then w.el[c[j]] else 0)
  }

  lemma PathLeads<N, E>(b: Store<N, E>, ch: Chains, w: View, s: Store<N, E>, d: Dir, v: nat, k: nat)
    requires Tracks(b, ch, w, s) && v in w.lv && k < |Chain(ch, w, d, v)|
    requires forall x :: x in Chain(ch, w, d, v) ==> x in w.el && x in w.pl.At(d)
    requires var c := Chain(ch, w, d, v);
             forall j :: 0 <= j < k ==> w.pl.At(d)[c[j]] == w.el[c[j]] && w.el[c[j]] != w.pl.At(d)[c[k]]
    ensures var c := Chain(ch, w, d, v);
            && Leads(s, w.nl[v], d, PathTo(w, c, k), w.pl.At(d)[c[k]])
            && LastOf(PathTo(w, c, k)) == Pred(w, c, k)
  {
    var c := Chain(ch, w, d, v);
    assert ChainHeld(w, s, d, v, c);
    var path := PathTo(w, c, k);
    assert forall j :: 0 <= j < |c| ==> c[j] in c;
    forall j: nat | j <= k ensures Pointer(w, d, c, j) == Some(Hop(path, w.pl.At(d)[c[k]], j)) {
    }
    forall j | 0 <= j < k ensures s.edges[path[j]].next.At(d) == Some(Hop(path, w.pl.At(d)[c[k]], j + 1)) {
      assert s.edges[w.el[c[j]]].next.At(d) == Pointer(w, d, c, j + 1);
    }
  }

  // ----- the view once everything is consistent again -----

  ghost predicate EndCurrent<N, E>(b: Store<N, E>, w: View, d: Dir, x: nat) {
    && x < |b.edges| && x in w.tg.At(d)
    && b.edges[x].node.At(d) in w.nl
    && w.tg.At(d)[x] == w.nl[b.edges[x].node.At(d)]
  }

  ghost predicate Finished<N, E>(b: Store<N, E>, w: View) {
    && (forall d: Dir :: w.lk.At(d) == w.el.Keys)
    && w.lv == w.nl.Keys
    && PointersCurrent(w)
    && (forall d: Dir, x: nat {:trigger EndCurrent(b, w, d, x)} :: x in w.el ==> EndCurrent(b, w, d, x))
  }

  ghost function SettledAt(ch: Chains, w: View, d: Dir): (r: seq<seq<nat>>)
    ensures |r| == |w.no|
    ensures forall i :: 0 <= i < |w.no| ==> r[i] == Rename(Chain(ch, w, d, w.no[i]), w.el)
  {
    seq(|w.no|, i requires 0 <= i < |w.no| => Rename(Chain(ch, w, d, w.no[i]), w.el))
  }

  ghost function Settled(ch: Chains, w: View): Chains {
    Pair(SettledAt(ch, w, Outgoing), SettledAt(ch, w, Incoming))
  }

  lemma InverseCard(o: seq<nat>, l: map<nat, nat>)
    requires Inverse(o, l)
    ensures Renumbering(l, |o|)
  {
    assert NoDup(o);
    ElemsCard(o);
    assert l.Keys == Elems(o);
  }

  lemma SettledChain<N, E>(b: Store<N, E>, ch: Chains, w: View, s: Store<N, E>, d: Dir, v: nat)
    requires Tracks(b, ch, w, s) && Finished(b, w) && v in w.nl
    ensures Threaded(s, d, w.nl[v], Settled(ch, w).At(d)[w.nl[v]])
  {
    var c := Chain(ch, w, d, v);
    assert ChainHeld(w, s, d, v, c);
    ChainMembers(b, ch, w, d, v);
    var r := Rename(c, w.el);
    assert Settled(ch, w).At(d)[w.nl[v]] == r;
    assert forall k :: 0 <= k < |c| ==> c[k] in c;
    forall k | 0 <= k < |r| ensures s.edges[r[k]].node.At(d) == w.nl[v] {
      assert EdgeHeld(b, w, s, c[k]);
      assert EndCurrent(b, w, d, c[k]);
    }
    forall k | 0 <= k < |r| ensures s.edges[r[k]].next.At(d) == LinkAt(r, k + 1) {
      assert s.edges[w.el[c[k]]].next.At(d) == Pointer(w, d, c, k + 1);
    }
  }

  lemma SettledPlaced<N, E>(b: Store<N, E>, ch: Chains, w: View, s: Store<N, E>, d: Dir, e: nat)
    requires Tracks(b, ch, w, s) && Finished(b, w) && e < |s.edges|
    ensures Placed(s, Settled(ch, w), d, e)
  {
    var x := w.eo[e];
    assert EdgeHeld(b, w, s, x);
    assert EndCurrent(b, w, d, x);
    var v := b.edges[x].node.At(d);
    var c := Chain(ch, w, d, v);
    ChainMembers(b, ch, w, d, v);
    var k :| 0 <= k < |c| && c[k] == x;
    assert Settled(ch, w).At(d)[w.nl[v]] == Rename(c, w.el);
    assert Rename(c, w.el)[k] == e;
  }

  /** When every pointer and endpoint is current again, the store is well formed and is the
      original without the nodes and edges that left. */
  lemma Finish<N, E>(b: Store<N, E>, ch: Chains, w: View, s: Store<N, E>)
    requires Tracks(b, ch, w, s) && Finished(b, w)
    ensures WellFormed(s, Settled(ch, w))
    ensures Survives(b, ch, s, Settled(ch, w), w.nl, w.el)
  {
    var ch' := Settled(ch, w);
    forall d: Dir, i: nat | i < |s.nodes| ensures Threaded(s, d, i, ch'.At(d)[i]) {
      SettledChain(b, ch, w, s, d, w.no[i]);
    }
    forall d: Dir, e: nat | e < |s.edges| ensures Placed(s, ch', d, e) {
      SettledPlaced(b, ch, w, s, d, e);
    }
    FinishSurvives(b, ch, w, s);
  }

  lemma FinishSurvives<N, E>(b: Store<N, E>, ch: Chains, w: View, s: Store<N, E>)
    requires Tracks(b, ch, w, s) && Finished(b, w)
    ensures Survives(b, ch, s, Settled(ch, w), w.nl, w.el)
  {
    InverseCard(w.eo, w.el);
    InverseCard(w.no, w.nl);
    forall v | v in w.nl ensures KeptNode(b, s, w.nl, v) {
      assert NodeHeld(b, w, s, v);
    }
    forall x | x in w.el ensures KeptEdge(b, s, w.nl, w.el, x) {
      assert EdgeHeld(b, w, s, x);
      assert EndCurrent(b, w, Outgoing, x) && EndCurrent(b, w, Incoming, x);
    }
    forall d: Dir, v: nat | v in w.nl ensures KeptChain(ch, Settled(ch, w), w.nl, w.el, d, v) {
      assert v < |b.nodes|;
    }
  }

  /** The view after edge slot `e` has been swap-removed and the pointers to the edge moved
      into it have been redirected. */
  ghost function Reseated(w: View, e: nat): View
    requires e < |w.eo|
  {
    if e == |w.eo| - 1 then EdgeGone(w, e)
    else
      var y := w.eo[|w.eo| - 1];
      Repointed(Repointed(EdgeGone(w, e), Outgoing, y, e), Incoming, y, e)
  }

  lemma ReseatedCurrent(w: View, e: nat)
    requires Inverse(w.eo, w.el) && PointersCurrent(w) && e < |w.eo|
    requires forall d: Dir :: w.eo[e] !in w.lk.At(d)
    ensures PointersCurrent(Reseated(w, e))
  {
    GoneInverse(w.eo, w.el, e);
  }

  /** Position of a linked edge in the chain of its stored endpoint. */
  lemma PositionOf<N, E>(b: Store<N, E>, ch: Chains, w: View, s: Store<N, E>, d: Dir, x: nat) returns (k: nat)
    requires Tracks(b, ch, w, s) && x in w.lk.At(d)
    ensures x < |b.edges| && k < |Chain(ch, w, d, b.edges[x].node.At(d))|
    ensures Chain(ch, w, d, b.edges[x].node.At(d))[k] == x
  {
    assert EdgeHeld(b, w, s, x);
    assert Placed(b, ch, d, x);
    var v := b.edges[x].node.At(d);
    ChainMembers(b, ch, w, d, v);
    k :| 0 <= k < |Chain(ch, w, d, v)| && Chain(ch, w, d, v)[k] == x;
  }

  /** The view after the edge in slot `e` has been unlinked from both chains and removed. */
  ghost function Removed(w: View, e: nat): View
    requires e < |w.eo|
  {
    Reseated(Unlinked(Unlinked(w, Outgoing, w.eo[e]), Incoming, w.eo[e]), e)
  }

  lemma UnlinkedEnds<N, E>(b: Store<N, E>, w: View, x: nat)
    requires Finished(b, w)
    ensures var u := Unlinked(Unlinked(w, Outgoing, x), Incoming, x);
            && (forall d: Dir, y: nat :: y in u.el ==> EndCurrent(b, u, d, y))
            && PointersCurrent(u)
            && forall d: Dir :: u.lk.At(d) == u.el.Keys - {x}
  {
    var u := Unlinked(Unlinked(w, Outgoing, x), Incoming, x);
    forall d: Dir, y: nat | y in u.el ensures EndCurrent(b, u, d, y) {
      assert EndCurrent(b, w, d, y);
    }
  }

  lemma RemovedFinished<N, E>(b: Store<N, E>, w: View, e: nat)
    requires Inverse(w.eo, w.el) && Finished(b, w) && e < |w.eo|
    ensures Finished(b, Removed(w, e))
    ensures Removed(w, e).el == Gone(w.eo, w.el, e) && Removed(w, e).eo == SwapRemove(w.eo, e)
    ensures Removed(w, e).el.Keys == w.el.Keys - {w.eo[e]}
    ensures Removed(w, e).nl == w.nl && Removed(w, e).no == w.no
    ensures Removed(w, e).lv == w.lv && Removed(w, e).tg == w.tg
  {
    GoneInverse(w.eo, w.el, e);
    var x := w.eo[e];
    var u := Unlinked(Unlinked(w, Outgoing, x), Incoming, x);
    ReseatedCurrent(u, e);
    var r := Removed(w, e);
    forall d: Dir, y: nat | y in r.el ensures EndCurrent(b, r, d, y) {
      assert EndCurrent(b, w, d, y);
    }
  }

  lemma InitialFinished<N, E>(b: Store<N, E>, ch: Chains)
    requires WellFormed(b, ch)
    ensures Finished(b, Initial(b))
  {
    var w := Initial(b);
    forall d: Dir, x: nat | x in w.el ensures EndCurrent(b, w, d, x) {
      assert Placed(b, ch, d, x);
    }
  }

  /** A view of the store as it stands. */
  lemma Begin<N, E>(b: Store<N, E>, ch: Chains) returns (w: View)
    requires WellFormed(b, ch)
    ensures Tracks(b, ch, w, b) && Finished(b, w)
    ensures w.eo == Upto(|b.edges|) && w.el == Identity(|b.edges|)
    ensures w.no == Upto(|b.nodes|) && w.nl == Identity(|b.nodes|)
  {
    w := Initial(b);
    InitialTracks(b, ch);
    InitialFinished(b, ch);
  }

  lemma AfterRemoval<N, E>(b: Store<N, E>, ch: Chains, w: View, e: nat, s: Store<N, E>) returns (w': View)
    requires Inverse(w.eo, w.el) && Finished(b, w) && e < |w.eo|
    requires Tracks(b, ch, Removed(w, e), s)
    ensures Tracks(b, ch, w', s) && Finished(b, w')
    ensures w'.eo == SwapRemove(w.eo, e) && w'.el == Gone(w.eo, w.el, e)
    ensures w'.el.Keys == w.el.Keys - {w.eo[e]}
    ensures w'.nl == w.nl && w'.no == w.no
  {
    w' := Removed(w, e);
    RemovedFinished(b, w, e);
  }

  lemma GoneIsSwapMap(n: nat, e: nat)
    requires e < n
    ensures Gone(Upto(n), Identity(n), e) == SwapMap(n, e)
  {
  }

  /** `Finish`, for a caller that knows the two renumberings under other names. */
  lemma FinishAs<N, E>(b: Store<N, E>, ch: Chains, w: View, s: Store<N, E>, nm: map<nat, nat>, em: map<nat, nat>)
    returns (ch': Chains)
    requires Tracks(b, ch, w, s) && Finished(b, w) && nm == w.nl && em == w.el
    ensures WellFormed(s, ch') && Survives(b, ch, s, ch', nm, em)
  {
    ch' := Settled(ch, w);
    Finish(b, ch, w, s);
  }

  lemma EdgeTaken<N, E>(b: Store<N, E>, ch: Chains, w: View, e: nat, s: Store<N, E>) returns (ch': Chains)
    requires Inverse(w.eo, w.el) && Finished(b, w) && e < |w.eo| == |b.edges|
    requires w.eo == Upto(|b.edges|) && w.el == Identity(|b.edges|) && w.nl == Identity(|b.nodes|)
    requires Tracks(b, ch, Removed(w, e), s)
    ensures WellFormed(s, ch')
    ensures Survives(b, ch, s, ch', Identity(|b.nodes|), SwapMap(|b.edges|, e))
  {
    var w' := AfterRemoval(b, ch, w, e, s);
    GoneIsSwapMap(|b.edges|, e);
    ch' := FinishAs(b, ch, w', s, Identity(|b.nodes|), SwapMap(|b.edges|, e));
  }

  // ----- nodes leaving -----

  /** The view after every edge in `c` has had its `d` endpoint overwritten with `i`. */
  ghost function Rehomed(w: View, d: Dir, c: seq<nat>, i: nat): View {
    w.(tg := With(w.tg, d, map x | x in w.tg.At(d) :: if x in c then i else w.tg.At(d)[x]))
  }

  lemma RehomedNext(w: View, d: Dir, c: seq<nat>, k: nat, i: nat)
    requires k < |c| && c[k] in w.tg.At(d)
    ensures Retagged(Rehomed(w, d, c[..k], i), d, c[k], i) == Rehomed(w, d, c[..k + 1], i)
  {
    var a, z := Retagged(Rehomed(w, d, c[..k], i), d, c[k], i), Rehomed(w, d, c[..k + 1], i);
    assert c[..k + 1] == c[..k] + [c[k]];
    assert a.tg.At(d) == z.tg.At(d);
  }

  lemma RehomedNone(w: View, d: Dir, i: nat)
    ensures Rehomed(w, d, [], i) == w
  {
    assert Rehomed(w, d, [], i).tg.At(d) == w.tg.At(d);
  }

  /** No edge left touches `v`. */
  ghost predicate Isolated<N, E>(b: Store<N, E>, w: View, v: nat) {
    forall x {:trigger Incident(b, x, v)} :: x in w.el ==> !Incident(b, x, v)
  }

  /** Node slot `i` taken out, and the edges of the node moved into it rewritten. */
  ghost function NodeReplaced(ch: Chains, w: View, i: nat): View
    requires i < |w.no|
  {
    var g := NodeGone(Abandoned(w, w.no[i]), i);
    if i == |w.no| - 1 then g
    else
      var u := w.no[|w.no| - 1];
      var g1 := Rehomed(g, Outgoing, Chain(ch, g, Outgoing, u), i);
      Rehomed(g1, Incoming, Chain(ch, g1, Incoming, u), i)
  }

  lemma NodeReplacedFinished<N, E>(b: Store<N, E>, ch: Chains, w: View, s: Store<N, E>, i: nat)
    requires Tracks(b, ch, w, s) && Finished(b, w) && i < |w.no|
    requires Isolated(b, w, w.no[i])
    ensures Finished(b, NodeReplaced(ch, w, i))
    ensures NodeReplaced(ch, w, i).el == w.el && NodeReplaced(ch, w, i).eo == w.eo
    ensures NodeReplaced(ch, w, i).nl == Gone(w.no, w.nl, i)
    ensures NodeReplaced(ch, w, i).no == SwapRemove(w.no, i)
  {
    var r := NodeReplaced(ch, w, i);
    GoneInverse(w.no, w.nl, i);
    forall d: Dir, x: nat | x in r.el ensures EndCurrent(b, r, d, x) {
      assert EndCurrent(b, w, d, x);
      assert !Incident(b, x, w.no[i]);
      if i != |w.no| - 1 {
        ChainMembers(b, ch, w, d, w.no[|w.no| - 1]);
      }
    }
  }

  /** A node whose two list heads are the sentinel has no linked edge. */
  lemma EmptyChain<N, E>(b: Store<N, E>, ch: Chains, w: View, s: Store<N, E>, d: Dir, v: nat)
    requires Tracks(b, ch, w, s) && Finished(b, w) && v in w.nl
    requires s.nodes[w.nl[v]].next.At(d) == None
    ensures forall x :: x in w.el ==> x < |b.edges| && b.edges[x].node.At(d) != v
  {
    var c := Chain(ch, w, d, v);
    assert ChainHeld(w, s, d, v, c);
    ChainMembers(b, ch, w, d, v);
    assert Pointer(w, d, c, 0) == None;
    assert |c| > 0 ==> exists x :: x in c && x !in w.pl.At(d);
    forall x | x in w.el ensures x < |b.edges| && b.edges[x].node.At(d) != v {
      assert EdgeHeld(b, w, s, x);
    }
  }

  /** View `w'` follows `w` by the removal of the node in slot `i` with its incident edges. */
  ghost predicate Evicted<N, E>(b: Store<N, E>, w: View, w': View, i: nat)
    requires i < |w.no|
  {
    && w'.no == SwapRemove(w.no, i) && w'.nl == Gone(w.no, w.nl, i)
    && w'.el.Keys <= w.el.Keys
    && forall x {:trigger x in w'.el} :: x in w.el ==> (x in w'.el <==> !Incident(b, x, w.no[i]))
  }

  lemma BothDrained<N, E>(b: Store<N, E>, w0: View, w1: View, w2: View, v: nat)
    requires w2.el.Keys <= w1.el.Keys <= w0.el.Keys
    requires forall x :: x in w0.el && x !in w1.el ==> Incident(b, x, v)
    requires forall x :: x in w1.el && x !in w2.el ==> Incident(b, x, v)
    requires forall x :: x in w1.el ==> x < |b.edges| && b.edges[x].node.At(Outgoing) != v
    requires forall x :: x in w2.el ==> x < |b.edges| && b.edges[x].node.At(Incoming) != v
    ensures Isolated(b, w2, v)
    ensures forall x :: x in w0.el ==> (x in w2.el <==> !Incident(b, x, v))
  {
    forall x | x in w2.el ensures !Incident(b, x, v) {
      assert x in w1.el;
      assert forall d: Dir :: b.edges[x].node.At(d) != v;
    }
  }

  lemma NodeEvicted<N, E>(b: Store<N, E>, ch: Chains, w0: View, w: View, s: Store<N, E>, i: nat, s': Store<N, E>)
    returns (w': View)
    requires Tracks(b, ch, w, s) && Finished(b, w) && i < |w.no| && Isolated(b, w, w.no[i])
    requires w.no == w0.no && w.nl == w0.nl && w.el.Keys <= w0.el.Keys
    requires forall x :: x in w0.el ==> (x in w.el <==> !Incident(b, x, w.no[i]))
    requires Tracks(b, ch, NodeReplaced(ch, w, i), s')
    ensures Tracks(b, ch, w', s') && Finished(b, w') && Evicted(b, w0, w', i)
  {
    w' := NodeReplaced(ch, w, i);
    NodeReplacedFinished(b, ch, w, s, i);
  }

  /** What removing the node in slot `v` means: it and its incident edges are gone, the last
      node moved into its slot, the other edges were renumbered by `em`. */
  ghost predicate WithoutNode<N, E>(b: Store<N, E>, ch: Chains, s: Store<N, E>, ch': Chains, v: nat, em: map<nat, nat>)
  {
    && v < |b.nodes|
    && Survives(b, ch, s, ch', SwapMap(|b.nodes|, v), em)
    && forall x: nat :: x < |b.edges| ==> (x in em <==> !Incident(b, x, v))
  }

  lemma NodeTaken<N, E>(b: Store<N, E>, ch: Chains, w: View, w': View, v: nat, s: Store<N, E>)
    returns (ch': Chains, em: map<nat, nat>)
    requires w.el == Identity(|b.edges|) && w.no == Upto(|b.nodes|) && w.nl == Identity(|b.nodes|)
    requires v < |b.nodes| && Evicted(b, w, w', v) && Tracks(b, ch, w', s) && Finished(b, w')
    ensures WellFormed(s, ch') && WithoutNode(b, ch, s, ch', v, em)
  {
    GoneIsSwapMap(|b.nodes|, v);
    em := w'.el;
    ch' := FinishAs(b, ch, w', s, SwapMap(|b.nodes|, v), em);
    forall x: nat | x < |b.edges| ensures x in em <==> !Incident(b, x, v) {
      assert x in w.el;
    }
  }
}
