/** Duplicate-free sequences and the filtering, renaming and removal steps that
    describe what happens to an adjacency chain. */
module Seqs {

  type Lists = seq<seq<nat>>

  ghost predicate NoDup<T>(s: seq<T>) {
    forall i, j :: 0 <= i < j < |s| ==> s[i] != s[j]
  }

  ghost function Elems<T>(s: seq<T>): set<T> {
    set x | x in s
  }

  /** The numbers below `n`. */
  ghost function Below(n: nat): (r: set<nat>)
    ensures forall x: nat :: x in r <==> x < n
    ensures |r| == n
  {
    if n == 0 then {} else Below(n - 1) + {n - 1}
  }

  function Without<T>(s: seq<T>, k: nat): (r: seq<T>)
    requires k < |s|
    ensures |r| == |s| - 1
  {
    s[..k] + s[k + 1..]
  }

  lemma WithoutMember<T>(s: seq<T>, k: nat)
    requires NoDup(s) && k < |s|
    ensures NoDup(Without(s, k)) && Elems(Without(s, k)) == Elems(s) - {s[k]}
    ensures Without(s, k)[..k] == s[..k] && Without(s, k)[k..] == s[k + 1..]
  {
    var r := Without(s, k);
    forall x | x in s && x != s[k] ensures x in r {
      var i :| 0 <= i < |s| && s[i] == x;
      assert r[if i < k then i else i - 1] == x;
    }
    forall x | x in r ensures x in s && x != s[k] {
      var i :| 0 <= i < |r| && r[i] == x;
      assert s[if i < k then i else i + 1] == x;
    }
  }

  ghost predicate Upward(s: seq<nat>) {
    forall i, j :: 0 <= i < j < |s| ==> s[i] < s[j]
  }

  lemma {:induction false} SameUpward(p: seq<nat>, q: seq<nat>)
    requires Upward(p) && Upward(q) && forall i: nat :: i in p <==> i in q
    ensures p == q
  {
    assert p != [] ==> p[0] in q;
    assert q != [] ==> q[0] in p;
    if p != [] {
      assert p == [p[0]] + p[1..] && q == [q[0]] + q[1..];
      assert p[0] == q[0];
      forall i: nat ensures i in p[1..] <==> i in q[1..] {
        assert i in p[1..] ==> i in p && i != p[0];
        assert i in q[1..] ==> i in q && i != q[0];
        assert i in p ==> i == p[0] || i in p[1..];
        assert i in q ==> i == q[0] || i in q[1..];
      }
      SameUpward(p[1..], q[1..]);
    }
  }

  ghost predicate Before(t: seq<nat>, u: nat, v: nat) {
    exists i, j :: 0 <= i < j < |t| && t[i] == u && t[j] == v
  }

  /** `a` takes members of `t` in their order. */
  ghost predicate KeepsOrder(t: seq<nat>, a: seq<nat>) {
    forall i, j {:trigger a[i], a[j]} :: 0 <= i < j < |a| ==> Before(t, a[i], a[j])
  }

  lemma SuffixKeepsOrder(t: seq<nat>, a: seq<nat>, b: nat)
    requires KeepsOrder(t, a) && b <= |a|
    ensures KeepsOrder(t, a[b..])
  {
    forall i, j | 0 <= i < j < |a[b..]| ensures Before(t, a[b..][i], a[b..][j]) {
      PairKeepsOrder(t, a, b + i, b + j);
    }
  }

  lemma PairKeepsOrder(t: seq<nat>, a: seq<nat>, i: nat, j: nat)
    requires KeepsOrder(t, a) && i < j < |a|
    ensures Before(t, a[i], a[j])
  {
  }

  lemma BeforeGrows(a: seq<nat>, b: seq<nat>, x: nat, y: nat)
    requires Before(a, x, y)
    ensures Before(a + b, x, y)
  {
    var i, j :| 0 <= i < j < |a| && a[i] == x && a[j] == y;
    assert (a + b)[i] == x && (a + b)[j] == y;
  }

  lemma KeepsOrderMore(t: seq<nat>, v: nat, a: seq<nat>)
    requires KeepsOrder(t, a)
    ensures KeepsOrder(t + [v], a)
  {
    forall i, j | 0 <= i < j < |a| ensures Before(t + [v], a[i], a[j]) {
      BeforeGrows(t, [v], a[i], a[j]);
    }
  }

  lemma KeepsOrderNext(t: seq<nat>, v: nat, a: seq<nat>)
    requires KeepsOrder(t, a) && forall k :: 0 <= k < |a| ==> a[k] in t
    ensures KeepsOrder(t + [v], a + [v])
  {
    var t', a' := t + [v], a + [v];
    KeepsOrderMore(t, v, a);
    forall i, j | 0 <= i < j < |a'| ensures Before(t', a'[i], a'[j]) {
      if j < |a| {
        PairKeepsOrder(t', a, i, j);
      } else {
        var k :| 0 <= k < |t| && t[k] == a[i];
        assert t'[k] == a'[i] && t'[|t|] == a'[j];
      }
    }
  }

  lemma NotBothWays(t: seq<nat>, u: nat, v: nat)
    requires NoDup(t) && Before(t, u, v)
    ensures !Before(t, v, u) && u != v
  {
  }

  /** Members and order leave no choice. */
  lemma {:induction false} OrderedOnce(t: seq<nat>, a: seq<nat>, b: seq<nat>)
    requires NoDup(t) && KeepsOrder(t, a) && KeepsOrder(t, b) && forall x: nat :: x in a <==> x in b
    ensures a == b
    decreases |a|
  {
    assert a != [] ==> a[0] in b;
    assert b != [] ==> b[0] in a;
    if a != [] {
      FirstOrdered(t, a, b);
      assert forall j :: 0 < j < |a| ==> Before(t, a[0], a[j]);
      assert forall j :: 0 < j < |b| ==> Before(t, b[0], b[j]);
      forall x: nat ensures x in a[1..] <==> x in b[1..] {
        if x == a[0] && Before(t, x, x) {
          NotBothWays(t, x, x);
        }
        assert x in a <==> x == a[0] || x in a[1..];
        assert x in b <==> x == b[0] || x in b[1..];
      }
      OrderedOnce(t, a[1..], b[1..]);
    }
  }

  lemma FirstOrdered(t: seq<nat>, a: seq<nat>, b: seq<nat>)
    requires NoDup(t) && KeepsOrder(t, a) && KeepsOrder(t, b) && a != [] && b != [] && a[0] in b && b[0] in a
    ensures a[0] == b[0]
  {
    var i :| 0 <= i < |b| && b[i] == a[0];
    var j :| 0 <= j < |a| && a[j] == b[0];
    if i > 0 && j > 0 {
      assert Before(t, b[0], b[i]) && Before(t, a[0], a[j]);
      NotBothWays(t, a[0], b[0]);
    }
  }

  /** The members of `s` that lie in `keep`, in their order. */
  ghost function Filter<T>(s: seq<T>, keep: set<T>): seq<T> {
    if s == [] then []
    else if s[0] in keep then [s[0]] + Filter(s[1..], keep)
    else Filter(s[1..], keep)
  }

  /** `s` with every member sent through `m`. */
  ghost function Rename(s: seq<nat>, m: map<nat, nat>): (r: seq<nat>)
    ensures |r| == |s|
    ensures forall k :: 0 <= k < |s| ==> r[k] == if s[k] in m then m[s[k]] else s[k]
  {
    seq(|s|, k requires 0 <= k < |s| => if s[k] in m then m[s[k]] else s[k])
  }

  lemma {:induction false} FilterMember<T>(s: seq<T>, keep: set<T>)
    ensures forall x :: x in Filter(s, keep) <==> x in s && x in keep
    ensures |Filter(s, keep)| <= |s|
  {
    if s != [] {
      FilterMember(s[1..], keep);
      assert s == [s[0]] + s[1..];
    }
  }

  /** `r` is what `s` holds at the positions `at`, ascending: those of members of `keep`. */
  ghost predicate Selects<T>(s: seq<T>, keep: set<T>, r: seq<T>, at: seq<nat>) {
    && |at| == |r| && Upward(at)
    && (forall k {:trigger at[k]} :: 0 <= k < |at| ==> at[k] < |s| && r[k] == s[at[k]] && s[at[k]] in keep)
    && forall i: nat {:trigger s[i]} :: i < |s| && s[i] in keep ==> i in at
  }

  lemma {:induction false} FilterSnoc<T>(s: seq<T>, x: T, keep: set<T>)
    ensures Filter(s + [x], keep) == Filter(s, keep) + if x in keep then [x] else []
  {
    if s == [] {
      assert s + [x] == [x];
    } else {
      FilterSnoc(s[1..], x, keep);
      assert (s + [x])[1..] == s[1..] + [x];
    }
  }

  /** Filtering keeps the order and every repetition. */
  lemma {:induction false} FilterSelects<T>(s: seq<T>, keep: set<T>) returns (at: seq<nat>)
    ensures Selects(s, keep, Filter(s, keep), at)
  {
    if s == [] {
      at := [];
    } else {
      var n := |s| - 1;
      at := FilterSelects(s[..n], keep);
      assert s == s[..n] + [s[n]];
      FilterSnoc(s[..n], s[n], keep);
      SelectsNext(s, keep, Filter(s[..n], keep), at);
      at := if s[n] in keep then at + [n] else at;
    }
  }

  lemma SelectsNext<T>(s: seq<T>, keep: set<T>, r: seq<T>, at: seq<nat>)
    requires s != [] && Selects(s[..|s| - 1], keep, r, at)
    ensures var n := |s| - 1;
            if s[n] in keep then Selects(s, keep, r + [s[n]], at + [n]) else Selects(s, keep, r, at)
  {
    var n := |s| - 1;
    var before := s[..n];
    forall i: nat | i < n && s[i] in keep ensures i in at {
      assert before[i] == s[i];
    }
    if s[n] in keep {
      var at' := at + [n];
      forall i: nat | i < |s| && s[i] in keep ensures i in at' {
        assert i == n ==> at'[|at|] == n;
      }
    }
  }

  lemma {:induction false} FilterNoDup<T>(s: seq<T>, keep: set<T>)
    requires NoDup(s)
    ensures NoDup(Filter(s, keep))
  {
    if s != [] {
      FilterNoDup(s[1..], keep);
      FilterMember(s[1..], keep);
    }
  }

  lemma {:induction false} FilterAll<T>(s: seq<T>, keep: set<T>)
    requires forall x :: x in s ==> x in keep
    ensures Filter(s, keep) == s
  {
    if s != [] {
      assert s[0] in s;
      FilterAll(s[1..], keep);
      assert s == [s[0]] + s[1..];
    }
  }

  lemma {:induction false} FilterNone<T>(s: seq<T>, keep: set<T>)
    requires forall x :: x in s ==> x !in keep
    ensures Filter(s, keep) == []
  {
    if s != [] {
      assert s[0] in s;
      FilterNone(s[1..], keep);
    }
  }

  lemma {:induction false} FilterAgree<T>(s: seq<T>, a: set<T>, b: set<T>)
    requires forall x :: x in s ==> (x in a <==> x in b)
    ensures Filter(s, a) == Filter(s, b)
  {
    if s != [] {
      assert s[0] in s;
      FilterAgree(s[1..], a, b);
    }
  }

  lemma {:induction false} FilterTwice<T>(s: seq<T>, a: set<T>, b: set<T>)
    ensures Filter(Filter(s, a), b) == Filter(s, a * b)
  {
    if s != [] {
      FilterTwice(s[1..], a, b);
      var f := Filter(s, a);
      if s[0] in a {
        assert f[1..] == Filter(s[1..], a);
      }
    }
  }

  /** Dropping one kept member from the filter removes exactly its position. */
  lemma {:induction false} FilterDrop<T>(s: seq<T>, keep: set<T>, k: nat)
    requires NoDup(s)
    requires k < |Filter(s, keep)|
    ensures Filter(s, keep - {Filter(s, keep)[k]}) == Without(Filter(s, keep), k)
  {
    var f := Filter(s, keep);
    var x := f[k];
    FilterMember(s, keep);
    assert x in f;
    var t := s[1..];
    if s[0] !in keep {
      FilterDrop(t, keep, k);
    } else if k == 0 {
      assert s[0] == x;
      assert x !in t;
      FilterAgree(t, keep, keep - {x});
      assert Without(f, 0) == f[1..] == Filter(t, keep);
    } else {
      var g := Filter(t, keep);
      assert f == [s[0]] + g && g[k - 1] == x;
      FilterMember(t, keep);
      assert x in g;
      assert s[0] !in t;
      FilterDrop(t, keep, k - 1);
      assert Without(f, k) == [s[0]] + Without(g, k - 1);
    }
  }

  lemma {:induction false} FilterRename(s: seq<nat>, m: map<nat, nat>, keep: set<nat>, image: set<nat>)
    requires forall x :: x in s ==> x in m && (x in keep <==> m[x] in image)
    ensures Filter(Rename(s, m), image) == Rename(Filter(s, keep), m)
  {
    if s != [] {
      assert s[0] in s;
      var t := s[1..];
      FilterRename(t, m, keep, image);
      assert Rename(s, m)[1..] == Rename(t, m);
      if s[0] in keep {
        assert Rename([s[0]] + Filter(t, keep), m) == [m[s[0]]] + Rename(Filter(t, keep), m);
      }
    }
  }

  lemma NoDupMore<T>(s: seq<T>, x: T)
    requires NoDup(s) && x !in s
    ensures NoDup(s + [x]) && forall y :: y in s + [x] <==> y in s || y == x
  {
  }

  lemma ElemsCard<T>(s: seq<T>)
    requires NoDup(s)
    ensures |Elems(s)| == |s|
    decreases |s|
  {
    if s == [] {
      assert Elems(s) == {};
    } else {
      var t := s[..|s| - 1];
      ElemsCard(t);
      var x := s[|s| - 1];
      assert s == t + [x];
      assert x !in t;
      assert Elems(s) == Elems(t) + {x};
    }
  }

  lemma PrefixElems<T>(s: seq<T>, i: nat)
    requires i < |s|
    ensures Elems(s[..i + 1]) == Elems(s[..i]) + {s[i]}
  {
    assert s[..i + 1] == s[..i] + [s[i]];
  }

  lemma SubsetCard<T>(a: set<T>, b: set<T>)
    requires a <= b
    ensures |a| <= |b|
    ensures |a| == |b| ==> a == b
  {
    assert b == a + (b - a);
    assert |b| == |a| + |b - a|;
  }

  /** One map after another, where both apply. */
  ghost function Then<T>(f: map<T, T>, g: map<T, T>): (h: map<T, T>)
    ensures h.Keys == set x | x in f && f[x] in g
    ensures forall x :: x in h ==> h[x] == g[f[x]]
  {
    map x | x in f && f[x] in g :: g[f[x]]
  }

  lemma ThenKeys<T>(f: map<T, T>, g: map<T, T>)
    requires g.Keys == f.Values
    ensures Then(f, g).Keys == f.Keys
  {
    forall x | x in f ensures f[x] in g {
      assert f[x] in f.Values;
    }
  }

  lemma ImageCard(xs: set<nat>, l: map<nat, nat>)
    requires forall x :: x in xs ==> x in l
    requires forall x, y :: x in xs && y in xs && l[x] == l[y] ==> x == y
    ensures |set x | x in xs :: l[x]| == |xs|
  {
    if xs != {} {
      var x :| x in xs;
      var rest := xs - {x};
      ImageCard(rest, l);
      assert (set y | y in xs :: l[y]) == (set y | y in rest :: l[y]) + {l[x]};
    }
  }

  lemma ValuesCard(f: map<nat, nat>)
    requires forall x, y :: x in f && y in f && f[x] == f[y] ==> x == y
    ensures |f.Values| == |f|
  {
    ImageCard(f.Keys, f);
    assert f.Values == set x | x in f.Keys :: f[x];
    assert |f| == |f.Keys|;
  }
}
