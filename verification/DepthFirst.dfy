/** Depth-first search by recursion: the reference the searches with a stack of their own are
    held to (`src/algo/connectivity.rs`, `src/algo/bridges.rs`, `src/convert/aa.rs`). */
module DepthFirst {
  import opened Seqs

  /** The nodes a search meets, in the order it meets them, and the same nodes as it leaves them. */
  datatype Visit = Visit(met: seq<nat>, left: seq<nat>)

  /** A node of the search with the neighbors it has still to try. */
  datatype Open = Open(node: nat, todo: seq<nat>)

  ghost function Numbers(n: nat): (r: seq<nat>)
    ensures |r| == n && forall k :: 0 <= k < n ==> r[k] == k
  {
    seq(n, k requires 0 <= k < n => k)
  }

  ghost predicate Fits(lists: Lists, allowed: set<nat>) {
    forall v :: v in allowed ==> v < |lists|
  }

  lemma FewerUnseen(allowed: set<nat>, seen: set<nat>, more: set<nat>, v: nat)
    requires v in allowed && v !in seen && v in more
    ensures |allowed - (seen + more)| < |allowed - seen|
  {
    SubsetCard(allowed - (seen + more), allowed - seen - {v});
  }

  /** Try the nodes of `todo` in turn: one that is new is met, then all that is found from it, then
      it is left. */
  ghost function Explore(lists: Lists, allowed: set<nat>, todo: seq<nat>, seen: set<nat>): Visit
    requires Fits(lists, allowed)
    decreases |allowed - seen|, |todo|
  {
    if todo == [] then Visit([], [])
    else if todo[0] !in allowed || todo[0] in seen then Explore(lists, allowed, todo[1..], seen)
    else
      var v := todo[0];
      FewerUnseen(allowed, seen, {v}, v);
      var inner := Explore(lists, allowed, lists[v], seen + {v});
      FewerUnseen(allowed, seen, {v} + Elems(inner.met), v);
      var rest := Explore(lists, allowed, todo[1..], seen + ({v} + Elems(inner.met)));
      Visit([v] + inner.met + rest.met, inner.left + [v] + rest.left)
  }

  /** Every node is met once and left once, and none that was seen before. */
  lemma {:induction false} ExploreOnce(lists: Lists, allowed: set<nat>, todo: seq<nat>, seen: set<nat>)
    requires Fits(lists, allowed)
    ensures var v := Explore(lists, allowed, todo, seen);
            && NoDup(v.met) && NoDup(v.left) && (forall x: nat :: x in v.left <==> x in v.met)
            && forall x :: x in v.met ==> x in allowed && x !in seen
    decreases |allowed - seen|, |todo|
  {
    if todo == [] {
    } else if todo[0] !in allowed || todo[0] in seen {
      ExploreOnce(lists, allowed, todo[1..], seen);
    } else {
      var v := todo[0];
      FewerUnseen(allowed, seen, {v}, v);
      ExploreOnce(lists, allowed, lists[v], seen + {v});
      var inner := Explore(lists, allowed, lists[v], seen + {v});
      FewerUnseen(allowed, seen, {v} + Elems(inner.met), v);
      ExploreOnce(lists, allowed, todo[1..], seen + ({v} + Elems(inner.met)));
      var rest := Explore(lists, allowed, todo[1..], seen + ({v} + Elems(inner.met)));
      assert forall x :: x in rest.met ==> x != v && x !in inner.met;
      NoDupJoin([v], inner.met);
      NoDupJoin([v] + inner.met, rest.met);
      NoDupJoin(inner.left, [v]);
      NoDupJoin(inner.left + [v], rest.left);
    }
  }

  lemma NoDupJoin(a: seq<nat>, b: seq<nat>)
    requires NoDup(a) && NoDup(b) && forall x :: x in a ==> x !in b
    ensures NoDup(a + b)
  {
    var s := a + b;
    forall i, j | 0 <= i < j < |s| ensures s[i] != s[j] {
      assert i < |a| ==> s[i] in a;
      assert j >= |a| ==> s[j] in b;
    }
  }

  /** What a search has still to meet and leave: frames open, the innermost last, and roots to try. */
  ghost function Ahead(lists: Lists, allowed: set<nat>, frames: seq<Open>, roots: seq<nat>, seen: set<nat>): Visit
    requires Fits(lists, allowed)
    decreases |frames|
  {
    if frames == [] then Explore(lists, allowed, roots, seen)
    else
      var top := frames[|frames| - 1];
      var inner := Explore(lists, allowed, top.todo, seen);
      var rest := Ahead(lists, allowed, frames[..|frames| - 1], roots, seen + Elems(inner.met));
      Visit(inner.met + rest.met, inner.left + [top.node] + rest.left)
  }

  ghost predicate LiesAhead(lists: Lists, allowed: set<nat>, frames: seq<Open>, roots: seq<nat>, met: seq<nat>,
                            rest: Visit)
    requires Fits(lists, allowed)
  {
    rest == Ahead(lists, allowed, frames, roots, Elems(met))
  }

  ghost predicate Completes(lists: Lists, allowed: set<nat>, start: seq<nat>, met: seq<nat>, left: seq<nat>,
                            rest: Visit)
    requires Fits(lists, allowed)
  {
    Explore(lists, allowed, start, {}) == Visit(met + rest.met, left + rest.left)
  }

  /** What has been met and left, with what lies ahead, is the recursive search from all roots. */
  ghost predicate OnCourse(lists: Lists, allowed: set<nat>, start: seq<nat>, met: seq<nat>, left: seq<nat>,
                           frames: seq<Open>, roots: seq<nat>)
  {
    && Fits(lists, allowed)
    && forall rest {:trigger LiesAhead(lists, allowed, frames, roots, met, rest)} ::
         LiesAhead(lists, allowed, frames, roots, met, rest) ==> Completes(lists, allowed, start, met, left, rest)
  }

  lemma CourseFrom(lists: Lists, allowed: set<nat>, start: seq<nat>, met: seq<nat>, left: seq<nat>,
                   frames: seq<Open>, roots: seq<nat>)
    requires OnCourse(lists, allowed, start, met, left, frames, roots)
    ensures Completes(lists, allowed, start, met, left, Ahead(lists, allowed, frames, roots, Elems(met)))
  {
    assert LiesAhead(lists, allowed, frames, roots, met, Ahead(lists, allowed, frames, roots, Elems(met)));
  }

  lemma CourseBegins(lists: Lists, allowed: set<nat>, start: seq<nat>)
    requires Fits(lists, allowed)
    ensures OnCourse(lists, allowed, start, [], [], [], start)
  {
    assert Elems<nat>([]) == {};
  }

  lemma RootPassed(lists: Lists, allowed: set<nat>, start: seq<nat>, met: seq<nat>, left: seq<nat>, roots: seq<nat>)
    requires OnCourse(lists, allowed, start, met, left, [], roots) && roots != []
    requires roots[0] !in allowed || roots[0] in met
    ensures OnCourse(lists, allowed, start, met, left, [], roots[1..])
  {
    CourseFrom(lists, allowed, start, met, left, [], roots);
  }

  /** Roots met already are passed over. */
  lemma {:induction false} RootsPassed(lists: Lists, allowed: set<nat>, start: seq<nat>, met: seq<nat>, left: seq<nat>,
                                       n: nat, i: nat, j: nat)
    requires i <= j <= n && OnCourse(lists, allowed, start, met, left, [], Numbers(n)[i..])
    requires forall v: nat :: i <= v < j ==> v in met
    ensures OnCourse(lists, allowed, start, met, left, [], Numbers(n)[j..])
    decreases j
  {
    if i < j {
      var roots := Numbers(n)[j - 1..];
      RootsPassed(lists, allowed, start, met, left, n, i, j - 1);
      assert roots[0] == j - 1 && roots[1..] == Numbers(n)[j..];
      RootPassed(lists, allowed, start, met, left, roots);
    }
  }

  lemma RootMet(lists: Lists, allowed: set<nat>, start: seq<nat>, met: seq<nat>, left: seq<nat>, roots: seq<nat>)
    requires OnCourse(lists, allowed, start, met, left, [], roots) && roots != []
    requires roots[0] in allowed && roots[0] !in met
    ensures OnCourse(lists, allowed, start, met + [roots[0]], left, [Open(roots[0], lists[roots[0]])], roots[1..])
  {
    CourseFrom(lists, allowed, start, met, left, [], roots);
    var v, seen := roots[0], Elems(met);
    var frames := [Open(v, lists[v])];
    var inner := Explore(lists, allowed, lists[v], seen + {v});
    assert Elems(met + [v]) == seen + {v};
    assert seen + {v} + Elems(inner.met) == seen + ({v} + Elems(inner.met));
    assert frames[..0] == [];
    var rest := Explore(lists, allowed, roots[1..], seen + {v} + Elems(inner.met));
    assert Ahead(lists, allowed, frames, roots[1..], seen + {v})
        == Visit(inner.met + rest.met, inner.left + [v] + rest.left);
    assert met + ([v] + inner.met + rest.met) == met + [v] + (inner.met + rest.met);
  }

  lemma NeighborPassed(lists: Lists, allowed: set<nat>, start: seq<nat>, met: seq<nat>, left: seq<nat>,
                       frames: seq<Open>, roots: seq<nat>, frames': seq<Open>)
    requires OnCourse(lists, allowed, start, met, left, frames, roots) && frames != []
    requires var top := frames[|frames| - 1];
             && top.todo != [] && (top.todo[0] !in allowed || top.todo[0] in met)
             && frames' == frames[..|frames| - 1] + [top.(todo := top.todo[1..])]
    ensures OnCourse(lists, allowed, start, met, left, frames', roots)
  {
    CourseFrom(lists, allowed, start, met, left, frames, roots);
    assert frames'[..|frames'| - 1] == frames[..|frames| - 1];
  }

  lemma NeighborMet(lists: Lists, allowed: set<nat>, start: seq<nat>, met: seq<nat>, left: seq<nat>,
                    frames: seq<Open>, roots: seq<nat>, frames': seq<Open>)
    requires OnCourse(lists, allowed, start, met, left, frames, roots) && frames != []
    requires var top := frames[|frames| - 1];
             && top.todo != [] && top.todo[0] in allowed && top.todo[0] !in met
             && frames' == frames[..|frames| - 1] + [top.(todo := top.todo[1..]), Open(top.todo[0], lists[top.todo[0]])]
    ensures OnCourse(lists, allowed, start, met + [frames[|frames| - 1].todo[0]], left, frames', roots)
  {
    CourseFrom(lists, allowed, start, met, left, frames, roots);
    var top, lower, seen := frames[|frames| - 1], frames[..|frames| - 1], Elems(met);
    var v, todo := top.todo[0], top.todo[1..];
    var inner := Explore(lists, allowed, lists[v], seen + {v});
    assert Elems(met + [v]) == seen + {v};
    var rest := Explore(lists, allowed, todo, seen + ({v} + Elems(inner.met)));
    assert seen + {v} + Elems(inner.met) == seen + ({v} + Elems(inner.met));
    var below := Ahead(lists, allowed, lower, roots, seen + {v} + Elems(inner.met) + Elems(rest.met));
    var all := Explore(lists, allowed, top.todo, seen);
    assert seen + Elems(all.met) == seen + {v} + Elems(inner.met) + Elems(rest.met);
    var nested := frames'[..|frames'| - 1];
    assert nested == lower + [top.(todo := todo)] && nested[..|nested| - 1] == lower;
    assert Ahead(lists, allowed, nested, roots, seen + {v} + Elems(inner.met))
        == Visit(rest.met + below.met, rest.left + [top.node] + below.left);
    assert Ahead(lists, allowed, frames', roots, seen + {v})
        == Visit(inner.met + (rest.met + below.met), inner.left + [v] + (rest.left + [top.node] + below.left));
    assert met + (all.met + below.met) == met + [v] + (inner.met + (rest.met + below.met));
    assert all.left + [top.node] + below.left == inner.left + [v] + (rest.left + [top.node] + below.left);
  }

  lemma NodeLeft(lists: Lists, allowed: set<nat>, start: seq<nat>, met: seq<nat>, left: seq<nat>, frames: seq<Open>,
                 roots: seq<nat>)
    requires OnCourse(lists, allowed, start, met, left, frames, roots) && frames != []
    requires frames[|frames| - 1].todo == []
    ensures OnCourse(lists, allowed, start, met, left + [frames[|frames| - 1].node], frames[..|frames| - 1], roots)
  {
    CourseFrom(lists, allowed, start, met, left, frames, roots);
    assert Elems(met) + Elems<nat>([]) == Elems(met);
  }

  lemma CourseEnds(lists: Lists, allowed: set<nat>, start: seq<nat>, met: seq<nat>, left: seq<nat>)
    requires OnCourse(lists, allowed, start, met, left, [], [])
    ensures Explore(lists, allowed, start, {}) == Visit(met, left)
  {
    CourseFrom(lists, allowed, start, met, left, [], []);
  }
}
