/** Connected components of the undirected view that the text renderer lays out one by one
    (`src/convert/aa.rs`). */
module WeakComponents {
  import opened Seqs
  import opened Vec
  import opened Graphs
  import opened Layers

  // ----- adjacency -----

  ghost predicate TouchedBy(edges: seq<RenderEdge>, k: nat, u: nat, v: nat) {
    k < |edges| && ((edges[k].from == u && edges[k].to == v) || (edges[k].to == u && edges[k].from == v))
  }

  /** One of the first `k` edges joins `u` and `v`. */
  ghost predicate Touches(edges: seq<RenderEdge>, k: nat, u: nat, v: nat) {
    exists i: nat :: i < k && TouchedBy(edges, i, u, v)
  }

  ghost predicate IsAdjacent(edges: seq<RenderEdge>, k: nat, adjacency: Lists) {
    forall u: nat, v: nat {:trigger Touches(edges, k, u, v)} :: u < |adjacency| ==>
      (v in adjacency[u] <==> Touches(edges, k, u, v))
  }

  function WithNeighbor(adjacency: Lists, u: nat, v: nat): (r: Lists)
    requires u < |adjacency|
    ensures |r| == |adjacency|
    ensures forall x: nat, y: nat {:trigger y in r[x]} :: x < |r| ==>
              (y in r[x] <==> y in adjacency[x] || (x == u && y == v))
    ensures (forall x :: 0 <= x < |adjacency| ==> NoDup(adjacency[x])) ==> forall x :: 0 <= x < |r| ==> NoDup(r[x])
  {
    if v in adjacency[u] then adjacency
    else
      assert forall i :: 0 <= i < |adjacency[u]| ==> adjacency[u][i] in adjacency[u];
      adjacency[u := adjacency[u] + [v]]
  }

  /** `adjacency`: every neighbor once, in ascending order. */
  method Adjacency(nodeCount: nat, edges: seq<RenderEdge>) returns (adjacency: Lists)
    requires forall k :: 0 <= k < |edges| ==> edges[k].from < nodeCount && edges[k].to < nodeCount
    ensures |adjacency| == nodeCount && IsAdjacent(edges, |edges|, adjacency)
    ensures forall u :: 0 <= u < nodeCount ==> Upward(adjacency[u])
    ensures IsUndirected(adjacency)
  {
    adjacency := seq(nodeCount, _ => []);
    for k := 0 to |edges|
      invariant |adjacency| == nodeCount && IsAdjacent(edges, k, adjacency)
      invariant forall u :: 0 <= u < nodeCount ==> NoDup(adjacency[u])
    {
      ghost var before := adjacency;
      adjacency := WithNeighbor(adjacency, edges[k].from, edges[k].to);
      adjacency := WithNeighbor(adjacency, edges[k].to, edges[k].from);
      AdjacentNext(edges, k, before, adjacency);
    }
    for u := 0 to nodeCount
      invariant |adjacency| == nodeCount && IsAdjacent(edges, |edges|, adjacency)
      invariant forall x :: 0 <= x < u ==> Upward(adjacency[x])
      invariant forall x :: u <= x < nodeCount ==> NoDup(adjacency[x])
    {
      AscendingFacts(adjacency[u]);
      adjacency := adjacency[u := Ascending(adjacency[u])];
    }
    AdjacentBothWays(edges, adjacency);
  }

  lemma AdjacentNext(edges: seq<RenderEdge>, k: nat, before: Lists, after: Lists)
    requires k < |edges| && |after| == |before| && IsAdjacent(edges, k, before)
    requires forall x: nat, y: nat {:trigger y in after[x]} :: x < |after| ==>
               (y in after[x] <==> y in before[x] || TouchedBy(edges, k, x, y))
    ensures IsAdjacent(edges, k + 1, after)
  {
    forall u: nat, v: nat | u < |after| ensures v in after[u] <==> Touches(edges, k + 1, u, v) {
      assert v in before[u] <==> Touches(edges, k, u, v);
      if Touches(edges, k + 1, u, v) {
        var i: nat :| i < k + 1 && TouchedBy(edges, i, u, v);
        assert i < k || TouchedBy(edges, k, u, v);
      }
    }
  }

  lemma AdjacentBothWays(edges: seq<RenderEdge>, adjacency: Lists)
    requires forall k :: 0 <= k < |edges| ==> edges[k].from < |adjacency| && edges[k].to < |adjacency|
    requires IsAdjacent(edges, |edges|, adjacency)
    ensures IsUndirected(adjacency)
  {
    forall u: nat, v: nat {:trigger v in adjacency[u]} | u < |adjacency| && v in adjacency[u]
      ensures v < |adjacency| && u in adjacency[v]
    {
      assert Touches(edges, |edges|, u, v);
      var i: nat :| i < |edges| && TouchedBy(edges, i, u, v);
      assert TouchedBy(edges, i, v, u);
      assert Touches(edges, |edges|, v, u);
    }
  }

  // ----- components -----

  ghost predicate IsUndirected(adjacency: Lists) {
    forall u: nat, v: nat {:trigger v in adjacency[u]} :: u < |adjacency| && v in adjacency[u] ==>
      v < |adjacency| && u in adjacency[v]
  }

  ghost function Links(adjacency: Lists): Rel {
    set u: nat, v: nat | u < |adjacency| && v < |adjacency| && v in adjacency[u] :: (u, v)
  }

  /** Component `k` holds just the nodes its members are connected with. */
  ghost predicate IsClass(adjacency: Lists, components: Lists, k: nat) {
    && k < |components| && components[k] != [] && NoDup(components[k])
    && (forall v: nat :: v in components[k] ==> v < |adjacency|)
    && forall u: nat, v: nat {:trigger Reach(Links(adjacency), u, v)} ::
         u in components[k] && v < |adjacency| ==> (v in components[k] <==> Reach(Links(adjacency), u, v))
  }

  /** `v` comes first among the nodes outside `seen`: the greatest number of neighbors, and of those
      with as many the least number. */
  ghost predicate IsRoot(adjacency: Lists, seen: set<nat>, v: nat) {
    && v < |adjacency| && v !in seen
    && forall w: nat {:trigger adjacency[w]} :: w < |adjacency| && w !in seen ==>
         |adjacency[w]| < |adjacency[v]| || (|adjacency[w]| == |adjacency[v]| && v <= w)
  }

  /** Member `k` is the entry `at[k]` of the list of member `par[k]`, and of no list and no entry
      before that. */
  ghost predicate CameFrom(adjacency: Lists, c: seq<nat>, par: seq<nat>, at: seq<nat>, k: nat) {
    && k < |c| == |par| == |at| && par[k] < k && c[par[k]] < |adjacency|
    && at[k] < |adjacency[c[par[k]]]| && adjacency[c[par[k]]][at[k]] == c[k]
    && (forall j {:trigger c[j]} :: 0 <= j < par[k] && c[j] < |adjacency| ==> c[k] !in adjacency[c[j]])
    && forall i {:trigger adjacency[c[par[k]]][i]} :: 0 <= i < at[k] ==> adjacency[c[par[k]]][i] != c[k]
  }

  ghost predicate Sooner(par: seq<nat>, at: seq<nat>, k: nat, l: nat) {
    k < |par| == |at| && l < |par| && (par[k] < par[l] || (par[k] == par[l] && at[k] < at[l]))
  }

  /** All members but the first stand in the order of where they came from. */
  ghost predicate Parents(adjacency: Lists, c: seq<nat>, par: seq<nat>, at: seq<nat>) {
    && |par| == |at| == |c|
    && (forall k: nat {:trigger CameFrom(adjacency, c, par, at, k)} ::
          1 <= k < |c| ==> CameFrom(adjacency, c, par, at, k))
    && forall k: nat, l: nat {:trigger Sooner(par, at, k, l)} :: 1 <= k < l < |c| ==> Sooner(par, at, k, l)
  }

  ghost predicate IsBreadthFirst(adjacency: Lists, c: seq<nat>) {
    exists par: seq<nat>, at: seq<nat> :: Parents(adjacency, c, par, at)
  }

  /** What has been found came from before entry `i` of the list of member `p`. */
  ghost predicate Upto(adjacency: Lists, c: seq<nat>, par: seq<nat>, at: seq<nat>, p: nat, i: nat) {
    && Parents(adjacency, c, par, at)
    && forall k {:trigger par[k]} :: 1 <= k < |c| ==> par[k] < p || (par[k] == p && at[k] < i)
  }

  lemma ParentsNext(adjacency: Lists, c: seq<nat>, par: seq<nat>, at: seq<nat>, p: nat, i: nat, x: nat)
    requires Upto(adjacency, c, par, at, p, i) && p < |c| && c[p] < |adjacency|
    requires i < |adjacency[c[p]]| && adjacency[c[p]][i] == x
    requires forall j {:trigger c[j]} :: 0 <= j < p && c[j] < |adjacency| ==> x !in adjacency[c[j]]
    requires forall j :: 0 <= j < i ==> adjacency[c[p]][j] != x
    ensures Upto(adjacency, c + [x], par + [p], at + [i], p, i + 1)
  {
    var c', par', at' := c + [x], par + [p], at + [i];
    forall k: nat | 1 <= k < |c'| ensures CameFrom(adjacency, c', par', at', k) {
      if k < |c| {
        assert CameFrom(adjacency, c, par, at, k);
        assert c'[par[k]] == c[par[k]];
      }
    }
    forall k: nat, l: nat | 1 <= k < l < |c'| ensures Sooner(par', at', k, l) {
      assert par'[k] == par[k] && at'[k] == at[k];
      assert l < |c| ==> Sooner(par, at, k, l);
    }
  }

  // ----- what the order means -----

  /** How many members back it is to the first. */
  ghost function Depth(par: seq<nat>, k: nat): nat {
    if k == 0 || k >= |par| || par[k] >= k then 0 else Depth(par, par[k]) + 1
  }

  /** The distance never falls along the component. */
  lemma {:induction false} DepthRises(adjacency: Lists, c: seq<nat>, par: seq<nat>, at: seq<nat>, k: nat, l: nat)
    requires Parents(adjacency, c, par, at) && k <= l < |c|
    ensures Depth(par, k) <= Depth(par, l)
    decreases l
  {
    if 0 < k < l {
      assert CameFrom(adjacency, c, par, at, k) && CameFrom(adjacency, c, par, at, l) && Sooner(par, at, k, l);
      DepthRises(adjacency, c, par, at, par[k], par[l]);
    }
  }

  /** No way from the first member is shorter than the depth. */
  lemma {:induction false} DepthIsLeast(adjacency: Lists, c: seq<nat>, par: seq<nat>, at: seq<nat>, p: seq<nat>, k: nat)
    requires Parents(adjacency, c, par, at) && NoDup(c) && k < |c|
    requires forall u, v :: (u, v) in Links(adjacency) && u in c ==> v in c
    requires PathFrom(Links(adjacency), p, c[0], c[k])
    ensures Depth(par, k) < |p|
    decreases |p|
  {
    if k > 0 {
      var q := p[..|p| - 1];
      var u := p[|p| - 2];
      assert PathFrom(Links(adjacency), q, c[0], u) && (u, c[k]) in Links(adjacency);
      forall a, b | (a, b) in Links(adjacency) && a in Elems(c) ensures b in Elems(c) {
      }
      ReachStays(Links(adjacency), Elems(c), c[0], u);
      var j :| 0 <= j < |c| && c[j] == u;
      DepthIsLeast(adjacency, c, par, at, q, j);
      assert CameFrom(adjacency, c, par, at, k) && par[k] <= j;
      DepthRises(adjacency, c, par, at, par[k], j);
    }
  }

  /** And a way of just that length exists. */
  lemma {:induction false} DepthIsAttained(adjacency: Lists, c: seq<nat>, par: seq<nat>, at: seq<nat>, k: nat)
    returns (p: seq<nat>)
    requires Parents(adjacency, c, par, at) && k < |c| && forall v: nat :: v in c ==> v < |adjacency|
    ensures PathFrom(Links(adjacency), p, c[0], c[k]) && |p| == Depth(par, k) + 1
    decreases k
  {
    if k == 0 {
      p := [c[0]];
    } else {
      assert CameFrom(adjacency, c, par, at, k);
      var q := DepthIsAttained(adjacency, c, par, at, par[k]);
      p := q + [c[k]];
      assert c[k] in c && c[par[k]] in c && (c[par[k]], c[k]) in Links(adjacency);
      assert IsPath(Links(adjacency), p);
    }
  }

  lemma SameOrigin(adjacency: Lists, c: seq<nat>, par: seq<nat>, at: seq<nat>, c': seq<nat>, par': seq<nat>,
                   at': seq<nat>, n: nat, k: nat, l: nat)
    requires Parents(adjacency, c, par, at) && Parents(adjacency, c', par', at')
    requires n <= |c| && n <= |c'| && c[..n] == c'[..n] && 1 <= k < |c| && 1 <= l < |c'| && c[k] == c'[l]
    requires par[k] < n
    ensures par'[l] < par[k] || (par'[l] == par[k] && at'[l] == at[k])
  {
    assert CameFrom(adjacency, c, par, at, k) && CameFrom(adjacency, c', par', at', l);
    assert c[..n][par[k]] == c'[..n][par[k]];
    if par'[l] < n {
      assert c[..n][par'[l]] == c'[..n][par'[l]];
    }
  }

  /** The first member and the set of members decide the order. */
  lemma {:induction false} BreadthFirstOnce(adjacency: Lists, c: seq<nat>, c': seq<nat>, n: nat)
    requires IsBreadthFirst(adjacency, c) && IsBreadthFirst(adjacency, c') && NoDup(c) && NoDup(c')
    requires |c| == |c'| && c != [] && c[0] == c'[0] && (forall x: nat :: x in c <==> x in c') && n <= |c|
    ensures c[..n] == c'[..n]
  {
    if n > 1 {
      var k := n - 1;
      BreadthFirstOnce(adjacency, c, c', k);
      var par: seq<nat>, at: seq<nat> :| Parents(adjacency, c, par, at);
      var par': seq<nat>, at': seq<nat> :| Parents(adjacency, c', par', at');
      assert c[k] in c' && c'[k] in c;
      var l' :| 0 <= l' < |c'| && c'[l'] == c[k];
      var l :| 0 <= l < |c| && c[l] == c'[k];
      NotBefore(c, c', k, l');
      NotBefore(c', c, k, l);
      assert CameFrom(adjacency, c, par, at, k) && CameFrom(adjacency, c', par', at', k);
      SameOrigin(adjacency, c, par, at, c', par', at', k, k, l');
      SameOrigin(adjacency, c', par', at', c, par, at, k, k, l);
      assert l > k ==> Sooner(par, at, k, l);
      assert l' > k ==> Sooner(par', at', k, l');
      assert c[..n] == c[..k] + [c[k]] && c'[..n] == c'[..k] + [c'[k]];
    }
  }

  lemma NotBefore(c: seq<nat>, c': seq<nat>, k: nat, l: nat)
    requires NoDup(c) && k < |c| && k <= |c'| && c[..k] == c'[..k] && l < |c'| && c'[l] == c[k]
    ensures l >= k
  {
    forall j | 0 <= j < k ensures c[j] == c'[j] {
      assert c[..k][j] == c'[..k][j];
    }
  }

  ghost function Union(components: Lists, k: nat): set<nat>
    requires k <= |components|
  {
    if k == 0 then {} else Union(components, k - 1) + Elems(components[k - 1])
  }

  /** Components, each grown from the first node left over by those before. */
  ghost predicate Grown(adjacency: Lists, components: Lists) {
    && (forall k: nat {:trigger IsClass(adjacency, components, k)} :: k < |components| ==>
          IsClass(adjacency, components, k))
    && forall k: nat {:trigger Rooted(adjacency, components, k)} :: k < |components| ==>
         Rooted(adjacency, components, k)
  }

  ghost predicate Rooted(adjacency: Lists, components: Lists, k: nat) {
    && k < |components| && components[k] != [] && IsRoot(adjacency, Union(components, k), components[k][0])
    && (forall v: nat :: v in components[k] ==> v !in Union(components, k))
    && IsBreadthFirst(adjacency, components[k])
  }

  /** The walk from `root` has left the nodes of `component` and still has those of `queue` to leave. */
  ghost predicate Walking(adjacency: Lists, seen0: set<nat>, root: nat, seen: set<nat>, component: seq<nat>,
                          queue: seq<nat>)
  {
    && IsUndirected(adjacency) && root < |adjacency| && root !in seen0 && Closed(Links(adjacency), seen0)
    && seen0 <= seen && (forall x :: x in seen ==> x < |adjacency|)
    && NoDup(component + queue) && (forall x :: x in component + queue <==> x in seen && x !in seen0)
    && component + queue != [] && (component + queue)[0] == root
    && (forall x {:trigger Reach(Links(adjacency), root, x)} :: x in component + queue ==>
          Reach(Links(adjacency), root, x))
    && forall x: nat, y: nat {:trigger y in adjacency[x]} :: x in component && x < |adjacency| && y in adjacency[x] ==>
         y in seen
  }

  lemma UnionKept(components: Lists, more: Lists, k: nat)
    requires k <= |components|
    ensures Union(components + more, k) == Union(components, k)
  {
    if k > 0 {
      UnionKept(components, more, k - 1);
    }
  }

  /** The first unseen node with the most neighbors. */
  method Root(adjacency: Lists, seen: set<nat>) returns (root: nat)
    requires exists v: nat :: v < |adjacency| && v !in seen
    ensures IsRoot(adjacency, seen, root)
  {
    var best: Option<nat> := None;
    for w := 0 to |adjacency|
      invariant best.None? ==> forall v: nat :: v < w ==> v in seen
      invariant best.Some? ==> best.value < w && best.value !in seen
      invariant best.Some? ==> forall v: nat {:trigger adjacency[v]} :: v < w && v !in seen ==>
                  |adjacency[v]| < |adjacency[best.value]|
                  || (|adjacency[v]| == |adjacency[best.value]| && best.value <= v)
    {
      if w !in seen && (best.None? || |adjacency[w]| > |adjacency[best.value]|) {
        best := Some(w);
      }
    }
    root := best.value;
  }

  /** One turn of the walk: the first node of the queue leaves it, its unseen neighbors join it. */
  method Leave(adjacency: Lists, ghost seen0: set<nat>, ghost root: nat, seen0': set<nat>, component0: seq<nat>,
               queue0: seq<nat>, ghost par0: seq<nat>, ghost at0: seq<nat>)
    returns (seen: set<nat>, component: seq<nat>, queue: seq<nat>, ghost par: seq<nat>, ghost at: seq<nat>)
    requires Walking(adjacency, seen0, root, seen0', component0, queue0) && queue0 != []
    requires Upto(adjacency, component0 + queue0, par0, at0, |component0|, 0)
    ensures Walking(adjacency, seen0, root, seen, component, queue) && component == component0 + [queue0[0]]
    ensures Upto(adjacency, component + queue, par, at, |component|, 0)
  {
    var node := queue0[0];
    seen, component, queue := seen0', component0 + [node], queue0[1..];
    par, at := par0, at0;
    assert [node] + queue == queue0;
    assert node in component0 + queue0;
    for i := 0 to |adjacency[node]|
      invariant Walking(adjacency, seen0, root, seen, component0, [node] + queue)
      invariant Upto(adjacency, component0 + ([node] + queue), par, at, |component0|, i)
      invariant forall j :: 0 <= j < i ==> adjacency[node][j] in seen
    {
      var neighbor := adjacency[node][i];
      assert neighbor in adjacency[node];
      if neighbor !in seen {
        Joins(adjacency, seen0, root, seen, component0, [node] + queue, node, neighbor);
        assert [node] + (queue + [neighbor]) == ([node] + queue) + [neighbor];
        NewMember(adjacency, seen0, root, seen, component0, [node] + queue, par, at, i);
        seen := seen + {neighbor};
        queue := queue + [neighbor];
        par, at := par + [|component0|], at + [i];
      }
    }
    assert component + queue == component0 + ([node] + queue);
  }

  lemma NewMember(adjacency: Lists, seen0: set<nat>, root: nat, seen: set<nat>, component: seq<nat>, queue: seq<nat>,
                  par: seq<nat>, at: seq<nat>, i: nat)
    requires Walking(adjacency, seen0, root, seen, component, queue) && queue != [] && queue[0] < |adjacency|
    requires Upto(adjacency, component + queue, par, at, |component|, i)
    requires i < |adjacency[queue[0]]| && adjacency[queue[0]][i] !in seen
    requires forall j :: 0 <= j < i ==> adjacency[queue[0]][j] in seen
    ensures Upto(adjacency, component + (queue + [adjacency[queue[0]][i]]), par + [|component|], at + [i],
                 |component|, i + 1)
  {
    var all, x := component + queue, adjacency[queue[0]][i];
    assert component + (queue + [x]) == all + [x];
    forall j | 0 <= j < |component| && all[j] < |adjacency| ensures x !in adjacency[all[j]] {
      assert all[j] == component[j] && all[j] in component;
    }
    ParentsNext(adjacency, all, par, at, |component|, i, x);
  }

  lemma Joins(adjacency: Lists, seen0: set<nat>, root: nat, seen: set<nat>, component: seq<nat>, queue: seq<nat>,
              node: nat, neighbor: nat)
    requires Walking(adjacency, seen0, root, seen, component, queue)
    requires node in component + queue && node < |adjacency| && neighbor in adjacency[node] && neighbor !in seen
    ensures Walking(adjacency, seen0, root, seen + {neighbor}, component, queue + [neighbor])
  {
    var all, all' := component + queue, component + (queue + [neighbor]);
    assert all' == all + [neighbor];
    assert neighbor !in all;
    ReachStep(Links(adjacency), root, node, neighbor);
  }

  /** A walk that has run out of nodes has found a whole component. */
  lemma WalkDone(adjacency: Lists, components: Lists, root: nat, seen: set<nat>, component: seq<nat>)
    requires Grown(adjacency, components) && IsRoot(adjacency, Union(components, |components|), root)
    requires Walking(adjacency, Union(components, |components|), root, seen, component, [])
    requires IsBreadthFirst(adjacency, component)
    ensures Grown(adjacency, components + [component]) && Union(components + [component], |components| + 1) == seen
    ensures Closed(Links(adjacency), seen)
  {
    var seen0, more := Union(components, |components|), components + [component];
    assert component + [] == component;
    UnionKept(components, [component], |components|);
    assert Elems(component) == seen - seen0;
    WalkClosed(adjacency, seen0, root, seen, component);
    WalkIsClass(adjacency, seen0, root, seen, component, more);
    assert Rooted(adjacency, more, |components|);
    GrownMore(adjacency, components, component);
  }

  lemma GrownMore(adjacency: Lists, components: Lists, component: seq<nat>)
    requires Grown(adjacency, components)
    requires IsClass(adjacency, components + [component], |components|)
    requires Rooted(adjacency, components + [component], |components|)
    ensures Grown(adjacency, components + [component])
  {
    var more := components + [component];
    forall k: nat | k < |more| ensures IsClass(adjacency, more, k) {
      if k < |components| {
        assert IsClass(adjacency, components, k);
        ClassKept(adjacency, components, component, k);
      }
    }
    forall k: nat | k < |more| ensures Rooted(adjacency, more, k) {
      if k < |components| {
        assert Rooted(adjacency, components, k);
        UnionKept(components, [component], k);
      }
    }
  }

  lemma ClassKept(adjacency: Lists, components: Lists, component: seq<nat>, k: nat)
    requires IsClass(adjacency, components, k)
    ensures IsClass(adjacency, components + [component], k)
  {
    assert (components + [component])[k] == components[k];
  }

  lemma WalkClosed(adjacency: Lists, seen0: set<nat>, root: nat, seen: set<nat>, component: seq<nat>)
    requires Walking(adjacency, seen0, root, seen, component, [])
    ensures Closed(Links(adjacency), seen) && Closed(Links(adjacency), Elems(component))
  {
    assert component + [] == component;
    forall x, y | (x, y) in Links(adjacency) && x in seen ensures y in seen {
      assert x in component || x in seen0;
    }
    forall x, y | (x, y) in Links(adjacency) && x in Elems(component) ensures y in Elems(component) {
      assert y in seen && (y, x) in Links(adjacency);
    }
  }

  lemma WalkIsClass(adjacency: Lists, seen0: set<nat>, root: nat, seen: set<nat>, component: seq<nat>, more: Lists)
    requires Walking(adjacency, seen0, root, seen, component, []) && |more| > 0 && more[|more| - 1] == component
    ensures IsClass(adjacency, more, |more| - 1)
  {
    var r := Links(adjacency);
    assert component + [] == component;
    WalkClosed(adjacency, seen0, root, seen, component);
    forall u: nat, v: nat | u in component && v < |adjacency| ensures v in component <==> Reach(r, u, v) {
      if v in component {
        ReachSym(r, root, u);
        ReachTrans(r, u, root, v);
      } else if Reach(r, u, v) {
        ReachStays(r, Elems(component), u, v);
      }
    }
  }

  /** `weak_components`. */
  method Components(adjacency: Lists) returns (components: Lists)
    requires IsUndirected(adjacency)
    ensures Grown(adjacency, components) && Union(components, |components|) == Below(|adjacency|)
  {
    components := [];
    var seen: set<nat> := {};
    while exists v: nat :: v < |adjacency| && v !in seen
      invariant Grown(adjacency, components) && seen == Union(components, |components|)
      invariant seen <= Below(|adjacency|) && Closed(Links(adjacency), seen)
      decreases Below(|adjacency|) - seen
    {
      var root := Root(adjacency, seen);
      ghost var seen0 := seen;
      var component;
      seen, component := Walk(adjacency, seen, root);
      assert root in component + [] by {
        assert (component + [])[0] == root;
      }
      WalkDone(adjacency, components, root, seen, component);
      components := components + [component];
    }
  }

  method Walk(adjacency: Lists, seen0: set<nat>, root: nat) returns (seen: set<nat>, component: seq<nat>)
    requires IsUndirected(adjacency) && root < |adjacency| && root !in seen0 && Closed(Links(adjacency), seen0)
    requires forall x :: x in seen0 ==> x < |adjacency|
    ensures Walking(adjacency, seen0, root, seen, component, []) && IsBreadthFirst(adjacency, component)
  {
    seen, component := seen0 + {root}, [];
    var queue := [root];
    ghost var par, at := [0], [0];
    ReachRefl(Links(adjacency), root);
    assert Parents(adjacency, component + queue, par, at);
    while queue != []
      invariant Walking(adjacency, seen0, root, seen, component, queue)
      invariant Upto(adjacency, component + queue, par, at, |component|, 0)
      decreases |adjacency| - |component|
    {
      ComponentBound(adjacency, seen0, root, seen, component, queue);
      seen, component, queue, par, at := Leave(adjacency, seen0, root, seen, component, queue, par, at);
    }
    assert component + [] == component;
  }

  lemma ComponentBound(adjacency: Lists, seen0: set<nat>, root: nat, seen: set<nat>, component: seq<nat>,
                       queue: seq<nat>)
    requires Walking(adjacency, seen0, root, seen, component, queue) && queue != []
    ensures |component| < |adjacency|
  {
    ElemsCard(component + queue);
    SubsetCard(Elems(component + queue), Below(|adjacency|));
  }

  /** Every node has its component, and two nodes share one just when they are connected. */
  lemma ComponentsPartition(adjacency: Lists, components: Lists)
    requires Grown(adjacency, components) && Union(components, |components|) == Below(|adjacency|)
    ensures forall v: nat {:trigger HasComponent(components, v)} :: v < |adjacency| ==> HasComponent(components, v)
    ensures forall j: nat, k: nat, u: nat, v: nat {:trigger Member(components, j, u), Member(components, k, v)} ::
              Member(components, j, u) && Member(components, k, v) ==> (j == k <==> Reach(Links(adjacency), u, v))
  {
    forall v: nat | v < |adjacency| ensures HasComponent(components, v) {
      var k := MemberOf(components, |components|, v);
      assert Member(components, k, v);
    }
    forall j: nat, k: nat, u: nat, v: nat | Member(components, j, u) && Member(components, k, v)
      ensures j == k <==> Reach(Links(adjacency), u, v)
    {
      assert IsClass(adjacency, components, j) && IsClass(adjacency, components, k);
      assert v in components[j] <==> Reach(Links(adjacency), u, v);
      assert Rooted(adjacency, components, j) && Rooted(adjacency, components, k);
      if j < k {
        EarlierIn(components, j, k, v);
      } else if k < j {
        EarlierIn(components, k, j, v);
      }
    }
  }

  ghost predicate Member(components: Lists, k: nat, v: nat) {
    k < |components| && v in components[k]
  }

  ghost predicate HasComponent(components: Lists, v: nat) {
    exists k: nat :: Member(components, k, v)
  }

  lemma MemberOf(components: Lists, n: nat, v: nat) returns (k: nat)
    requires n <= |components| && v in Union(components, n)
    ensures k < n && v in components[k]
  {
    if v in components[n - 1] {
      k := n - 1;
    } else {
      k := MemberOf(components, n - 1, v);
    }
  }

  /** What an earlier component holds, no later one does. */
  lemma EarlierIn(components: Lists, j: nat, k: nat, v: nat)
    requires j < k <= |components|
    ensures v in components[j] ==> v in Union(components, k)
  {
    if j < k - 1 {
      EarlierIn(components, j, k - 1, v);
    }
  }
}
