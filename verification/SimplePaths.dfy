/** All simple paths between two nodes (`src/algo/simple_paths.rs`). */
module SimplePaths {
  import opened Seqs
  import opened Vec
  import opened Graphs

  // ----- positions in dictionary order -----

  predicate Lex(a: seq<nat>, b: seq<nat>) {
    if b == [] then false
    else if a == [] then true
    else a[0] < b[0] || (a[0] == b[0] && Lex(a[1..], b[1..]))
  }

  predicate HasPrefix(a: seq<nat>, q: seq<nat>) {
    |q| <= |a| && a[..|q|] == q
  }

  lemma {:induction false} LexBump(x: seq<nat>, a: seq<nat>, q: nat)
    ensures Lex(x, a + [q + 1]) <==> Lex(x, a + [q]) || HasPrefix(x, a + [q])
  {
    if a == [] {
      if x != [] {
        assert HasPrefix(x, [q]) <==> x[0] == q;
      }
    } else {
      assert (a + [q])[1..] == a[1..] + [q] && (a + [q + 1])[1..] == a[1..] + [q + 1];
      if x != [] {
        LexBump(x[1..], a[1..], q);
        PrefixTail(x, a + [q]);
      }
    }
  }

  lemma PrefixTail(x: seq<nat>, q: seq<nat>)
    requires x != [] && q != []
    ensures HasPrefix(x, q) <==> x[0] == q[0] && HasPrefix(x[1..], q[1..])
  {
    if |q| <= |x| {
      assert x[..|q|][1..] == x[1..][..|q| - 1];
      assert q == [q[0]] + q[1..] && x[..|q|] == [x[0]] + x[1..][..|q| - 1];
    }
  }

  lemma {:induction false} LexExtend(x: seq<nat>, q: seq<nat>, i: nat)
    ensures Lex(x, q) ==> Lex(x, q + [i])
    ensures Lex(x, q + [i]) ==> Lex(x, q) || HasPrefix(x, q)
    ensures i == 0 ==> (Lex(x, q + [i]) <==> Lex(x, q) || x == q)
  {
    if q == [] {
      assert HasPrefix(x, q);
    } else {
      assert (q + [i])[1..] == q[1..] + [i];
      if x != [] {
        LexExtend(x[1..], q[1..], i);
        PrefixTail(x, q);
        assert x == [x[0]] + x[1..] && q == [q[0]] + q[1..];
      }
    }
  }

  lemma {:induction false} LexIrreflexive(x: seq<nat>)
    ensures !Lex(x, x)
  {
    if x != [] {
      LexIrreflexive(x[1..]);
    }
  }

  lemma {:induction false} LexTransitive(x: seq<nat>, y: seq<nat>, z: seq<nat>)
    requires Lex(x, y) && Lex(y, z)
    ensures Lex(x, z)
  {
    if x != [] {
      if x[0] == y[0] == z[0] {
        LexTransitive(x[1..], y[1..], z[1..]);
      }
    }
  }

  /** Every sequence of at most `k` numbers up to `d`. */
  ghost function Boxed(k: nat, d: nat): set<seq<nat>> {
    if k == 0 then {[]}
    else {[]} + set x, s | x in Below(d + 1) && s in Boxed(k - 1, d) :: [x] + s
  }

  lemma {:induction false} InBox(s: seq<nat>, k: nat, d: nat)
    requires |s| <= k && forall j :: 0 <= j < |s| ==> s[j] <= d
    ensures s in Boxed(k, d)
  {
    if s != [] {
      InBox(s[1..], k - 1, d);
      assert s == [s[0]] + s[1..];
    }
  }

  /** Positions still ahead. */
  ghost function Ahead(k: nat, d: nat, p: seq<nat>): set<seq<nat>> {
    set x | x in Boxed(k, d) && Lex(p, x)
  }

  lemma AheadShrinks(k: nat, d: nat, p: seq<nat>, p': seq<nat>)
    requires Lex(p, p') && p' in Boxed(k, d)
    ensures |Ahead(k, d, p')| < |Ahead(k, d, p)|
  {
    forall x | x in Ahead(k, d, p') ensures x in Ahead(k, d, p) && x != p' {
      LexTransitive(p, p', x);
      LexIrreflexive(p');
    }
    SubsetCard(Ahead(k, d, p'), Ahead(k, d, p) - {p'});
  }

  // ----- paths and the choices that make them -----

  datatype Query = Query(from: nat, target: nat, minLength: nat, maxLength: Option<nat>)

  /** A path to list: along edges, of a length within bounds, no node twice before the last, the
      target only at the end. */
  ghost predicate IsListed(g: Digraph, q: Query, p: seq<nat>) {
    && |p| >= 2 && IsPath(g.Arcs(), p) && p[0] == q.from && p[|p| - 1] == q.target
    && NoDup(p[..|p| - 1]) && (forall j :: 0 < j < |p| - 1 ==> p[j] != q.target)
    && q.minLength <= |p| && (q.maxLength.Some? ==> |p| <= q.maxLength.value)
  }

  /** Between different ends these are just the simple paths. */
  lemma ListedIsSimple(g: Digraph, q: Query, p: seq<nat>)
    requires q.from != q.target
    ensures IsListed(g, q, p) <==> PathFrom(g.Arcs(), p, q.from, q.target) && NoDup(p)
                                   && q.minLength <= |p| && (q.maxLength.Some? ==> |p| <= q.maxLength.value)
  {
    if IsListed(g, q, p) {
      forall i, j | 0 <= i < j < |p| ensures p[i] != p[j] {
        if j < |p| - 1 {
          assert p[..|p| - 1][i] != p[..|p| - 1][j];
        }
      }
    }
  }

  ghost predicate StepTaken(g: Digraph, ix: seq<nat>, p: seq<nat>, j: nat) {
    && j < |ix| && j + 1 < |p| && g.Valid() && p[j] < g.n
    && ix[j] < |g.Succs(p[j])| && p[j + 1] == g.Succs(p[j])[ix[j]]
  }

  /** Taking successor number `ix[j]` at each step makes the path. */
  ghost predicate Follows(g: Digraph, from: nat, ix: seq<nat>, p: seq<nat>) {
    && |p| == |ix| + 1 && p[0] == from
    && forall j: nat {:trigger StepTaken(g, ix, p, j)} :: j < |ix| ==> StepTaken(g, ix, p, j)
  }

  lemma {:induction false} SameChoices(g: Digraph, from: nat, ix: seq<nat>, p: seq<nat>, q: seq<nat>, stack: seq<nat>,
                                       j: nat)
    requires Follows(g, from, ix, p) && Follows(g, from, q, stack) && HasPrefix(ix, q) && j < |stack|
    ensures p[j] == stack[j]
  {
    if j > 0 {
      SameChoices(g, from, ix, p, q, stack, j - 1);
      assert StepTaken(g, ix, p, j - 1) && StepTaken(g, q, stack, j - 1);
      assert ix[..|q|][j - 1] == q[j - 1];
    }
  }

  lemma FollowsPath(g: Digraph, from: nat, ix: seq<nat>, p: seq<nat>)
    requires Follows(g, from, ix, p)
    ensures IsPath(g.Arcs(), p)
  {
    forall i | 0 <= i < |p| - 1 ensures (p[i], p[i + 1]) in g.Arcs() {
      assert StepTaken(g, ix, p, i);
      assert p[i + 1] in g.Succs(p[i]);
      SuccIff(g, p[i], p[i + 1]);
    }
  }

  lemma {:induction false} ChoicesFor(g: Digraph, from: nat, p: seq<nat>) returns (ix: seq<nat>)
    requires g.Valid() && IsPath(g.Arcs(), p) && p[0] == from
    ensures Follows(g, from, ix, p)
    decreases |p|
  {
    if |p| == 1 {
      ix := [];
    } else {
      var k := |p| - 1;
      var ix' := ChoicesFor(g, from, p[..k]);
      assert (p[k - 1], p[k]) in g.Arcs();
      ArcBounds(g, p[k - 1], p[k]);
      SuccIff(g, p[k - 1], p[k]);
      var i: nat :| i < |g.Succs(p[k - 1])| && g.Succs(p[k - 1])[i] == p[k];
      ix := ix' + [i];
      forall j: nat | j < |ix| ensures StepTaken(g, ix, p, j) {
        if j < k - 1 {
          assert StepTaken(g, ix', p[..k], j);
        }
      }
    }
  }

  lemma {:induction false} UniqueChoices(g: Digraph, from: nat, a: seq<nat>, b: seq<nat>, p: seq<nat>)
    requires g.Valid() && g.EdgeSimple() && Follows(g, from, a, p) && Follows(g, from, b, p)
    ensures a == b
  {
    forall j | 0 <= j < |a| ensures a[j] == b[j] {
      assert StepTaken(g, a, p, j) && StepTaken(g, b, p, j);
      var out := g.outs[p[j]];
      assert g.Lists(out, p[j], true);
      assert g.ends[out[a[j]]] == g.ends[out[b[j]]];
    }
  }

  // ----- the search state -----

  /** The choice taken at each level below the top, and at the top the next to look at. */
  function Position(indices: seq<nat>): (p: seq<nat>)
    requires forall j :: 0 <= j < |indices| - 1 ==> indices[j] > 0
    ensures |p| == |indices|
    ensures forall j :: 0 <= j < |p| ==> p[j] == if j < |p| - 1 then indices[j] - 1 else indices[j]
  {
    seq(|indices|, j requires 0 <= j < |indices| => if j < |indices| - 1 then indices[j] - 1 else indices[j])
  }

  ghost predicate StackOk(g: Digraph, q: Query, stack: seq<nat>, visited: set<nat>, successors: seq<seq<nat>>,
                          indices: seq<nat>)
    requires stack != []
  {
    && g.Valid() && |stack| == |successors| == |indices|
    && (forall j :: 0 <= j < |stack| ==>
          stack[j] < g.n && successors[j] == g.Succs(stack[j]) && indices[j] <= |successors[j]|)
    && (forall j :: 0 <= j < |indices| - 1 ==> indices[j] > 0)
    && NoDup(stack) && visited == Elems(stack) && (forall j :: 0 < j < |stack| ==> stack[j] != q.target)
    && (q.maxLength.Some? ==> |stack| < q.maxLength.value)
    && Follows(g, q.from, Position(indices)[..|stack| - 1], stack)
  }

  ghost predicate Good(g: Digraph, q: Query, ix: seq<nat>, p: seq<nat>) {
    Follows(g, q.from, ix, p) && IsListed(g, q, p)
  }

  /** Each choice sequence comes after those before it. */
  ghost predicate Climbs(out: seq<seq<nat>>) {
    forall i, j {:trigger out[i], out[j]} :: 0 <= i < j < |out| ==> Lex(out[i], out[j])
  }

  /** `out` holds the listed paths whose choices come before `pos`, each once per choice sequence. */
  ghost predicate Listed(g: Digraph, q: Query, out: seq<seq<nat>>, paths: seq<seq<nat>>, pos: seq<nat>) {
    && |out| == |paths| && NoDup(out) && Climbs(out)
    && (forall k: nat {:trigger Good(g, q, out[k], paths[k])} :: k < |out| ==>
          Good(g, q, out[k], paths[k]) && Lex(out[k], pos))
    && forall ix, p {:trigger Good(g, q, ix, p)} :: Good(g, q, ix, p) && Lex(ix, pos) ==> ix in out
  }

  lemma ListedMoves(g: Digraph, q: Query, out: seq<seq<nat>>, paths: seq<seq<nat>>, pos: seq<nat>, pos': seq<nat>)
    requires Listed(g, q, out, paths, pos)
    requires forall ix, p {:trigger Good(g, q, ix, p)} :: Good(g, q, ix, p) ==> (Lex(ix, pos) <==> Lex(ix, pos'))
    ensures Listed(g, q, out, paths, pos')
  {
    forall k: nat | k < |out| ensures Good(g, q, out[k], paths[k]) && Lex(out[k], pos') {
      assert Good(g, q, out[k], paths[k]);
    }
  }

  lemma ListedAppends(g: Digraph, q: Query, out: seq<seq<nat>>, paths: seq<seq<nat>>, pos: seq<nat>, pos': seq<nat>,
                      ix: seq<nat>, p: seq<nat>)
    requires Listed(g, q, out, paths, pos) && Good(g, q, ix, p) && ix == pos
    requires forall x, y {:trigger Good(g, q, x, y)} :: Good(g, q, x, y) ==> (Lex(x, pos') <==> Lex(x, pos) || x == ix)
    ensures Listed(g, q, out + [ix], paths + [p], pos')
  {
    var out', paths' := out + [ix], paths + [p];
    forall k: nat | k < |out'| ensures Good(g, q, out'[k], paths'[k]) && Lex(out'[k], pos') {
      if k < |out| {
        assert Good(g, q, out[k], paths[k]);
      }
    }
    forall i | 0 <= i < |out| ensures Lex(out[i], ix) && out[i] != ix {
      assert Good(g, q, out[i], paths[i]);
      LexIrreflexive(ix);
    }
  }

  // ----- steps -----

  /** Choices that begin like the stack run through its nodes. */
  lemma GoodThroughStack(g: Digraph, q: Query, stack: seq<nat>, visited: set<nat>, successors: seq<seq<nat>>,
                         indices: seq<nat>, ix: seq<nat>, p: seq<nat>)
    requires stack != [] && StackOk(g, q, stack, visited, successors, indices)
    requires Good(g, q, ix, p) && HasPrefix(ix, Position(indices)[..|stack| - 1])
    ensures |ix| >= |stack| && (forall j :: 0 <= j < |stack| ==> p[j] == stack[j])
    ensures ix[|stack| - 1] < |successors[|stack| - 1]| && p[|stack|] == successors[|stack| - 1][ix[|stack| - 1]]
  {
    var d := |stack| - 1;
    var c := Position(indices)[..d];
    forall j | 0 <= j < |stack| ensures p[j] == stack[j] {
      SameChoices(g, q.from, ix, p, c, stack, j);
    }
    assert StepTaken(g, ix, p, d);
  }

  /** Beyond a choice's last continuation comes the next choice. */
  lemma BackOver(ix: seq<nat>, c: seq<nat>, i: nat, k: nat)
    requires HasPrefix(ix, c + [i]) ==> Lex(ix, c + [i] + [k])
    ensures Lex(ix, c + [i] + [k]) <==> Lex(ix, c + [i + 1])
  {
    LexBump(ix, c, i);
    LexExtend(ix, c + [i], k);
  }

  /** The level is exhausted: everything that begins like the stack has been listed. */
  lemma BacktrackStep(g: Digraph, q: Query, stack: seq<nat>, visited: set<nat>, successors: seq<seq<nat>>,
                      indices: seq<nat>, out: seq<seq<nat>>, paths: seq<seq<nat>>)
    requires stack != [] && StackOk(g, q, stack, visited, successors, indices)
    requires indices[|stack| - 1] >= |successors[|stack| - 1]|
    requires Listed(g, q, out, paths, Position(indices))
    ensures |stack| == 1 ==> forall ix, p :: Good(g, q, ix, p) ==> ix in out
    ensures |stack| > 1 ==>
              var d := |stack| - 1;
              && StackOk(g, q, stack[..d], visited - {stack[d]}, successors[..d], indices[..d])
              && Listed(g, q, out, paths, Position(indices[..d])) && Lex(Position(indices), Position(indices[..d]))
  {
    var d := |stack| - 1;
    var pos := Position(indices);
    assert pos == pos[..d] + [indices[d]];
    forall ix, p | Good(g, q, ix, p) && HasPrefix(ix, pos[..d]) ensures Lex(ix, pos) {
      GoodThroughStack(g, q, stack, visited, successors, indices, ix, p);
      LexAfter(ix, pos[..d], indices[d]);
    }
    if d == 0 {
      forall ix, p | Good(g, q, ix, p) ensures ix in out {
        assert HasPrefix(ix, pos[..0]);
      }
    } else {
      var pos' := Position(indices[..d]);
      var c := pos[..d - 1];
      assert pos[..d] == c + [indices[d - 1] - 1] && pos' == c + [indices[d - 1]];
      forall ix, p | Good(g, q, ix, p) ensures Lex(ix, pos) <==> Lex(ix, pos') {
        BackOver(ix, c, indices[d - 1] - 1, indices[d]);
        assert HasPrefix(ix, pos[..d]) ==> Lex(ix, pos);
      }
      ListedMoves(g, q, out, paths, pos, pos');
      PopStack(g, q, stack, visited, successors, indices);
      LexBump(pos, c, indices[d - 1] - 1);
      assert HasPrefix(pos, pos[..d]);
    }
  }

  lemma {:induction false} LexAfter(x: seq<nat>, a: seq<nat>, i: nat)
    requires HasPrefix(x, a) && |x| > |a| && x[|a|] < i
    ensures Lex(x, a + [i])
  {
    if a != [] {
      PrefixTail(x, a);
      LexAfter(x[1..], a[1..], i);
      assert (a + [i])[1..] == a[1..] + [i];
    }
  }

  lemma PopStack(g: Digraph, q: Query, stack: seq<nat>, visited: set<nat>, successors: seq<seq<nat>>, indices: seq<nat>)
    requires |stack| > 1 && StackOk(g, q, stack, visited, successors, indices)
    ensures var d := |stack| - 1; StackOk(g, q, stack[..d], visited - {stack[d]}, successors[..d], indices[..d])
  {
    var d := |stack| - 1;
    var c, c' := Position(indices)[..d], Position(indices[..d])[..d - 1];
    assert c' == c[..d - 1];
    forall j: nat | j < |c'| ensures StepTaken(g, c', stack[..d], j) {
      assert StepTaken(g, c, stack, j);
    }
    assert stack == stack[..d] + [stack[d]];
    assert stack[d] !in stack[..d];
    assert Elems(stack) == Elems(stack[..d]) + {stack[d]};
  }

  /** Nothing to list begins with the next choice, or just the choice itself, which ends at the target. */
  lemma SkipStep(g: Digraph, q: Query, stack: seq<nat>, visited: set<nat>, successors: seq<seq<nat>>, indices: seq<nat>,
                 out: seq<seq<nat>>, paths: seq<seq<nat>>)
    requires stack != [] && StackOk(g, q, stack, visited, successors, indices)
    requires indices[|stack| - 1] < |successors[|stack| - 1]|
    requires Listed(g, q, out, paths, Position(indices))
    ensures var d := |stack| - 1;
            var succ, next := successors[d][indices[d]], indices[d := indices[d] + 1];
            && StackOk(g, q, stack, visited, successors, next) && Lex(Position(indices), Position(next))
            && (succ == q.target && |stack| + 1 >= q.minLength ==>
                  Listed(g, q, out + [Position(indices)], paths + [stack + [q.target]], Position(next)))
            && ((if succ == q.target then |stack| + 1 < q.minLength
                 else succ in visited || (q.maxLength.Some? && |stack| + 1 >= q.maxLength.value)) ==>
                  Listed(g, q, out, paths, Position(next)))
  {
    var d := |stack| - 1;
    var pos := Position(indices);
    var succ, next := successors[d][indices[d]], indices[d := indices[d] + 1];
    var pos' := Position(next);
    assert pos == pos[..d] + [indices[d]] && pos' == pos[..d] + [indices[d] + 1];
    LexBump(pos, pos[..d], indices[d]);
    assert HasPrefix(pos, pos);
    assert Position(next)[..d] == pos[..d];
    forall ix, p | Good(g, q, ix, p) ensures Lex(ix, pos') <==> Lex(ix, pos) || HasPrefix(ix, pos) {
      LexBump(ix, pos[..d], indices[d]);
    }
    forall ix, p | Good(g, q, ix, p) && HasPrefix(ix, pos)
      ensures succ == q.target ==> ix == pos && p == stack + [succ]
      ensures !(succ != q.target && (succ in visited || (q.maxLength.Some? && |stack| + 1 >= q.maxLength.value)))
    {
      ThroughChoice(g, q, stack, visited, successors, indices, ix, p);
    }
    if succ == q.target && |stack| + 1 >= q.minLength {
      ChoiceIsGood(g, q, stack, visited, successors, indices);
      LexIrreflexive(pos);
      ListedAppends(g, q, out, paths, pos, pos', pos, stack + [q.target]);
    } else if succ == q.target || succ in visited || (q.maxLength.Some? && |stack| + 1 >= q.maxLength.value) {
      forall ix, p | Good(g, q, ix, p) ensures Lex(ix, pos) <==> Lex(ix, pos') {
      }
      ListedMoves(g, q, out, paths, pos, pos');
    }
  }

  /** A listed path that takes the next choice: the target ends it, and otherwise the node is new and
      there is room beyond it. */
  lemma ThroughChoice(g: Digraph, q: Query, stack: seq<nat>, visited: set<nat>, successors: seq<seq<nat>>,
                      indices: seq<nat>, ix: seq<nat>, p: seq<nat>)
    requires stack != [] && StackOk(g, q, stack, visited, successors, indices)
    requires indices[|stack| - 1] < |successors[|stack| - 1]|
    requires Good(g, q, ix, p) && HasPrefix(ix, Position(indices))
    ensures var succ := successors[|stack| - 1][indices[|stack| - 1]];
            if succ == q.target then ix == Position(indices) && p == stack + [succ] && q.minLength <= |stack| + 1
            else succ !in visited && (q.maxLength.Some? ==> |stack| + 1 < q.maxLength.value)
  {
    var d := |stack| - 1;
    var pos := Position(indices);
    assert ix[..d] == pos[..d] by {
      assert ix[..|pos|][..d] == ix[..d];
    }
    assert ix[..|pos|][d] == pos[d];
    GoodThroughStack(g, q, stack, visited, successors, indices, ix, p);
    var succ := successors[d][indices[d]];
    assert p[d + 1] == succ;
    if succ == q.target {
      assert |p| == d + 2;
      assert ix == ix[..|pos|];
    } else {
      assert forall k :: 0 <= k < |stack| ==> p[..|p| - 1][k] == stack[k];
    }
  }

  lemma ChoiceIsGood(g: Digraph, q: Query, stack: seq<nat>, visited: set<nat>, successors: seq<seq<nat>>,
                     indices: seq<nat>)
    requires stack != [] && StackOk(g, q, stack, visited, successors, indices)
    requires indices[|stack| - 1] < |successors[|stack| - 1]|
    requires successors[|stack| - 1][indices[|stack| - 1]] == q.target && |stack| + 1 >= q.minLength
    ensures Good(g, q, Position(indices), stack + [q.target])
  {
    var d := |stack| - 1;
    var pos, p := Position(indices), stack + [q.target];
    forall j: nat | j < |pos| ensures StepTaken(g, pos, p, j) {
      if j < d {
        assert StepTaken(g, pos[..d], stack, j);
      }
    }
    FollowsPath(g, q.from, pos, p);
    assert p[..|p| - 1] == stack;
  }

  /** The search goes one node deeper. */
  lemma DescendStep(g: Digraph, q: Query, stack: seq<nat>, visited: set<nat>, successors: seq<seq<nat>>,
                    indices: seq<nat>, out: seq<seq<nat>>, paths: seq<seq<nat>>)
    requires stack != [] && StackOk(g, q, stack, visited, successors, indices)
    requires indices[|stack| - 1] < |successors[|stack| - 1]|
    requires Listed(g, q, out, paths, Position(indices))
    requires var succ := successors[|stack| - 1][indices[|stack| - 1]];
             succ != q.target && succ !in visited && (q.maxLength.Some? ==> |stack| + 1 < q.maxLength.value)
    ensures var d := |stack| - 1;
            var succ, next := successors[d][indices[d]], indices[d := indices[d] + 1] + [0];
            && succ < g.n && StackOk(g, q, stack + [succ], visited + {succ}, successors + [g.Succs(succ)], next)
            && Listed(g, q, out, paths, Position(next)) && Lex(Position(indices), Position(next))
  {
    var d := |stack| - 1;
    var pos := Position(indices);
    var succ, next := successors[d][indices[d]], indices[d := indices[d] + 1] + [0];
    assert succ in g.Succs(stack[d]);
    SuccIff(g, stack[d], succ);
    ArcBounds(g, stack[d], succ);
    var stack' := stack + [succ];
    assert Position(next) == pos + [0];
    assert Position(next)[..d + 1] == pos;
    forall j: nat | j < |pos| ensures StepTaken(g, pos, stack', j) {
      if j < d {
        assert StepTaken(g, pos[..d], stack, j);
      }
    }
    assert Elems(stack') == Elems(stack) + {succ};
    forall ix, p | Good(g, q, ix, p) ensures Lex(ix, pos) <==> Lex(ix, pos + [0]) {
      LexExtend(ix, pos, 0);
      if ix == pos {
        ThroughChoice(g, q, stack, visited, successors, indices, ix, p);
        GoodThroughStack(g, q, stack, visited, successors, indices, ix, p);
      }
    }
    ListedMoves(g, q, out, paths, pos, pos + [0]);
    LexExtend(pos, pos, 0);
  }

  // ----- the iterator -----

  /** A bound on how many successors a node has. */
  ghost function Width(g: Digraph, n: nat): nat
    requires g.Valid() && n <= g.n
  {
    if n == 0 then 0 else Width(g, n - 1) + |g.Succs(n - 1)|
  }

  lemma {:induction false} WidthBounds(g: Digraph, n: nat, v: nat)
    requires g.Valid() && v < n <= g.n
    ensures |g.Succs(v)| <= Width(g, n)
  {
    if v < n - 1 {
      WidthBounds(g, n - 1, v);
    }
  }

  lemma PositionBoxed(g: Digraph, q: Query, stack: seq<nat>, visited: set<nat>, successors: seq<seq<nat>>,
                      indices: seq<nat>)
    requires stack != [] && StackOk(g, q, stack, visited, successors, indices)
    ensures Position(indices) in Boxed(g.n, Width(g, g.n))
  {
    forall j | 0 <= j < |indices| ensures Position(indices)[j] <= Width(g, g.n) {
      WidthBounds(g, g.n, stack[j]);
    }
    ElemsCard(stack);
    SubsetCard(Elems(stack), Below(g.n));
    InBox(Position(indices), g.n, Width(g, g.n));
  }

  ghost predicate Complete(g: Digraph, q: Query, out: seq<seq<nat>>, paths: seq<seq<nat>>) {
    && |out| == |paths| && NoDup(out) && Climbs(out)
    && (forall k: nat {:trigger Good(g, q, out[k], paths[k])} :: k < |out| ==> Good(g, q, out[k], paths[k]))
    && forall ix, p {:trigger Good(g, q, ix, p)} :: Good(g, q, ix, p) ==> ix in out
  }

  /** The whole state: under way, or finished with everything listed. */
  ghost predicate SearchOk(g: Digraph, q: Query, stack: seq<nat>, visited: set<nat>, successors: seq<seq<nat>>,
                           indices: seq<nat>, out: seq<seq<nat>>, paths: seq<seq<nat>>)
  {
    if stack == [] then Complete(g, q, out, paths)
    else StackOk(g, q, stack, visited, successors, indices) && Listed(g, q, out, paths, Position(indices))
  }

  class AllSimplePaths {
    const graph: Digraph
    ghost const from: nat
    const target: nat
    const minLength: nat
    const maxLength: Option<nat>
    var stack: seq<nat>
    var visited: set<nat>
    var successors: seq<seq<nat>>
    var indices: seq<nat>
    ghost var choices: seq<seq<nat>>
    ghost var yielded: seq<seq<nat>>

    ghost function Q(): Query {
      Query(from, target, minLength, maxLength)
    }

    ghost predicate Valid()
      reads this
    {
      graph.Valid() && SearchOk(graph, Q(), stack, visited, successors, indices, choices, yielded)
    }

    ghost function Measure(): nat
      reads this
      requires Valid()
    {
      if stack == [] then 0 else 1 + |Ahead(graph.n, Width(graph, graph.n), Position(indices))|
    }

    constructor (g: Digraph, start: nat, end: nat, minIntermediateNodes: nat, maxIntermediateNodes: Option<nat>)
      requires g.Valid() && start < g.n && end < g.n
      ensures Valid() && graph == g && yielded == []
      ensures Q() == Query(start, end, minIntermediateNodes + 2,
                           if maxIntermediateNodes.Some? then Some(maxIntermediateNodes.value + 2) else None)
    {
      graph, from, target := g, start, end;
      minLength := minIntermediateNodes + 2;
      maxLength := if maxIntermediateNodes.Some? then Some(maxIntermediateNodes.value + 2) else None;
      stack, visited := [start], {start};
      successors, indices := [g.Succs(start)], [0];
      choices, yielded := [], [];
      new;
      StartOk(graph, Q(), start);
    }

    /** The next path; nothing once every path has been listed. */
    method Next() returns (path: Option<seq<nat>>)
      requires Valid()
      modifies this
      ensures Valid()
      ensures path.Some? ==> yielded == old(yielded) + [path.value] && IsListed(graph, Q(), path.value)
      ensures path.Some? ==> Measure() < old(Measure())
      ensures path.None? ==> yielded == old(yielded) && Complete(graph, Q(), choices, yielded)
    {
      path := None;
      while stack != [] && path.None?
        invariant Valid() && yielded == if path.Some? then old(yielded) + [path.value] else old(yielded)
        invariant if path.Some? then Measure() < old(Measure()) else Measure() <= old(Measure())
        decreases path.None?, Measure()
      {
        path := Turn();
      }
      if path.Some? {
        LastIsListed(graph, Q(), stack, visited, successors, indices, choices, yielded);
      }
    }

    method Turn() returns (path: Option<seq<nat>>)
      requires Valid() && stack != []
      modifies this
      ensures Valid() && Measure() < old(Measure())
      ensures yielded == if path.Some? then old(yielded) + [path.value] else old(yielded)
    {
      path := None;
      var depth := |stack| - 1;
      if indices[depth] >= |successors[depth]| {
        Backtrack();
      } else {
        var succ := successors[depth][indices[depth]];
        if succ == target || (maxLength.Some? && |stack| + 1 >= maxLength.value) || succ in visited {
          path := Skip();
        } else {
          Descend();
        }
      }
    }

    method Backtrack()
      requires Valid() && stack != [] && indices[|stack| - 1] >= |successors[|stack| - 1]|
      modifies this
      ensures Valid() && Measure() < old(Measure()) && yielded == old(yielded)
    {
      var depth := |stack| - 1;
      BacktrackStep(graph, Q(), stack, visited, successors, indices, choices, yielded);
      if depth > 0 {
        PopStack(graph, Q(), stack, visited, successors, indices);
        PositionBoxed(graph, Q(), stack[..depth], visited - {stack[depth]}, successors[..depth], indices[..depth]);
        AheadShrinks(graph.n, Width(graph, graph.n), Position(indices), Position(indices[..depth]));
      }
      visited := visited - {stack[depth]};
      stack := stack[..depth];
      successors := successors[..depth];
      indices := indices[..depth];
    }

    method Skip() returns (path: Option<seq<nat>>)
      requires Valid() && stack != [] && indices[|stack| - 1] < |successors[|stack| - 1]|
      requires var succ := successors[|stack| - 1][indices[|stack| - 1]];
               succ == target || (maxLength.Some? && |stack| + 1 >= maxLength.value) || succ in visited
      modifies this
      ensures Valid() && Measure() < old(Measure())
      ensures yielded == if path.Some? then old(yielded) + [path.value] else old(yielded)
    {
      var depth := |stack| - 1;
      var succ := successors[depth][indices[depth]];
      SkipStep(graph, Q(), stack, visited, successors, indices, choices, yielded);
      ghost var position := Position(indices);
      indices := indices[depth := indices[depth] + 1];
      PositionBoxed(graph, Q(), stack, visited, successors, indices);
      AheadShrinks(graph.n, Width(graph, graph.n), position, Position(indices));
      path := None;
      if succ == target {
        var pathLength := |stack| + 1;
        if pathLength >= minLength {
          path := Some(stack + [target]);
          choices, yielded := choices + [position], yielded + [stack + [target]];
        }
      }
    }

    method Descend()
      requires Valid() && stack != [] && indices[|stack| - 1] < |successors[|stack| - 1]|
      requires var succ := successors[|stack| - 1][indices[|stack| - 1]];
               succ != target && succ !in visited && (maxLength.Some? ==> |stack| + 1 < maxLength.value)
      modifies this
      ensures Valid() && Measure() < old(Measure()) && yielded == old(yielded)
    {
      var depth := |stack| - 1;
      var succ := successors[depth][indices[depth]];
      ghost var next, longer := indices[depth := indices[depth] + 1] + [0], stack + [succ];
      ghost var seen, lists := visited + {succ}, successors + [graph.Succs(succ)];
      DeeperOk(graph, Q(), stack, visited, successors, indices, choices, yielded);
      Push(succ);
      assert stack == longer && visited == seen && successors == lists && indices == next;
    }

    method Push(succ: nat)
      requires graph.Valid() && succ < graph.n && stack != [] && |indices| == |stack|
      modifies this`stack, this`visited, this`successors, this`indices
      ensures indices == old(indices)[|old(stack)| - 1 := old(indices)[|old(stack)| - 1] + 1] + [0]
      ensures successors == old(successors) + [graph.Succs(succ)]
      ensures visited == old(visited) + {succ} && stack == old(stack) + [succ]
    {
      var depth := |stack| - 1;
      visited := visited + {succ};
      indices := indices[depth := indices[depth] + 1] + [0];
      successors := successors + [graph.Succs(succ)];
      stack := stack + [succ];
    }
  }

  lemma DeeperOk(g: Digraph, q: Query, stack: seq<nat>, visited: set<nat>, successors: seq<seq<nat>>, indices: seq<nat>,
                 out: seq<seq<nat>>, paths: seq<seq<nat>>)
    requires stack != [] && SearchOk(g, q, stack, visited, successors, indices, out, paths)
    requires indices[|stack| - 1] < |successors[|stack| - 1]|
    requires var succ := successors[|stack| - 1][indices[|stack| - 1]];
             succ != q.target && succ !in visited && (q.maxLength.Some? ==> |stack| + 1 < q.maxLength.value)
    ensures var d := |stack| - 1;
            var succ, next := successors[d][indices[d]], indices[d := indices[d] + 1] + [0];
            && succ < g.n
               && SearchOk(g, q, stack + [succ], visited + {succ}, successors + [g.Succs(succ)], next, out, paths)
            && |Ahead(g.n, Width(g, g.n), Position(next))| < |Ahead(g.n, Width(g, g.n), Position(indices))|
  {
    var d := |stack| - 1;
    var succ, next := successors[d][indices[d]], indices[d := indices[d] + 1] + [0];
    DescendStep(g, q, stack, visited, successors, indices, out, paths);
    PositionBoxed(g, q, stack + [succ], visited + {succ}, successors + [g.Succs(succ)], next);
    AheadShrinks(g.n, Width(g, g.n), Position(indices), Position(next));
  }

  lemma StartOk(g: Digraph, q: Query, start: nat)
    requires g.Valid() && start < g.n && q.from == start && (q.maxLength.Some? ==> q.maxLength.value >= 2)
    ensures SearchOk(g, q, [start], {start}, [g.Succs(start)], [0], [], [])
  {
    var pos := Position([0]);
    assert pos == [0] && pos[..0] == [];
    forall ix, p | Good(g, q, ix, p) ensures !Lex(ix, pos) {
      ChoiceNotBefore(g, q, ix, p);
    }
    assert Listed(g, q, [], [], pos);
    assert StackOk(g, q, [start], {start}, [g.Succs(start)], [0]);
  }

  lemma ChoiceNotBefore(g: Digraph, q: Query, ix: seq<nat>, p: seq<nat>)
    requires Good(g, q, ix, p)
    ensures !Lex(ix, [0])
  {
    assert [0][1..] == [];
  }

  lemma LastIsListed(g: Digraph, q: Query, stack: seq<nat>, visited: set<nat>, successors: seq<seq<nat>>,
                     indices: seq<nat>, out: seq<seq<nat>>, paths: seq<seq<nat>>)
    requires SearchOk(g, q, stack, visited, successors, indices, out, paths) && paths != []
    ensures IsListed(g, q, paths[|paths| - 1])
  {
    assert Good(g, q, out[|paths| - 1], paths[|paths| - 1]);
  }

  /** The iterator run to its end: exactly the listed paths, each once when no edges are parallel. */
  method ListSimplePaths(g: Digraph, start: nat, end: nat, minIntermediateNodes: nat, maxIntermediateNodes: Option<nat>)
    returns (paths: seq<seq<nat>>)
    requires g.Valid() && start < g.n && end < g.n
    ensures var q := Query(start, end, minIntermediateNodes + 2,
                           if maxIntermediateNodes.Some? then Some(maxIntermediateNodes.value + 2) else None);
            && (forall p :: p in paths <==> IsListed(g, q, p))
            && (g.EdgeSimple() ==> NoDup(paths))
            && exists choices :: Complete(g, q, choices, paths)
  {
    var it := new AllSimplePaths(g, start, end, minIntermediateNodes, maxIntermediateNodes);
    paths := [];
    var step: Option<seq<nat>> := Some([]);
    while step.Some?
      invariant it.Valid() && it.graph == g && fresh(it) && it.yielded == paths
      invariant it.Q() == Query(start, end, minIntermediateNodes + 2,
                                if maxIntermediateNodes.Some? then Some(maxIntermediateNodes.value + 2) else None)
      invariant step.None? ==> Complete(g, it.Q(), it.choices, paths)
      decreases step.Some?, it.Measure()
    {
      step := it.Next();
      if step.Some? {
        paths := paths + [step.value];
      }
    }
    CompleteLists(g, it.Q(), it.choices, paths);
  }

  lemma CompleteLists(g: Digraph, q: Query, out: seq<seq<nat>>, paths: seq<seq<nat>>)
    requires g.Valid() && Complete(g, q, out, paths)
    ensures forall p :: p in paths <==> IsListed(g, q, p)
    ensures g.EdgeSimple() ==> NoDup(paths)
  {
    forall p ensures p in paths <==> IsListed(g, q, p) {
      if p in paths {
        var k: nat :| k < |paths| && paths[k] == p;
        assert Good(g, q, out[k], paths[k]);
      }
      if IsListed(g, q, p) {
        var ix := ChoicesFor(g, q.from, p);
        assert Good(g, q, ix, p);
        var k: nat :| k < |out| && out[k] == ix;
        assert Good(g, q, out[k], paths[k]);
        SamePath(g, q.from, ix, p, paths[k]);
      }
    }
    if g.EdgeSimple() {
      forall i, j | 0 <= i < j < |paths| ensures paths[i] != paths[j] {
        assert Good(g, q, out[i], paths[i]) && Good(g, q, out[j], paths[j]);
        if paths[i] == paths[j] {
          UniqueChoices(g, q.from, out[i], out[j], paths[i]);
        }
      }
    }
  }

  lemma SamePath(g: Digraph, from: nat, ix: seq<nat>, p: seq<nat>, r: seq<nat>)
    requires Follows(g, from, ix, p) && Follows(g, from, ix, r)
    ensures p == r
  {
    forall j | 0 <= j < |p| ensures p[j] == r[j] {
      assert HasPrefix(ix, ix);
      SameChoices(g, from, ix, p, ix, r, j);
    }
  }
}
