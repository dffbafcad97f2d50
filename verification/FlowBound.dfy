/** Why Edmonds-Karp (`src/algo/max_flow.rs`) needs few augmentations: along shortest paths no node
    ever comes nearer to the source, and between two times that a step is filled up, the node it
    leaves moves two steps away. */
module FlowBound {
  import opened Seqs
  import opened Graphs
  import opened Residual

  /** The step leads back over step `i` of the path. */
  ghost predicate IsOpposite(g: Digraph, st: AugmentStep, path: seq<AugmentStep>, i: nat) {
    && i < |path| && IsStep(g, st) && IsStep(g, path[i])
    && From(g, st) == To(g, path[i]) && To(g, st) == From(g, path[i])
  }

  ghost predicate LeadsBack(g: Digraph, st: AugmentStep, path: seq<AugmentStep>) {
    exists i: nat :: IsOpposite(g, st, path, i)
  }

  /** Between two states only steps back over the path become usable, and only steps of the path
      cease to be. */
  ghost predicate Follows(g: Digraph, path: seq<AugmentStep>, res: seq<nat>, rev: RevFlow,
                          res': seq<nat>, rev': RevFlow)
  {
    && (forall st {:trigger Usable(g, res', rev', st)} ::
          Usable(g, res', rev', st) ==> Usable(g, res, rev, st) || LeadsBack(g, st, path))
    && forall st {:trigger Usable(g, res, rev, st)} ::
         Usable(g, res, rev, st) && !Usable(g, res', rev', st) ==> st in path
  }

  // ----- distances from the source never shrink -----

  lemma StraightStep(g: Digraph, res: seq<nat>, rev: RevFlow, path: seq<AugmentStep>, u: nat, v: nat, i: nat)
    requires IsStraight(g, res, rev, path, u, v) && i < |path|
    ensures Usable(g, res, rev, path[i]) && Walks(g, res, rev, u, From(g, path[i]), i)
    ensures Far(g, res, rev, u, From(g, path[i]), i) && Far(g, res, rev, u, To(g, path[i]), i + 1)
  {
    TrailWalks(g, res, rev, path, u, v, i);
    assert NodeAt(g, path, v, i) == From(g, path[i]);
    if i + 1 < |path| {
      assert Joined(g, path, i + 1);
    }
    assert NodeAt(g, path, v, i + 1) == To(g, path[i]);
  }

  /** What can be reached after the augmentation could be reached before in no more steps. */
  lemma {:induction false} WalkedBefore(g: Digraph, path: seq<AugmentStep>, u: nat, v: nat, res: seq<nat>, rev: RevFlow,
                                        res': seq<nat>, rev': RevFlow, w: nat, j: nat) returns (k: nat)
    requires IsStraight(g, res, rev, path, u, v) && Follows(g, path, res, rev, res', rev')
    requires Walks(g, res', rev', u, w, j)
    ensures k <= j && Walks(g, res, rev, u, w, k)
    decreases j
  {
    if j == 0 {
      k := 0;
    } else {
      var st :| Usable(g, res', rev', st) && To(g, st) == w && Walks(g, res', rev', u, From(g, st), j - 1);
      var before := WalkedBefore(g, path, u, v, res, rev, res', rev', From(g, st), j - 1);
      if Usable(g, res, rev, st) {
        k := before + 1;
      } else {
        var i: nat :| IsOpposite(g, st, path, i);
        StraightStep(g, res, rev, path, u, v, i);
        k := i;
      }
    }
  }

  lemma FarKept(g: Digraph, path: seq<AugmentStep>, u: nat, v: nat, res: seq<nat>, rev: RevFlow,
                res': seq<nat>, rev': RevFlow, w: nat, k: int)
    requires IsStraight(g, res, rev, path, u, v) && Follows(g, path, res, rev, res', rev')
    requires Far(g, res, rev, u, w, k)
    ensures Far(g, res', rev', u, w, k)
  {
    forall j: nat | j < k ensures !Walks(g, res', rev', u, w, j) {
      if Walks(g, res', rev', u, w, j) {
        var i := WalkedBefore(g, path, u, v, res, rev, res', rev', w, j);
      }
    }
  }

  // ----- how often a step can be filled up -----

  /** `filled` counts how often each step was the narrowest.  A usable step leaves a node at least
      twice that far from the source; one that is not leads to a node almost as far. */
  ghost predicate Counted(g: Digraph, u: nat, res: seq<nat>, rev: RevFlow, filled: multiset<AugmentStep>) {
    forall st {:trigger filled[st]} :: StepCounted(g, u, res, rev, st, filled[st])
  }

  ghost predicate StepCounted(g: Digraph, u: nat, res: seq<nat>, rev: RevFlow, st: AugmentStep, c: nat) {
    if !IsStep(g, st) then c == 0
    else
      && 2 * c <= g.n
      && if Usable(g, res, rev, st) then Far(g, res, rev, u, From(g, st), 2 * c)
         else Far(g, res, rev, u, To(g, st), 2 * c - 1)
  }

  lemma TrailLength(g: Digraph, path: seq<AugmentStep>, u: nat, v: nat)
    requires g.Valid() && IsTrail(g, path, u, v) && v < g.n
    ensures |path| + 1 <= g.n
  {
    var nodes := seq(|path| + 1, i requires 0 <= i <= |path| && (i < |path| ==> IsStep(g, path[i])) =>
      NodeAt(g, path, v, i));
    forall i | 0 <= i < |path| ensures nodes[i] == From(g, path[i]) && nodes[i] < g.n {
    }
    assert nodes[|path|] == v;
    assert NoDup(nodes);
    ElemsCard(nodes);
    SubsetCard(Elems(nodes), Below(g.n));
  }

  /** A step of the path that still counts `c` is at least `2 * c` steps along it. */
  lemma CountOnPath(g: Digraph, path: seq<AugmentStep>, u: nat, v: nat, res: seq<nat>, rev: RevFlow, i: nat, c: nat)
    requires IsStraight(g, res, rev, path, u, v) && i < |path| && StepCounted(g, u, res, rev, path[i], c)
    ensures 2 * c <= i && Far(g, res, rev, u, To(g, path[i]), 2 * c + 1)
  {
    StraightStep(g, res, rev, path, u, v, i);
  }

  lemma StepKept(g: Digraph, path: seq<AugmentStep>, u: nat, v: nat, res: seq<nat>, rev: RevFlow,
                 res': seq<nat>, rev': RevFlow, st: AugmentStep, c: nat)
    requires IsStraight(g, res, rev, path, u, v) && Follows(g, path, res, rev, res', rev')
    requires IsStep(g, st) && StepCounted(g, u, res, rev, st, c)
    ensures StepCounted(g, u, res', rev', st, c)
  {
    if Usable(g, res, rev, st) && !Usable(g, res', rev', st) {
      var i: nat :| i < |path| && path[i] == st;
      CountOnPath(g, path, u, v, res, rev, i, c);
      FarKept(g, path, u, v, res, rev, res', rev', To(g, st), 2 * c - 1);
    } else if Usable(g, res, rev, st) {
      FarKept(g, path, u, v, res, rev, res', rev', From(g, st), 2 * c);
    } else if Usable(g, res', rev', st) {
      var i: nat :| IsOpposite(g, st, path, i);
      StraightStep(g, res, rev, path, u, v, i);
      FarKept(g, path, u, v, res, rev, res', rev', From(g, st), 2 * c);
    } else {
      FarKept(g, path, u, v, res, rev, res', rev', To(g, st), 2 * c - 1);
    }
  }

  /** Filling a step of the path counts it once more. */
  lemma StepFilled(g: Digraph, path: seq<AugmentStep>, u: nat, v: nat, res: seq<nat>, rev: RevFlow,
                   res': seq<nat>, rev': RevFlow, i: nat, c: nat)
    requires g.Valid() && v < g.n
    requires IsStraight(g, res, rev, path, u, v) && Follows(g, path, res, rev, res', rev') && i < |path|
    requires StepCounted(g, u, res, rev, path[i], c) && !Usable(g, res', rev', path[i])
    ensures StepCounted(g, u, res', rev', path[i], c + 1)
  {
    CountOnPath(g, path, u, v, res, rev, i, c);
    TrailLength(g, path, u, v);
    FarKept(g, path, u, v, res, rev, res', rev', To(g, path[i]), 2 * c + 1);
  }

  lemma CountedNext(g: Digraph, path: seq<AugmentStep>, u: nat, v: nat, res: seq<nat>, rev: RevFlow,
                    res': seq<nat>, rev': RevFlow, filled: multiset<AugmentStep>, i: nat)
    requires g.Valid() && v < g.n && Counted(g, u, res, rev, filled)
    requires IsStraight(g, res, rev, path, u, v) && Follows(g, path, res, rev, res', rev') && i < |path|
    requires !Usable(g, res', rev', path[i])
    ensures Counted(g, u, res', rev', filled + multiset{path[i]})
  {
    var filled' := filled + multiset{path[i]};
    forall st ensures StepCounted(g, u, res', rev', st, filled'[st]) {
      assert StepCounted(g, u, res, rev, st, filled[st]);
      if st == path[i] {
        StepFilled(g, path, u, v, res, rev, res', rev', i, filled[st]);
      } else if IsStep(g, st) {
        StepKept(g, path, u, v, res, rev, res', rev', st, filled[st]);
      }
    }
  }

  // ----- the number of augmentations -----

  /** The steps over the first `k` edges, both ways. */
  ghost function Steps(ends: seq<(nat, nat)>, k: nat): (r: set<AugmentStep>)
    requires k <= |ends|
    ensures |r| <= 2 * k
  {
    if k == 0 then {}
    else
      var two := {Forward(k - 1), Reverse(ends[k - 1].1, ends[k - 1].0)};
      assert |two| == 2;
      Steps(ends, k - 1) + two
  }

  lemma {:induction false} StepsHold(ends: seq<(nat, nat)>, k: nat, e: nat)
    requires e < k <= |ends|
    ensures Forward(e) in Steps(ends, k) && Reverse(ends[e].1, ends[e].0) in Steps(ends, k)
    decreases k
  {
    if e < k - 1 {
      StepsHold(ends, k - 1, e);
    }
  }

  lemma TimesNext(n: nat, k: nat)
    ensures n * (k + 1) == n * k + n
  {
  }

  lemma {:induction false} TimesMono(n: nat, a: nat, b: nat)
    requires a <= b
    ensures n * a <= n * b
    decreases b
  {
    if a < b {
      TimesMono(n, a, b - 1);
      TimesNext(n, b - 1);
    }
  }

  lemma {:induction false} CountBound(m: multiset<AugmentStep>, s: set<AugmentStep>, n: nat)
    requires forall st :: st in m ==> st in s && 2 * m[st] <= n
    ensures 2 * |m| <= n * |s|
    decreases |s|
  {
    if st :| st in s {
      var rest := m[st := 0];
      CountBound(rest, s - {st}, n);
      assert |m| == |rest| + m[st];
      assert |s| == |s - {st}| + 1;
      TimesNext(n, |s - {st}|);
    } else {
      assert m == multiset{};
    }
  }

  /** So there are at most as many augmentations as nodes times edges. */
  lemma FewAugmentations(g: Digraph, u: nat, res: seq<nat>, rev: RevFlow, filled: multiset<AugmentStep>)
    requires Counted(g, u, res, rev, filled)
    ensures |filled| <= g.n * |g.ends|
  {
    var s := Steps(g.ends, |g.ends|);
    forall st | st in filled ensures st in s && 2 * filled[st] <= g.n {
      assert StepCounted(g, u, res, rev, st, filled[st]);
      match st
      case Forward(e) => StepsHold(g.ends, |g.ends|, e);
      case Reverse(a, b) =>
        var e: nat :| e < |g.ends| && g.ends[e] == (b, a);
        StepsHold(g.ends, |g.ends|, e);
    }
    CountBound(filled, s, g.n);
    TimesMono(g.n, |s|, 2 * |g.ends|);
    assert g.n * (2 * |g.ends|) == 2 * (g.n * |g.ends|);
  }
}
