/** The growable vector of `src/collection.rs`: append at the end, remove by moving the
    last entry into the freed position and reporting the move. */
module Vec {
  import opened Seqs

  datatype Option<+T> = None | Some(value: T)

  /** Vector left by removing position `i`. */
  function SwapRemove<T>(s: seq<T>, i: nat): (r: seq<T>)
    requires i < |s|
    ensures |r| == |s| - 1
    ensures forall k :: 0 <= k < |r| ==> r[k] == if k == i then s[|s| - 1] else s[k]
  {
    if i == |s| - 1 then s[..i] else s[..|s| - 1][i := s[|s| - 1]]
  }

  /** The index reported as moved into position `i`, if any. */
  function Relocated(length: nat, i: nat): Option<nat>
    requires i < length
  {
    if i == length - 1 then None else Some(length - 1)
  }

  /** Where removal of position `i` sends every other position. */
  ghost function SwapMap(length: nat, i: nat): (m: map<nat, nat>)
    requires i < length
    ensures m.Keys == Below(length) - {i}
    ensures forall x :: x in m ==> m[x] == if x == length - 1 then i else x
  {
    map x | x in Below(length) && x != i :: if x == length - 1 then i else x
  }

  // ----- sorting by descending key -----

  ghost predicate Descending<T(!new)>(s: seq<T>, key: T -> nat) {
    forall i, j :: 0 <= i < j < |s| ==> key(s[i]) >= key(s[j])
  }

  function InsertDescending<T(!new)>(x: T, s: seq<T>, key: T -> nat): (r: seq<T>)
    ensures |r| == |s| + 1
    ensures forall y :: y in r <==> y == x || y in s
  {
    if s == [] then [x]
    else if key(x) >= key(s[0]) then [x] + s
    else [s[0]] + InsertDescending(x, s[1..], key)
  }

  function SortDescending<T(!new)>(s: seq<T>, key: T -> nat): (r: seq<T>)
    ensures |r| == |s|
    ensures forall y :: y in r <==> y in s
  {
    if s == [] then [] else InsertDescending(s[0], SortDescending(s[1..], key), key)
  }

  lemma ConsKeepsOrder<T(!new)>(x: T, t: seq<T>, key: T -> nat)
    requires Descending(t, key) && forall j :: 0 <= j < |t| ==> key(x) >= key(t[j])
    ensures Descending([x] + t, key)
    ensures NoDup(t) && x !in t ==> NoDup([x] + t)
  {
  }

  lemma {:induction false} InsertKeepsOrder<T(!new)>(x: T, s: seq<T>, key: T -> nat)
    requires Descending(s, key)
    ensures Descending(InsertDescending(x, s, key), key)
    ensures NoDup(s) && x !in s ==> NoDup(InsertDescending(x, s, key))
  {
    if s != [] && key(x) < key(s[0]) {
      var tail := s[1..];
      assert Descending(tail, key) && (NoDup(s) ==> NoDup(tail) && s[0] !in tail);
      InsertKeepsOrder(x, tail, key);
      var t := InsertDescending(x, tail, key);
      forall j | 0 <= j < |t| ensures key(s[0]) >= key(t[j]) {
        assert t[j] in t;
      }
      assert NoDup(s) && x !in s ==> s[0] !in t && NoDup(t);
      ConsKeepsOrder(s[0], t, key);
    }
  }

  lemma {:induction false} SortFacts<T(!new)>(s: seq<T>, key: T -> nat)
    ensures Descending(SortDescending(s, key), key)
    ensures NoDup(s) ==> NoDup(SortDescending(s, key))
  {
    if s != [] {
      SortFacts(s[1..], key);
      InsertKeepsOrder(s[0], SortDescending(s[1..], key), key);
      if NoDup(s) {
        assert s[0] !in s[1..];
      }
    }
  }

  /** Sorting distinct keys gives a strictly descending sequence. */
  lemma SortStrict<T(!new)>(s: seq<T>, key: T -> nat)
    requires forall i, j :: 0 <= i < j < |s| ==> key(s[i]) != key(s[j])
    ensures var r := SortDescending(s, key);
            forall i, j :: 0 <= i < j < |r| ==> key(r[i]) > key(r[j])
  {
    var r := SortDescending(s, key);
    assert NoDup(s);
    SortFacts(s, key);
    forall i, j | 0 <= i < j < |r| ensures key(r[i]) > key(r[j]) {
      assert r[i] in s && r[j] in s && r[i] != r[j];
    }
  }

  function Itself(x: nat): nat {
    x
  }

  lemma StrictIndices(s: seq<nat>, q: seq<nat>)
    requires NoDup(s) && q == SortDescending(s, Itself)
    ensures forall i, j :: 0 <= i < j < |q| ==> q[i] > q[j]
  {
    forall i, j | 0 <= i < j < |s| ensures Itself(s[i]) != Itself(s[j]) {
    }
    SortStrict(s, Itself);
    forall i, j | 0 <= i < j < |q| ensures q[i] > q[j] {
      assert Itself(q[i]) > Itself(q[j]);
    }
  }
}
