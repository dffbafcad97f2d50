/** A binary heap as its users see it: a multiset that gives up some entry of least weight. */
module Heaps {

  type Entry = (int, nat)
  type Heap = multiset<Entry>

  ghost predicate Lightest(heap: Heap, c: Entry) {
    c in heap && forall d :: d in heap ==> c.0 <= d.0
  }

  lemma {:induction false} LightestExists(heap: Heap)
    requires |heap| > 0
    ensures exists c :: Lightest(heap, c)
    decreases |heap|
  {
    var d :| d in heap;
    var rest := heap - multiset{d};
    if |rest| == 0 {
      assert heap == multiset{d};
      assert Lightest(heap, d);
    } else {
      LightestExists(rest);
      var c :| Lightest(rest, c);
      assert forall x :: x in heap ==> x == d || x in rest;
      assert Lightest(heap, if c.0 <= d.0 then c else d);
    }
  }

  /** The entry `pop` would return; among equals, any. */
  method Lowest(heap: Heap) returns (c: Entry)
    requires heap != multiset{}
    ensures Lightest(heap, c)
  {
    LightestExists(heap);
    c :| c in heap && forall d :: d in heap ==> c.0 <= d.0;
  }
}
