/** Versioned slots (`src/graph/stabilized.rs`): a positive version is live, a negative one
    tombstoned, and reuse steps past every version a slot has had. */
module Versions {
  import opened Seqs

  datatype Versioned<+T> = Versioned(version: int, item: T)
  datatype Handle = Handle(version: int, slot: nat)

  function Abs(x: int): nat {
    if x < 0 then -x else x
  }

  /** `contains_node_index`, `contains_edge_index`. */
  predicate Accepts<T>(s: seq<Versioned<T>>, h: Handle) {
    h.version > 0 && h.slot < |s| && s[h.slot].version == h.version
  }

  ghost predicate Dead<T>(s: seq<Versioned<T>>, i: nat) {
    i < |s| && s[i].version < 0
  }

  /** A store whose live entries number all its slots has no tombstone. */
  lemma AllLive<T>(s: seq<Versioned<T>>)
    requires |s| <= |Live(s)|
    ensures forall i: nat :: !Dead(s, i)
  {
    forall i: nat ensures !Dead(s, i) {
      if Dead(s, i) {
        assert Live(s) <= Below(|s|) - {i};
        SubsetCard(Live(s), Below(|s|) - {i});
      }
    }
  }

  ghost function Live<T>(s: seq<Versioned<T>>): set<nat> {
    set i: nat | i < |s| && s[i].version > 0
  }

  /** `log` holds every handle ever issued with the item it was issued for; `gone` those removed
      since.  A handle is accepted exactly until it is removed, and then denotes its item. */
  ghost predicate Issued<T>(s: seq<Versioned<T>>, log: map<Handle, T>, gone: set<Handle>) {
    && (forall i :: 0 <= i < |s| ==> s[i].version != 0)
    && (forall h {:trigger LogOk(s, log, gone, h)} :: h in log ==> LogOk(s, log, gone, h))
    && (forall h {:trigger Accepts(s, h)} :: Accepts(s, h) ==> h in log)
    && gone <= log.Keys
  }

  ghost predicate LogOk<T>(s: seq<Versioned<T>>, log: map<Handle, T>, gone: set<Handle>, h: Handle)
    requires h in log
  {
    && h.version >= 1 && h.slot < |s| && h.version <= Abs(s[h.slot].version)
    && (h in gone <==> !Accepts(s, h))
    && (Accepts(s, h) ==> s[h.slot].item == log[h])
  }

  lemma LiveBound<T>(s: seq<Versioned<T>>, h: Handle)
    ensures Accepts(s, h) ==> |Live(s)| > 0
  {
    if Accepts(s, h) {
      assert h.slot in Live(s);
    }
  }

  lemma Appended<T>(s: seq<Versioned<T>>, log: map<Handle, T>, gone: set<Handle>, x: T)
    requires Issued(s, log, gone)
    ensures var h := Handle(1, |s|);
            && Issued(s + [Versioned(1, x)], log[h := x], gone) && h !in log
            && |Live(s + [Versioned(1, x)])| == |Live(s)| + 1
  {
    var h, s' := Handle(1, |s|), s + [Versioned(1, x)];
    assert h in log ==> LogOk(s, log, gone, h);
    var log' := log[h := x];
    forall k | k in log' ensures LogOk(s', log', gone, k) {
      if k != h {
        assert LogOk(s, log, gone, k);
      }
    }
    forall k | Accepts(s', k) ensures k in log[h := x] {
      if k != h {
        assert Accepts(s, k);
      }
    }
    assert Live(s') == Live(s) + {|s|};
  }

  lemma Revived<T>(s: seq<Versioned<T>>, log: map<Handle, T>, gone: set<Handle>, i: nat, x: T)
    requires Issued(s, log, gone) && i < |s| && s[i].version < 0
    ensures var h := Handle(-s[i].version + 1, i);
            var s' := s[i := Versioned(h.version, x)];
            Issued(s', log[h := x], gone) && h !in log && |Live(s')| == |Live(s)| + 1
  {
    var h := Handle(-s[i].version + 1, i);
    var s' := s[i := Versioned(h.version, x)];
    assert h in log ==> LogOk(s, log, gone, h);
    var log' := log[h := x];
    forall k | k in log' ensures LogOk(s', log', gone, k) {
      if k != h {
        assert LogOk(s, log, gone, k);
        assert Accepts(s', k) == Accepts(s, k);
      }
    }
    forall k | Accepts(s', k) ensures k in log[h := x] {
      if k != h {
        assert Accepts(s, k);
      }
    }
    assert Live(s') == Live(s) + {i};
  }

  lemma Retired<T>(s: seq<Versioned<T>>, log: map<Handle, T>, gone: set<Handle>, h: Handle)
    requires Issued(s, log, gone) && Accepts(s, h)
    ensures var s' := s[h.slot := Versioned(-h.version, s[h.slot].item)];
            && Issued(s', log, gone + {h}) && h !in gone && |Live(s')| == |Live(s)| - 1
            && forall k :: Accepts(s', k) <==> Accepts(s, k) && k != h
  {
    var s' := s[h.slot := Versioned(-h.version, s[h.slot].item)];
    assert LogOk(s, log, gone, h);
    forall k ensures Accepts(s', k) <==> Accepts(s, k) && k != h {
    }
    forall k | k in log ensures LogOk(s', log, gone + {h}, k) {
      assert LogOk(s, log, gone, k);
    }
    assert Live(s) == Live(s') + {h.slot};
  }

  /** The log of slots that all start at version one. */
  ghost function FirstLog<T>(s: seq<Versioned<T>>): (log: map<Handle, T>)
    ensures forall h :: h in log <==> h.version == 1 && h.slot < |s|
    ensures forall h :: h in log ==> log[h] == s[h.slot].item
  {
    map i: nat | i < |s| :: Handle(1, i) := s[i].item
  }

  lemma FirstIssued<T>(s: seq<Versioned<T>>)
    requires forall i :: 0 <= i < |s| ==> s[i].version == 1
    ensures Issued(s, FirstLog(s), {}) && |Live(s)| == |s|
  {
    forall h | h in FirstLog(s) ensures LogOk(s, FirstLog(s), {}, h) {
    }
    assert Live(s) == Below(|s|);
  }
}
