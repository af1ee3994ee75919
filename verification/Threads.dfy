// Counting threads by what they are doing.
module Threads {
  type Tid = nat

  function Those<P>(pcs: map<Tid, P>, f: P -> bool): set<Tid> {
    set t | t in pcs && f(pcs[t])
  }

  function Count<P>(pcs: map<Tid, P>, f: P -> bool): nat {
    |Those(pcs, f)|
  }

  // One thread moves on, or a new one starts.
  lemma CountMoves<P>(pcs: map<Tid, P>, t: Tid, pc: P, f: P -> bool)
    ensures Count(pcs[t := pc], f) ==
      Count(pcs, f) + (if f(pc) then 1 else 0) - (if t in pcs && f(pcs[t]) then 1 else 0)
  {
    var before, after := Those(pcs, f), Those(pcs[t := pc], f);
    forall u
      ensures u in after <==> if u == t then f(pc) else u in before
    {
    }
    hide Those;
    Replaced(before, after, t, f(pc));
  }

  lemma Replaced(before: set<Tid>, after: set<Tid>, t: Tid, now: bool)
    requires forall u :: u in after <==> if u == t then now else u in before
    ensures |after| == |before| + (if now then 1 else 0) - (if t in before then 1 else 0)
  {
    var others := before - {t};
    if t in before {
      assert before == others + {t};
    } else {
      assert before == others;
    }
    if now {
      assert after == others + {t};
    } else {
      assert after == others;
    }
  }

  lemma CountAtLeast<P>(pcs: map<Tid, P>, t: Tid, f: P -> bool)
    requires t in pcs && f(pcs[t])
    ensures Count(pcs, f) >= 1
  {
    assert t in Those(pcs, f);
  }

  lemma CountTwo<P>(pcs: map<Tid, P>, t: Tid, u: Tid, f: P -> bool)
    requires t in pcs && u in pcs && t != u && f(pcs[t]) && f(pcs[u])
    ensures Count(pcs, f) >= 2
  {
    assert {t, u} <= Those(pcs, f);
    SubsetSize({t, u}, Those(pcs, f));
  }

  lemma {:induction false} SubsetSize(a: set<Tid>, b: set<Tid>)
    requires a <= b
    ensures |a| <= |b|
  {
    assert b == a + (b - a);
  }

  lemma SomeThread<P>(pcs: map<Tid, P>, f: P -> bool) returns (t: Tid)
    requires Count(pcs, f) >= 1
    ensures t in pcs && f(pcs[t])
  {
    t :| t in Those(pcs, f);
  }

  lemma CountNone<P>(pcs: map<Tid, P>, f: P -> bool)
    requires forall t | t in pcs :: !f(pcs[t])
    ensures Count(pcs, f) == 0
  {
    assert Those(pcs, f) == {};
  }

  lemma CountAll<P>(pcs: map<Tid, P>, f: P -> bool)
    ensures Count(pcs, f) <= |pcs|
  {
    SubsetSize(Those(pcs, f), pcs.Keys);
    assert |pcs.Keys| == |pcs|;
  }
}
