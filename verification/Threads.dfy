/** Threads as program counters: a map from thread id to the point it is at. */
module Threads {
  type Tid = nat

  ghost function At<P(!new)>(pcs: map<Tid, P>, here: P -> bool): set<Tid> {
    set t | t in pcs && here(pcs[t])
  }

  ghost function Count<P(!new)>(pcs: map<Tid, P>, here: P -> bool): nat {
    |At(pcs, here)|
  }

  /** Moving one thread changes a count by what that thread gains and loses. */
  lemma CountMove<P(!new)>(pcs: map<Tid, P>, t: Tid, p: P, here: P -> bool)
    ensures Count(pcs[t := p], here)
            == Count(pcs, here) - (if t in pcs && here(pcs[t]) then 1 else 0) + (if here(p) then 1 else 0)
  {
    var before, after := At(pcs, here), At(pcs[t := p], here);
    if here(p) {
      assert after == before + {t};
    } else {
      assert after == before - {t};
    }
  }

  lemma CountSome<P(!new)>(pcs: map<Tid, P>, t: Tid, here: P -> bool)
    requires t in pcs && here(pcs[t])
    ensures Count(pcs, here) > 0
  {
    assert t in At(pcs, here);
  }

  lemma CountZero<P(!new)>(pcs: map<Tid, P>, here: P -> bool)
    ensures Count(pcs, here) == 0 <==> forall t :: t in pcs ==> !here(pcs[t])
  {
    assert At(pcs, here) == {} <==> forall t :: t in pcs ==> t !in At(pcs, here);
  }

  /** A thread that ends takes its own share of a count with it. */
  lemma CountEnd<P(!new)>(pcs: map<Tid, P>, t: Tid, here: P -> bool)
    requires t in pcs
    ensures Count(pcs - {t}, here) == Count(pcs, here) - (if here(pcs[t]) then 1 else 0)
  {
    assert At(pcs - {t}, here) == At(pcs, here) - {t};
  }

  function Started<P>(pcs: map<Tid, P>, created: set<Tid>, p: P): map<Tid, P> {
    pcs + map t | t in created :: p
  }

  lemma CountStart<P(!new)>(pcs: map<Tid, P>, created: set<Tid>, p: P, here: P -> bool)
    requires created !! pcs.Keys && here(p)
    ensures Count(Started(pcs, created, p), here) == Count(pcs, here) + |created|
    ensures |Started(pcs, created, p)| == |pcs| + |created|
  {
    var before, after := At(pcs, here), At(Started(pcs, created, p), here);
    StartedKeys(pcs, created, p);
    StartedAt(pcs, created, p, here);
    assert before !! created;
    assert |before + created| == |before| + |created|;
  }

  lemma StartedKeys<P>(pcs: map<Tid, P>, created: set<Tid>, p: P)
    requires created !! pcs.Keys
    ensures |Started(pcs, created, p)| == |pcs| + |created|
  {
    assert Started(pcs, created, p).Keys == pcs.Keys + created;
    assert |pcs.Keys + created| == |pcs.Keys| + |created|;
  }

  lemma StartedAt<P(!new)>(pcs: map<Tid, P>, created: set<Tid>, p: P, here: P -> bool)
    requires created !! pcs.Keys && here(p)
    ensures At(Started(pcs, created, p), here) == At(pcs, here) + created
  {}

  lemma Assoc<T>(a: seq<T>, b: seq<T>, c: seq<T>)
    ensures (a + b) + c == a + (b + c)
  {}
}
