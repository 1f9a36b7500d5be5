/** Linear probing with tombstones, on values: what LPHashTable of Linearprobe.cpp keeps true of its
    two arrays, and what they stand for. */
module ProbeTable {
  import opened Ring

  /** An entry of `table`: NULL or a pair. */
  datatype Slot<K, V> = Empty | Full(key: K, value: V)

  /** Slot k comes before slot i when probing from h. */
  predicate Before(h: nat, i: nat, k: nat) {
    if h <= i then h <= k < i else k >= h || k < i
  }

  /** Probing from h goes up by one slot at a time and around the end: the slots before slot i are those
      that fewer steps reach. */
  lemma ProbeOrder(h: nat, i: nat, k: nat, n: nat)
    requires h < n && i < n && k < n
    ensures Before(h, i, k) <==> Wrap(k + n - h, n) < Wrap(i + n - h, n)
    ensures Wrap(h + Wrap(i + n - h, n), n) == i
  {
    hide Wrap;
  }

  /** Slot k is on the cyclic path from h to j, both included. */
  predicate OnPath(h: nat, j: nat, k: nat) {
    Before(h, j, k) || k == j
  }

  predicate Holds<K(==), V>(t: seq<Slot<K, V>>, i: nat, key: K) {
    i < |t| && t[i].Full? && t[i].key == key
  }

  /** Slot i is the first in probe order from the home of the key to hold it. */
  predicate FirstHolding<K(==), V>(t: seq<Slot<K, V>>, hash: (K, nat) -> nat, i: nat, key: K) {
    && Holds(t, i, key)
    && forall k | 0 <= k < |t| && Before(hash(key, |t|), i, k) :: !Holds(t, k, key)
  }

  /** Every slot that a search passes on its way from the home slot of an entry to the entry has its
      should_probe mark. */
  predicate Chained<K, V>(t: seq<Slot<K, V>>, p: seq<bool>, hash: (K, nat) -> nat, j: nat)
    requires j < |t|
  {
    t[j].Full? ==> forall k | 0 <= k < |p| && OnPath(hash(t[j].key, |t|), j, k) :: p[k]
  }

  ghost predicate ChainInv<K, V>(t: seq<Slot<K, V>>, p: seq<bool>, hash: (K, nat) -> nat) {
    |p| == |t| && forall j | 0 <= j < |t| :: Chained(t, p, hash, j)
  }

  ghost function PairOf<K, V>(s: Slot<K, V>): multiset<(K, V)> {
    match s case Empty => multiset{} case Full(k, v) => multiset{(k, v)}
  }

  /** The pairs in a table. */
  ghost function Pairs<K, V>(t: seq<Slot<K, V>>): multiset<(K, V)> {
    if t == [] then multiset{} else Pairs(t[..|t| - 1]) + PairOf(t[|t| - 1])
  }

  lemma {:induction false} PairsOfUpdate<K, V>(t: seq<Slot<K, V>>, i: nat, s: Slot<K, V>)
    requires i < |t|
    ensures PairOf(t[i]) <= Pairs(t)
    ensures Pairs(t[i := s]) == Pairs(t) - PairOf(t[i]) + PairOf(s)
  {
    var n := |t| - 1;
    if i == n {
      assert t[i := s][..n] == t[..n];
      Exchange(Pairs(t[..n]), multiset{}, PairOf(t[n]), PairOf(s));
    } else {
      PairsOfUpdate(t[..n], i, s);
      assert t[i := s][..n] == t[..n][i := s];
      hide PairOf;
      Exchange(Pairs(t[..n]), PairOf(t[i]), PairOf(t[n]), PairOf(s));
    }
  }

  lemma Exchange<T>(a: multiset<T>, x: multiset<T>, z: multiset<T>, y: multiset<T>)
    requires x <= a
    ensures (a - x + y) + z == (a + z) - x + y
    ensures a + y == (a + z) - z + y
    ensures x <= a + z && z <= a + z
  {}

  /** A pair is in the multiset exactly when some slot holds it. */
  lemma {:induction false} SlotOfPair<K, V>(t: seq<Slot<K, V>>, key: K, value: V)
    ensures (key, value) in Pairs(t) <==> exists i :: 0 <= i < |t| && t[i] == Full(key, value)
  {
    if t != [] {
      SlotOfPair(t[..|t| - 1], key, value);
    }
  }

  /** A table with fewer pairs than slots has an empty slot. */
  lemma {:induction false} EmptySlotExists<K, V>(t: seq<Slot<K, V>>) returns (e: nat)
    requires |Pairs(t)| < |t|
    ensures e < |t| && t[e].Empty?
  {
    var n := |t| - 1;
    if t[n].Empty? {
      e := n;
    } else {
      e := EmptySlotExists(t[..n]);
    }
  }

  lemma {:induction false} NoMorePairsThanSlots<K, V>(t: seq<Slot<K, V>>)
    ensures |Pairs(t)| <= |t|
  {
    if t != [] {
      NoMorePairsThanSlots(t[..|t| - 1]);
    }
  }

  lemma PairsOfPrefix<K, V>(t: seq<Slot<K, V>>, i: nat)
    requires i < |t|
    ensures Pairs(t[..i + 1]) == Pairs(t[..i]) + PairOf(t[i])
  {
    assert t[..i + 1][..i] == t[..i];
  }

  lemma EmptyChains<K, V>(t: seq<Slot<K, V>>, p: seq<bool>, hash: (K, nat) -> nat)
    requires |t| == |p| && forall i | 0 <= i < |t| :: t[i].Empty?
    ensures ChainInv(t, p, hash) && Pairs(t) == multiset{}
  {
    NoPairs(t);
  }

  lemma {:induction false} NoPairs<K, V>(t: seq<Slot<K, V>>)
    requires forall i | 0 <= i < |t| :: t[i].Empty?
    ensures Pairs(t) == multiset{}
  {
    if t != [] {
      NoPairs(t[..|t| - 1]);
    }
  }

  /** A search that stops at slot i before passing slot j would find i on the path to j. */
  lemma StopsOnPath(h: nat, i: nat, j: nat)
    requires !Before(h, i, j)
    ensures OnPath(h, j, i)
  {}

  /** Filling the first empty slot from the home of the key, and marking it, keeps the chains. */
  lemma FillKeepsChains<K, V>(t: seq<Slot<K, V>>, p: seq<bool>, hash: (K, nat) -> nat, i: nat, key: K, value: V)
    requires ChainInv(t, p, hash) && i < |t| && t[i].Empty?
    requires forall k | 0 <= k < |t| && Before(hash(key, |t|), i, k) :: t[k].Full?
    ensures ChainInv(t[i := Full(key, value)], p[i := true], hash)
  {
    var t', p' := t[i := Full(key, value)], p[i := true];
    forall j | 0 <= j < |t|
      ensures Chained(t', p', hash, j)
    {
      assert Chained(t, p, hash, j);
      forall k | 0 <= k < |t| && Before(hash(key, |t|), i, k)
        ensures p[k]
      {
        assert Chained(t, p, hash, k) && OnPath(hash(t[k].key, |t|), k, k);
      }
    }
  }

  lemma StoreKeepsChains<K, V>(t: seq<Slot<K, V>>, p: seq<bool>, hash: (K, nat) -> nat, i: nat, value: V)
    requires ChainInv(t, p, hash) && i < |t| && t[i].Full?
    ensures ChainInv(t[i := Full(t[i].key, value)], p, hash)
  {
    var t' := t[i := Full(t[i].key, value)];
    forall j | 0 <= j < |t'|
      ensures Chained(t', p, hash, j)
    {
      assert Chained(t, p, hash, j);
    }
  }

  lemma EmptyKeepsChains<K, V>(t: seq<Slot<K, V>>, p: seq<bool>, hash: (K, nat) -> nat, i: nat)
    requires ChainInv(t, p, hash) && i < |t|
    ensures ChainInv(t[i := Empty], p, hash)
  {
    var t' := t[i := Empty];
    forall j | 0 <= j < |t'|
      ensures Chained(t', p, hash, j)
    {
      assert Chained(t, p, hash, j);
    }
  }

  // ---- The map that a table stands for when no key is in it twice ----

  ghost predicate Functional<K(!new), V(!new)>(ps: multiset<(K, V)>) {
    && (forall p | p in ps :: ps[p] == 1)
    && (forall k: K, v: V, v': V | (k, v) in ps && (k, v') in ps :: v == v')
  }

  ghost function KeysOf<K(!new), V(!new)>(ps: multiset<(K, V)>): (ks: set<K>)
    ensures forall k: K, v: V :: (k, v) in ps ==> k in ks
    ensures forall k :: k in ks ==> exists v :: (k, v) in ps
  {
    var ks := set p | p in ps :: p.0;
    assert forall k: K, v: V :: (k, v) in ps ==> (k, v).0 in ks;
    ks
  }

  ghost function ValueOf<K(!new), V(!new)>(ps: multiset<(K, V)>, k: K): (v: V)
    requires k in KeysOf(ps)
    ensures (k, v) in ps
  {
    var v :| (k, v) in ps;
    v
  }

  ghost function MapOf<K(!new), V(!new)>(ps: multiset<(K, V)>): map<K, V> {
    map k | k in KeysOf(ps) :: ValueOf(ps, k)
  }

  /** A key is mapped to a value exactly when the pair is there. */
  lemma InMapOf<K(!new), V(!new)>(ps: multiset<(K, V)>, k: K, v: V)
    requires Functional(ps)
    ensures (k, v) in ps <==> Maps(MapOf(ps), k, v)
  {}

  predicate Maps<K(==), V(==)>(m: map<K, V>, k: K, v: V) {
    k in m && m[k] == v
  }

  lemma SameMap<K(!new), V(!new)>(m: map<K, V>, n: map<K, V>)
    requires forall k, v :: Maps(m, k, v) <==> Maps(n, k, v)
    ensures m == n
  {
    forall k
      ensures k in m <==> k in n
      ensures k in m ==> m[k] == n[k]
    {
      assert k in m ==> Maps(m, k, m[k]);
      assert k in n ==> Maps(n, k, n[k]);
    }
  }

  /** Adding a pair with a new key. */
  lemma MapOfAdd<K(!new), V(!new)>(ps: multiset<(K, V)>, k: K, v: V)
    requires Functional(ps) && k !in MapOf(ps)
    ensures Functional(ps + multiset{(k, v)})
    ensures MapOf(ps + multiset{(k, v)}) == MapOf(ps)[k := v]
  {
    assert k !in KeysOf(ps);
    hide KeysOf, MapOf;
    var qs := ps + multiset{(k, v)};
    assert forall q :: q in qs <==> q in ps || q == (k, v);
    assert Functional(qs);
    hide Functional;
    forall x, y
      ensures Maps(MapOf(qs), x, y) <==> Maps(MapOf(ps)[k := v], x, y)
    {
      InMapOf(qs, x, y);
      InMapOf(ps, x, y);
    }
    SameMap(MapOf(qs), MapOf(ps)[k := v]);
  }

  /** Removing the pair with a key. */
  lemma MapOfRemove<K(!new), V(!new)>(ps: multiset<(K, V)>, k: K, v: V)
    requires Functional(ps) && (k, v) in ps
    ensures Functional(ps - multiset{(k, v)})
    ensures MapOf(ps - multiset{(k, v)}) == MapOf(ps) - {k}
  {
    hide KeysOf, MapOf;
    var qs := ps - multiset{(k, v)};
    assert ps[(k, v)] == 1;
    assert forall q :: q in qs <==> q in ps && q != (k, v);
    assert forall q :: q in qs ==> qs[q] == ps[q];
    assert Functional(qs);
    forall x, y
      ensures Maps(MapOf(qs), x, y) <==> Maps(MapOf(ps) - {k}, x, y)
    {
      InMapOf(qs, x, y);
      InMapOf(ps, x, y);
    }
    SameMap(MapOf(qs), MapOf(ps) - {k});
  }
}
