/** The linear-probing hash table of Linearprobe.cpp. The functions hash, findPrime and shouldResize
    are defined elsewhere in the source; here they are given to the constructor, with what the class
    needs of them. */
module HashTable {
  import opened ProbeTable
  import opened Ring

  class LPHashTable<K(==, !new), V(!new)> {
    const hash: (K, nat) -> nat
    const findPrime: nat -> nat
    /** shouldResize of the number of elements and the size. */
    const shouldResize: (nat, nat) -> bool
    /** V() */
    const default: V

    var table: array<Slot<K, V>>
    var shouldProbe: array<bool>
    var size: nat
    var elems: nat

    ghost predicate Helpers() {
      && (forall k, n: nat | n > 0 :: hash(k, n) < n)
      && (forall n: nat :: findPrime(n) >= n)
      && (forall e: nat, n: nat | e >= n :: shouldResize(e, n))
    }

    /** The pairs in the table. */
    ghost function Contents(): multiset<(K, V)>
      reads this, table
    {
      Pairs(table[..])
    }

    ghost predicate Valid()
      reads this, table, shouldProbe
    {
      && Helpers()
      && table.Length == shouldProbe.Length == size > 0
      && ChainInv(table[..], shouldProbe[..], hash)
      && elems == |Contents()|
    }

    ghost function Map(): map<K, V>
      reads this, table
    {
      MapOf(Contents())
    }

    constructor (tsize: nat, hash: (K, nat) -> nat, findPrime: nat -> nat, shouldResize: (nat, nat) -> bool, default: V)
      requires forall k, n: nat | n > 0 :: hash(k, n) < n
      requires forall n: nat :: findPrime(n) >= n
      requires forall e: nat, n: nat | e >= n :: shouldResize(e, n)
      ensures Valid() && Contents() == multiset{} && size >= tsize
      ensures size == findPrime(if tsize == 0 then 17 else tsize)
      ensures fresh(table) && fresh(shouldProbe)
    {
      this.hash, this.findPrime, this.shouldResize, this.default := hash, findPrime, shouldResize, default;
      var n := findPrime(if tsize <= 0 then 17 else tsize);
      var t, p := new Slot<K, V>[n](_ => Empty), new bool[n](_ => false);
      table, shouldProbe, size, elems := t, p, n, 0;
      new;
      NoPairs(table[..]);
    }

    /** The first slot in probe order that holds the key, or -1 exactly when no slot does. */
    method FindIndex(key: K) returns (r: int)
      requires Valid()
      ensures r == -1 <==> forall j | 0 <= j < size :: !Holds(table[..], j, key)
      ensures r != -1 ==> 0 <= r < size && FirstHolding(table[..], hash, r, key)
    {
      var i: nat := hash(key, size);
      var ending := i;
      ghost var left := size;
      while shouldProbe[i]
        invariant i < size && ending == hash(key, size)
        invariant forall k | 0 <= k < size && Before(ending, i, k) :: !Holds(table[..], k, key)
        invariant left == if i >= ending then size - (i - ending) else ending - i
        decreases left
      {
        if table[i].Full? && table[i].key == key {
          assert Holds(table[..], i, key);
          return i;
        }
        i := Wrap(i + 1, size);
        left := left - 1;
        if i == ending {
          return -1;
        }
      }
      forall j | 0 <= j < size
        ensures !Holds(table[..], j, key)
      {
        assert Chained(table[..], shouldProbe[..], hash, j);
        if !Before(ending, i, j) {
          StopsOnPath(ending, i, j);
          assert !shouldProbe[..][i];
        }
      }
      return -1;
    }

    /** The probe loops of insert and resizeTable: the pair goes to the first empty slot from its
        home, which gets its mark. */
    method Place(t: array<Slot<K, V>>, p: array<bool>, key: K, value: V) returns (i: nat)
      requires Helpers() && t.Length == p.Length && |Pairs(t[..])| < t.Length
      requires ChainInv(t[..], p[..], hash)
      modifies t, p
      ensures i < t.Length && old(t[i]).Empty?
      ensures forall k | 0 <= k < t.Length && Before(hash(key, t.Length), i, k) :: old(t[k]).Full?
      ensures t[..] == old(t[..])[i := Full(key, value)] && p[..] == old(p[..])[i := true]
      ensures ChainInv(t[..], p[..], hash) && Pairs(t[..]) == old(Pairs(t[..])) + multiset{(key, value)}
    {
      hide ChainInv, Pairs;
      ghost var t0, p0 := t[..], p[..];
      ghost var e := EmptySlotExists(t0);
      i := hash(key, t.Length);
      ghost var h := i;
      while t[i].Full?
        invariant i < t.Length && t[..] == t0 && p[..] == p0
        invariant forall k | 0 <= k < t.Length && Before(h, i, k) :: t0[k].Full?
        decreases if i <= e then e - i else e - i + t.Length
      {
        i := Wrap(i + 1, t.Length);
      }
      FillKeepsChains(t0, p0, hash, i, key, value);
      PairsOfUpdate(t0, i, Full(key, value));
      t[i] := Full(key, value);
      p[i] := true;
    }

    method Insert(key: K, value: V)
      requires Valid()
      modifies this, table, shouldProbe
      ensures Valid() && Contents() == old(Contents()) + multiset{(key, value)}
      ensures elems == old(elems) + 1
      ensures size == if shouldResize(old(elems) + 1, old(size)) then findPrime(2 * old(size)) else old(size)
      ensures old(Functional(Contents())) && key !in old(Map()) ==>
              Functional(Contents()) && Map() == old(Map())[key := value]
      ensures fresh(table) || table == old(table)
      ensures fresh(shouldProbe) || shouldProbe == old(shouldProbe)
    {
      elems := elems + 1;
      NoMorePairsThanSlots(table[..]);
      if shouldResize(elems, size) {
        ResizeTable();
      }
      var i := Place(table, shouldProbe, key, value);
      InsertMap(old(Contents()), key, value);
    }

    /** The second loop of resizeTable. */
    method Rehash(t: array<Slot<K, V>>, p: array<bool>)
      requires Helpers() && table.Length == size && t.Length == p.Length > size
      requires t != table && forall k | 0 <= k < t.Length :: t[k].Empty? && !p[k]
      modifies t, p
      ensures ChainInv(t[..], p[..], hash) && Pairs(t[..]) == Contents()
      ensures forall k | 0 <= k < t.Length :: p[k] == t[k].Full?
    {
      hide ChainInv, Pairs, Helpers;
      EmptyChains(t[..], p[..], hash);
      ghost var s := table[..];
      EmptyChains<K, V>([], [], hash);
      for i := 0 to size
        invariant table[..] == s && ChainInv(t[..], p[..], hash)
        invariant forall k | 0 <= k < t.Length :: p[k] == t[k].Full?
        invariant Pairs(t[..]) == Pairs(s[..i])
      {
        PairsOfPrefix(s, i);
        NoMorePairsThanSlots(s[..i]);
        if table[i].Full? {
          var index := Place(t, p, table[i].key, table[i].value);
        }
      }
      assert s[..size] == s;
    }

    /** Moves every pair to a table of at least twice the size, which has no tombstones: a mark
        stands exactly where a pair does. */
    method ResizeTable()
      requires Helpers() && table.Length == shouldProbe.Length == size > 0
      modifies this`table, this`shouldProbe, this`size
      ensures table.Length == shouldProbe.Length == size == findPrime(2 * old(size))
      ensures ChainInv(table[..], shouldProbe[..], hash) && Contents() == old(Contents())
      ensures forall i | 0 <= i < size :: shouldProbe[i] == table[i].Full?
      ensures fresh(table) && fresh(shouldProbe)
    {
      hide ChainInv, Pairs;
      var changedSize := findPrime(size * 2);
      var newTable := new Slot<K, V>[changedSize](_ => Empty);
      shouldProbe := new bool[changedSize](_ => false);
      Rehash(newTable, shouldProbe);
      table := newTable;
      size := changedSize;
    }

    /** Deletes the first pair in probe order that has the key; its mark stays as a tombstone. */
    method Remove(key: K)
      requires Valid()
      modifies this`elems, table
      ensures Valid()
      ensures key !in KeysOf(old(Contents())) ==> Contents() == old(Contents())
      ensures key in KeysOf(old(Contents())) ==>
              exists i: nat :: FirstHolding(old(table[..]), hash, i, key) &&
                Contents() == old(Contents()) - multiset{(key, old(table[..])[i].value)}
      ensures old(Functional(Contents())) ==> Functional(Contents()) && Map() == old(Map()) - {key}
    {
      hide Pairs, ChainInv;
      var i := FindIndex(key);
      KeyInSlot(table[..], key);
      ghost var t := table[..];
      if i != -1 {
        PairsOfUpdate(t, i, Empty);
        EmptyKeepsChains(t, shouldProbe[..], hash, i);
        table[i] := Empty;
        elems := elems - 1;
        assert table[..] == t[i := Empty];
        RemoveAtMap(t, i, key);
      } else if Functional(Contents()) {
        assert Map() - {key} == Map();
      }
    }

    /** The value of the first pair in probe order that has the key, or the default. */
    method Find(key: K) returns (value: V)
      requires Valid()
      ensures key in KeysOf(Contents()) ==>
              exists i: nat :: FirstHolding(table[..], hash, i, key) && value == table[..][i].value
      ensures key !in KeysOf(Contents()) ==> value == default
      ensures Functional(Contents()) ==> value == if key in Map() then Map()[key] else default
    {
      var idx := FindIndex(key);
      KeyInSlot(table[..], key);
      if idx != -1 {
        assert FirstHolding(table[..], hash, idx, key);
        value := table[idx].value;
        SlotOfPair(table[..], key, value);
        if Functional(Contents()) {
          InMapOf(Contents(), key, value);
        }
      } else {
        value := default;
      }
    }

    method KeyExists(key: K) returns (b: bool)
      requires Valid()
      ensures b <==> key in KeysOf(Contents())
    {
      var idx := FindIndex(key);
      KeyInSlot(table[..], key);
      b := idx != -1;
    }

    /** operator[]: the first slot in probe order of the key, after inserting the default when the key is not there. The
        caller may store through the reference, see Assign. */
    method Index(key: K) returns (idx: int)
      requires Valid()
      modifies this, table, shouldProbe
      ensures Valid() && 0 <= idx < size && FirstHolding(table[..], hash, idx, key)
      ensures if key in KeysOf(old(Contents())) then table == old(table) && table[..] == old(table[..])
              else Contents() == old(Contents()) + multiset{(key, default)}
      ensures fresh(table) || table == old(table)
      ensures fresh(shouldProbe) || shouldProbe == old(shouldProbe)
    {
      idx := FindIndex(key);
      KeyInSlot(table[..], key);
      if idx == -1 {
        Insert(key, default);
        idx := FindIndex(key);
        KeyInSlot(table[..], key);
        assert (key, default) in Contents();
      }
    }

    /** A store through the reference that operator[] returns. */
    method Assign(key: K, value: V)
      requires Valid()
      modifies this, table, shouldProbe
      ensures Valid()
      ensures key !in KeysOf(old(Contents())) ==> Contents() == old(Contents()) + multiset{(key, value)}
      ensures key in KeysOf(old(Contents())) ==>
              exists i: nat :: FirstHolding(old(table[..]), hash, i, key) &&
                Contents() == old(Contents()) - multiset{(key, old(table[..])[i].value)} + multiset{(key, value)}
      ensures old(Functional(Contents())) ==> Functional(Contents()) && Map() == old(Map())[key := value]
    {
      hide Pairs, ChainInv, FirstHolding, Functional, MapOf, KeysOf;
      var idx := Index(key);
      ghost var t := table[..];
      FirstHolds(t, hash, idx, key);
      ghost var v := t[idx].value;
      PairsOfUpdate(t, idx, Full(key, value));
      StoreKeepsChains(t, shouldProbe[..], hash, idx, value);
      table[idx] := Full(key, value);
      assert table[..] == t[idx := Full(key, value)];
      AssignMap(old(Contents()), Pairs(t), key, default, v, value);
      OnlyPair(old(Contents()), key, default, v, value);
    }
  }

  lemma InsertMap<K(!new), V(!new)>(ps: multiset<(K, V)>, key: K, value: V)
    ensures Functional(ps) && key !in MapOf(ps) ==>
            Functional(ps + multiset{(key, value)}) && MapOf(ps + multiset{(key, value)}) == MapOf(ps)[key := value]
  {
    if Functional(ps) && key !in MapOf(ps) {
      MapOfAdd(ps, key, value);
    }
  }

  lemma RemoveAtMap<K(!new), V(!new)>(t: seq<Slot<K, V>>, i: nat, key: K)
    requires Holds(t, i, key)
    ensures var ps, qs := Pairs(t), Pairs(t[i := Empty]);
            Functional(ps) ==> Functional(qs) && MapOf(qs) == MapOf(ps) - {key}
  {
    hide Pairs, Functional, MapOf;
    PairsOfUpdate(t, i, Empty);
    if Functional(Pairs(t)) {
      SlotOfPair(t, key, t[i].value);
      assert t[i] == Full(key, t[i].value);
      MapOfRemove(Pairs(t), key, t[i].value);
      assert Pairs(t[i := Empty]) == Pairs(t) - multiset{(key, t[i].value)};
    }
  }

  /** Finding or inserting a key with the default and then replacing its value. */
  lemma AssignMap<K(!new), V(!new)>(ps: multiset<(K, V)>, qs: multiset<(K, V)>, key: K, default: V, v: V, value: V)
    requires qs == if key in KeysOf(ps) then ps else ps + multiset{(key, default)}
    requires (key, v) in qs
    ensures var rs := qs - multiset{(key, v)} + multiset{(key, value)};
            Functional(ps) ==> Functional(rs) && MapOf(rs) == MapOf(ps)[key := value]
  {
    assert forall m: multiset<(K, V)> :: key in MapOf(m) <==> key in KeysOf(m);
    hide Functional, MapOf, KeysOf;
    if Functional(ps) {
      if key !in MapOf(ps) {
        MapOfAdd(ps, key, default);
      }
      MapOfRemove(qs, key, v);
      MapOfAdd(qs - multiset{(key, v)}, key, value);
      Overwrite(MapOf(ps), key, default, value);
    }
  }

  lemma FirstHolds<K, V>(t: seq<Slot<K, V>>, hash: (K, nat) -> nat, i: nat, key: K)
    requires FirstHolding(t, hash, i, key)
    ensures Holds(t, i, key)
  {}

  lemma OnlyPair<K(!new), V(!new)>(ps: multiset<(K, V)>, key: K, default: V, v: V, value: V)
    requires key !in KeysOf(ps) ==> (key, v) in ps + multiset{(key, default)}
    ensures key !in KeysOf(ps) ==>
            ps + multiset{(key, default)} - multiset{(key, v)} + multiset{(key, value)} == ps + multiset{(key, value)}
  {}

  lemma Overwrite<K, V>(m: map<K, V>, key: K, v: V, value: V)
    ensures (m - {key})[key := value] == m[key := value]
    ensures m[key := v] - {key} == m - {key}
  {}

  lemma KeyInSlot<K(!new), V(!new)>(t: seq<Slot<K, V>>, key: K)
    ensures key in KeysOf(Pairs(t)) <==> exists j :: 0 <= j < |t| && Holds(t, j, key)
  {
    if key in KeysOf(Pairs(t)) {
      var v :| (key, v) in Pairs(t);
      SlotOfPair(t, key, v);
      var i :| 0 <= i < |t| && t[i] == Full(key, v);
      assert Holds(t, i, key);
    }
    if exists j :: 0 <= j < |t| && Holds(t, j, key) {
      var j :| 0 <= j < |t| && Holds(t, j, key);
      SlotOfPair(t, key, t[j].value);
      assert t[j] == Full(key, t[j].value);
    }
  }
}
