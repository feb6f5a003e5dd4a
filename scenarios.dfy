/**
  Clients of the hash map that use only the contracts of its methods and the
  lemmas of `Tables`: what a caller of put, get and remove can rely on.
 */
module Scenarios {
  import opened Chains
  import opened Tables
  import opened Hashmap

  /** Get right after put of the same key returns the value put, with or without a rehash. */
  method PutThenGet<K(!new), V>(m: HashMap<K, V>, k: K, v: V) returns (r: Option<V>)
    requires m.Valid() && Lawful(m.hash, m.cmp)
    modifies m, m.buckets
    ensures m.Valid() && r == Some(v)
  {
    ghost var t := m.buckets[..];
    ghost var capacity := m.capacity;
    m.Put(k, v);
    ghost var grow := m.capacity != capacity;
    assert m.buckets[..] == if grow then Tables.Rehash(Insert(t, m.hash, m.cmp, k, v), m.hash)
                            else Insert(t, m.hash, m.cmp, k, v);
    assert m.cmp(k, k) == 0;
    LookupAfterPut(t, m.hash, m.cmp, k, v, grow, k);
    r := m.Get(Some(k));
  }

  /** Get right after remove of the same key finds nothing. */
  method RemoveThenGet<K(!new), V>(m: HashMap<K, V>, k: K) returns (r: Option<V>)
    requires m.Valid() && Lawful(m.hash, m.cmp)
    modifies m, m.buckets
    ensures m.Valid() && r == None
  {
    ghost var t := m.buckets[..];
    m.Remove(k);
    assert m.buckets[..] == Delete(t, m.hash, m.cmp, k);
    LookupAfterDelete(t, m.hash, m.cmp, k);
    r := m.Get(Some(k));
  }

  /** Thirteen keys, no two matching, put into a new map: after the twelfth the
      load factor is exactly 0.75 and nothing happens; the thirteenth exceeds it
      and doubles the capacity to 32. Every key is then looked up to its value. */
  method GrowthScenario<K(!new), V>(hash: K -> nat, cmp: (K, K) -> int,
                                    keyDestruct: Destructor<K>, valueDestruct: Destructor<V>,
                                    keys: seq<K>, values: seq<V>)
    returns (m: HashMap<K, V>)
    requires Lawful(hash, cmp) && |keys| == 13 && |values| == 13
    requires forall i, j :: 0 <= i < 13 && 0 <= j < 13 && i != j ==> cmp(keys[i], keys[j]) != 0
    ensures m.Valid() && m.capacity == 32 && m.count == 13
    ensures forall j :: 0 <= j < 13 ==> Lookup(m.buckets[..], hash, cmp, keys[j]) == Some(values[j])
  {
    m := new HashMap(hash, cmp, keyDestruct, valueDestruct);
    forall j | 0 <= j < 13 ensures Lookup(m.buckets[..], hash, cmp, keys[j]) == None {
      assert m.buckets[..][hash(keys[j]) % 16] == [];
    }
    var i := 0;
    while i < 13
      invariant 0 <= i <= 13
      invariant fresh(m) && fresh(m.buckets) && m.Valid()
      invariant m.hash == hash && m.cmp == cmp
      invariant m.count == i && m.capacity == if i <= 12 then 16 else 32
      invariant forall j :: 0 <= j < i ==> Lookup(m.buckets[..], hash, cmp, keys[j]) == Some(values[j])
      invariant forall j :: i <= j < 13 ==> Lookup(m.buckets[..], hash, cmp, keys[j]) == None
    {
      ghost var t := m.buckets[..];
      ghost var capacity := m.capacity;
      assert Find(t[hash(keys[i]) % capacity], keys[i], cmp) == None by {
        assert Lookup(t, hash, cmp, keys[i]) == None;
      }
      m.Put(keys[i], values[i]);
      ghost var grow := m.capacity != capacity;
      assert m.buckets[..] == if grow then Tables.Rehash(Insert(t, hash, cmp, keys[i], values[i]), hash)
                              else Insert(t, hash, cmp, keys[i], values[i]);
      forall j | 0 <= j < 13
        ensures Lookup(m.buckets[..], hash, cmp, keys[j])
                == if cmp(keys[i], keys[j]) == 0 then Some(values[i]) else Lookup(t, hash, cmp, keys[j])
      {
        LookupAfterPut(t, hash, cmp, keys[i], values[i], grow, keys[j]);
      }
      assert cmp(keys[i], keys[i]) == 0;
      i := i + 1;
    }
  }

  /** A walk-through with the identity hash and numeric equality: put(1, 2),
      get(1) = 2, put(1, 5), get(1) = 5, remove(1), get(1) = nothing, destroy. */
  method Example() returns (first: Option<nat>, second: Option<nat>, third: Option<nat>)
    ensures first == Some(2) && second == Some(5) && third == None
  {
    var m := new HashMap<nat, nat>(x => x, (x, y) => if x == y then 0 else 1, _ => (), _ => ());
    m.Put(1, 2);
    first := m.Get(Some(1));
    m.Put(1, 5);
    second := m.Get(Some(1));
    m.Remove(1);
    third := m.Get(Some(1));
    m.Destroy();
  }
}
