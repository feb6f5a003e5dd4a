/**
  The separate-chaining hash map of hashmap.c: `struct hash_map` as a class whose
  methods change its bucket array `item_map`, its `map_capacity` and its
  `num_hash_item` in place.

  The client's four function pointers are constant fields. The two destructors
  are opaque to the container; a ghost log records every call made to them, in
  order, so that ownership (which key or value is destroyed, and how often) can
  be stated.
 */
module Hashmap {
  import opened Chains
  import opened Tables

  /** A client destructor: for the container it only consumes its argument. */
  type Destructor<-T> = T -> ()

  /** One call of a client destructor. */
  datatype Event<K, V> = KeyFreed(key: K) | ValueFreed(value: V)

  /** The destructor calls that draining `xs` makes: for each entry in order,
      the key destructor and then the value destructor. */
  function FreeAll<K, V>(xs: seq<Entry<K, V>>): (r: seq<Event<K, V>>)
    ensures |r| == 2 * |xs|
  {
    if xs == [] then []
    else FreeAll(xs[..|xs| - 1]) + [KeyFreed(xs[|xs| - 1].key), ValueFreed(xs[|xs| - 1].value)]
  }

  lemma {:induction false} FreeAllConcat<K, V>(a: seq<Entry<K, V>>, b: seq<Entry<K, V>>)
    ensures FreeAll(a + b) == FreeAll(a) + FreeAll(b)
  {
    if b == [] {
      assert a + b == a;
    } else {
      var b0 := b[..|b| - 1];
      assert (a + b)[..|a + b| - 1] == a + b0;
      FreeAllConcat(a, b0);
    }
  }

  /** Draining destroys every key and every value exactly once: the key of the
      j-th entry at call 2j, its value at call 2j + 1, and nothing else. */
  lemma {:induction false} FreeAllOnce<K, V>(xs: seq<Entry<K, V>>)
    ensures |FreeAll(xs)| == 2 * |xs|
    ensures forall j :: 0 <= j < |xs| ==>
              FreeAll(xs)[2 * j] == KeyFreed(xs[j].key) && FreeAll(xs)[2 * j + 1] == ValueFreed(xs[j].value)
  {
    if xs != [] {
      var xs0 := xs[..|xs| - 1];
      FreeAllOnce(xs0);
      assert forall j :: 0 <= j < |xs0| ==> xs0[j] == xs[j];
    }
  }

  function Pow2(j: nat): (r: nat)
    ensures r >= 1
  {
    if j == 0 then 1 else 2 * Pow2(j - 1)
  }

  class HashMap<K(!new), V> {
    const hash: K -> nat
    const cmp: (K, K) -> int
    const keyDestruct: Destructor<K>
    const valueDestruct: Destructor<V>

    /** `item_map`: bucket `i` is the chain of entries whose hash is `i` modulo the capacity. */
    var buckets: array<seq<Entry<K, V>>>
    /** `map_capacity` */
    var capacity: nat
    /** `num_hash_item`: incremented by every insertion, never decremented. */
    var count: nat

    /** How often the capacity has doubled since construction. */
    ghost var doublings: nat
    /** How many entries remove has unlinked. */
    ghost var removals: nat
    /** Every call made to the client's destructors, in order. */
    ghost var log: seq<Event<K, V>>

    /** The invariant of the map between the steps of put: the capacity is 16
        doubled some number of times, every entry is in the bucket its hash
        selects, the count is the number of live entries plus the removed ones,
        and for a lawful comparison no two entries have matching keys. */
    ghost predicate Shape()
      reads this, buckets
    {
      && buckets.Length == capacity
      && capacity == 16 * Pow2(doublings)
      && Placed(buckets[..], hash)
      && count == |Flatten(buckets[..])| + removals
      && (Lawful(hash, cmp) ==> Unique(buckets[..], cmp))
    }

    /** The invariant of the map between operations: also the load factor is at most 0.75. */
    ghost predicate Valid()
      reads this, buckets
    {
      Shape() && !OverLoaded(count, capacity)
    }

    /** The bucket `k` belongs in. */
    function BucketOf(k: K): (r: nat)
      reads this
      requires capacity > 0
      ensures r < capacity
    {
      hash(k) % capacity
    }

    constructor (hash: K -> nat, cmp: (K, K) -> int, keyDestruct: Destructor<K>, valueDestruct: Destructor<V>)
      ensures Valid() && fresh(buckets)
      ensures this.hash == hash && this.cmp == cmp
      ensures this.keyDestruct == keyDestruct && this.valueDestruct == valueDestruct
      ensures capacity == 16 && count == 0 && log == []
      ensures forall i :: 0 <= i < buckets.Length ==> buckets[i] == []
    {
      this.hash := hash;
      this.cmp := cmp;
      this.keyDestruct := keyDestruct;
      this.valueDestruct := valueDestruct;
      capacity := 16;
      buckets := new seq<Entry<K, V>>[16](_ => []);
      count := 0;
      doublings, removals, log := 0, 0, [];
      new;
      assert buckets[..] == Empty(16);
      FlattenEmpty<K, V>(16);
    }

    /** `hash_map_new`: no map (NULL) when any of the four function pointers is
        NULL, otherwise an empty map of capacity 16. */
    static method New(hash: Option<K -> nat>, cmp: Option<(K, K) -> int>,
                      keyDestruct: Option<Destructor<K>>, valueDestruct: Option<Destructor<V>>)
      returns (m: HashMap?<K, V>)
      ensures m == null <==> keyDestruct.None? || valueDestruct.None? || hash.None? || cmp.None?
      ensures m != null ==> fresh(m) && fresh(m.buckets) && m.Valid()
      ensures m != null ==> m.hash == hash.value && m.cmp == cmp.value
      ensures m != null ==> m.keyDestruct == keyDestruct.value && m.valueDestruct == valueDestruct.value
      ensures m != null ==> m.capacity == 16 && m.count == 0 && m.log == []
      ensures m != null ==> forall i :: 0 <= i < m.buckets.Length ==> m.buckets[i] == []
    {
      if keyDestruct.None? || valueDestruct.None? || hash.None? || cmp.None? {
        return null;
      }
      m := new HashMap(hash.value, cmp.value, keyDestruct.value, valueDestruct.value);
    }

    /** `hash_map_put_entry_move`. When an entry of `k`'s bucket matches `k`, its
        old value is destroyed and `v` stored in its place; the stored key is kept
        and `k` is neither stored nor destroyed. Otherwise `(k, v)` is linked at
        the tail of the bucket, the count goes up by one, and when the new count
        exceeds 0.75 times the capacity the map is rehashed into twice as many
        buckets. */
    method Put(k: K, v: V)
      requires Valid()
      modifies this, buckets
      ensures Valid()
      ensures removals == old(removals)
      ensures var t := old(buckets[..]); var b := old(BucketOf(k)); var s := t[b];
        match Find(s, k, cmp)
        case Some(i) =>
          && buckets == old(buckets) && capacity == old(capacity) && count == old(count)
          && buckets[..] == t[b := s[i := Entry(s[i].key, v)]]
          && log == old(log) + [ValueFreed(s[i].value)]
        case None =>
          && count == old(count) + 1 && log == old(log)
          && var t' := t[b := s + [Entry(k, v)]];
             if OverLoaded(count, old(capacity)) then
               && fresh(buckets) && capacity == 2 * old(capacity)
               && buckets[..] == Tables.Rehash(t', hash)
             else
               && buckets == old(buckets) && capacity == old(capacity)
               && buckets[..] == t'
    {
      var b := hash(k) % capacity;
      var chain := buckets[b];
      var i := 0;
      while i < |chain|
        invariant 0 <= i <= |chain|
        invariant forall j :: 0 <= j < i ==> cmp(chain[j].key, k) != 0
      {
        if cmp(chain[i].key, k) == 0 {
          assert Find(chain, k, cmp) == Some(i);
          log := log + [ValueFreed(chain[i].value)];
          buckets[b] := chain[i := Entry(chain[i].key, v)];
          InsertInvariant(old(buckets[..]), hash, cmp, k, v);
          assert buckets[..] == Insert(old(buckets[..]), hash, cmp, k, v);
          return;
        }
        i := i + 1;
      }
      assert Find(chain, k, cmp) == None;
      ghost var t := buckets[..];
      if chain == [] {
        buckets[b] := [Entry(k, v)];
        assert buckets[b] == chain + [Entry(k, v)];
      } else {
        buckets[b] := chain + [Entry(k, v)];
      }
      count := count + 1;
      InsertInvariant(t, hash, cmp, k, v);
      assert buckets[..] == Insert(t, hash, cmp, k, v);
      if OverLoaded(count, capacity) {
        Rehash();
      }
    }

    /** The rehash inside `hash_map_put_entry_move`: the entries are relinked into
        a fresh array of twice the capacity, which then replaces the old one. */
    method Rehash()
      requires Shape()
      modifies this
      ensures Shape()
      ensures fresh(buckets) && capacity == 2 * old(capacity) && doublings == old(doublings) + 1
      ensures buckets[..] == Tables.Rehash(old(buckets[..]), hash)
      ensures count == old(count) && removals == old(removals) && log == old(log)
    {
      var newCapacity := capacity * 2;
      var newMap := Relink(buckets, newCapacity, hash);
      RehashInvariant(buckets[..], hash, cmp);
      buckets := newMap;
      capacity := newCapacity;
      doublings := doublings + 1;
    }

    /** The loops of the rehash: a `calloc`ed array of `newCapacity` buckets, into
        which every entry of `from`, old buckets in index order and each chain in
        link order, is relinked at the head of bucket `hash(key) % newCapacity`. */
    static method Relink(from: array<seq<Entry<K, V>>>, newCapacity: nat, hash: K -> nat)
      returns (newMap: array<seq<Entry<K, V>>>)
      requires newCapacity > 0
      ensures fresh(newMap)
      ensures newMap[..] == Redistribute(Flatten(from[..]), newCapacity, hash)
    {
      newMap := new seq<Entry<K, V>>[newCapacity](_ => []);
      assert newMap[..] == Empty(newCapacity);
      assert from[..0] == [];
      var i := 0;
      while i < from.Length
        modifies newMap
        invariant 0 <= i <= from.Length
        invariant newMap[..] == Redistribute(Flatten(from[..i]), newCapacity, hash)
      {
        var curr := from[i];
        var p := 0;
        assert Flatten(from[..i]) + curr[..0] == Flatten(from[..i]);
        while p < |curr|
          modifies newMap
          invariant 0 <= p <= |curr|
          invariant newMap[..] == Redistribute(Flatten(from[..i]) + curr[..p], newCapacity, hash)
        {
          var e := curr[p];
          var h := hash(e.key) % newCapacity;
          ghost var xs := Flatten(from[..i]) + curr[..p + 1];
          assert xs[..|xs| - 1] == Flatten(from[..i]) + curr[..p] && xs[|xs| - 1] == e;
          newMap[h] := [e] + newMap[h];
          p := p + 1;
        }
        FlattenSnoc(from[..], i);
        assert from[..][..i + 1] == from[..i + 1] && from[..][..i] == from[..i];
        assert curr[..p] == curr;
        i := i + 1;
      }
      assert from[..from.Length] == from[..];
    }

    /** `hash_map_remove_entry`. When an entry of `k`'s bucket matches `k`, the
        value destructor and then the key destructor are called on it and it is
        unlinked, from the head or from the middle of the chain; nothing else
        changes, and in particular the count is not decremented. Otherwise the map
        is left exactly as it was. */
    method Remove(k: K)
      requires Valid()
      modifies this, buckets
      ensures Valid()
      ensures buckets == old(buckets) && capacity == old(capacity) && count == old(count)
      ensures var t := old(buckets[..]); var b := old(BucketOf(k)); var s := t[b];
        match Find(s, k, cmp)
        case Some(i) =>
          && buckets[..] == t[b := Unlink(s, i)]
          && log == old(log) + [ValueFreed(s[i].value), KeyFreed(s[i].key)]
          && removals == old(removals) + 1
        case None =>
          && buckets[..] == t && log == old(log) && removals == old(removals)
    {
      var b := hash(k) % capacity;
      var chain := buckets[b];
      var i := 0;
      while i < |chain|
        invariant 0 <= i <= |chain|
        invariant forall j :: 0 <= j < i ==> cmp(chain[j].key, k) != 0
      {
        if cmp(chain[i].key, k) == 0 {
          assert Find(chain, k, cmp) == Some(i);
          log := log + [ValueFreed(chain[i].value)];
          log := log + [KeyFreed(chain[i].key)];
          if i == 0 {
            buckets[b] := chain[1..];
          } else {
            buckets[b] := chain[..i] + chain[i + 1..];
          }
          assert buckets[b] == Unlink(chain, i);
          removals := removals + 1;
          DeleteInvariant(old(buckets[..]), hash, cmp, k);
          assert buckets[..] == Delete(old(buckets[..]), hash, cmp, k);
          return;
        }
        i := i + 1;
      }
      assert Find(chain, k, cmp) == None;
    }

    /** `hash_map_get_value_ref`: nothing for a NULL key; otherwise the value of
        the first entry of `k`'s bucket that matches `k`, or nothing when no entry
        matches. The map is not changed. */
    method Get(k: Option<K>) returns (r: Option<V>)
      requires Valid()
      ensures k.None? ==> r == None
      ensures k.Some? ==> r == Lookup(buckets[..], hash, cmp, k.value)
    {
      if k.None? {
        return None;
      }
      var key := k.value;
      var b := hash(key) % capacity;
      var chain := buckets[b];
      var i := 0;
      while i < |chain|
        invariant 0 <= i <= |chain|
        invariant forall j :: 0 <= j < i ==> cmp(chain[j].key, key) != 0
      {
        if cmp(chain[i].key, key) == 0 {
          assert Find(chain, key, cmp) == Some(i);
          return Some(chain[i].value);
        }
        i := i + 1;
      }
      assert Find(chain, key, cmp) == None;
      return None;
    }

    /** `hash_map_destroy`: every bucket is drained from its head, calling the key
        destructor and then the value destructor on each entry, bucket by bucket.
        Afterwards every bucket is empty; the source then frees the array and the
        map, so no invariant is promised for what is left. */
    method Destroy()
      requires buckets.Length == capacity
      modifies this`log, buckets
      ensures buckets == old(buckets) && capacity == old(capacity)
      ensures count == old(count) && removals == old(removals) && doublings == old(doublings)
      ensures forall i :: 0 <= i < buckets.Length ==> buckets[i] == []
      ensures log == old(log) + FreeAll(Flatten(old(buckets[..])))
    {
      ghost var t := buckets[..];
      assert t[..0] == [];
      var i := 0;
      while i < capacity
        invariant capacity == buckets.Length == |t|
        invariant 0 <= i <= capacity
        invariant forall j :: 0 <= j < i ==> buckets[j] == []
        invariant forall j :: i <= j < capacity ==> buckets[j] == t[j]
        invariant log == old(log) + FreeAll(Flatten(t[..i]))
      {
        DrainBucket(i);
        FlattenSnoc(t, i);
        FreeAllConcat(Flatten(t[..i]), t[i]);
        i := i + 1;
      }
      assert t[..capacity] == t;
    }

    /** The inner loop of `hash_map_destroy`: bucket `i` is drained from its head,
        the key destructor and then the value destructor called on each entry in
        link order. No other bucket changes. */
    method DrainBucket(i: nat)
      requires i < buckets.Length
      modifies this`log, buckets
      ensures buckets[i] == []
      ensures forall j :: 0 <= j < buckets.Length && j != i ==> buckets[j] == old(buckets[j])
      ensures log == old(log) + FreeAll(old(buckets[i]))
    {
      ghost var s := buckets[i];
      ghost var p := 0;
      assert s[..0] == [];
      while buckets[i] != []
        invariant 0 <= p <= |s| && buckets[i] == s[p..]
        invariant forall j :: 0 <= j < buckets.Length && j != i ==> buckets[j] == old(buckets[j])
        invariant log == old(log) + FreeAll(s[..p])
        decreases |buckets[i]|
      {
        var item := buckets[i][0];
        var next := buckets[i][1..];
        assert s[..p + 1][..p] == s[..p] && s[p] == item;
        log := log + [KeyFreed(item.key)];
        log := log + [ValueFreed(item.value)];
        buckets[i] := next;
        p := p + 1;
      }
      assert s[..p] == s;
    }
  }
}
