/**
  The bucket array `item_map` of the hash map as a value: a sequence of chains
  whose length is the capacity. This module states what put, remove, get and the
  rehash do to that array, and proves the invariants those operations keep.
 */
module Tables {
  import opened Chains

  type Table<K, V> = seq<seq<Entry<K, V>>>

  /** The client's hash and comparison are consistent: `cmp` is an equivalence and
      matching keys have equal hashes. */
  ghost predicate Lawful<K(!new)>(hash: K -> nat, cmp: (K, K) -> int) {
    && Equivalence(cmp)
    && forall a, b :: cmp(a, b) == 0 ==> hash(a) == hash(b)
  }

  /** Every entry sits in bucket `hash(key) % capacity`. */
  ghost predicate Placed<K, V>(t: Table<K, V>, hash: K -> nat) {
    forall i, p :: 0 <= i < |t| && 0 <= p < |t[i]| ==> hash(t[i][p].key) % |t| == i
  }

  /** No bucket holds two entries with matching keys. */
  ghost predicate Unique<K, V>(t: Table<K, V>, cmp: (K, K) -> int) {
    forall i :: 0 <= i < |t| ==> KeysDistinct(t[i], cmp)
  }

  /** A freshly `calloc`ed bucket array: `n` NULL buckets. */
  function Empty<K, V>(n: nat): (r: Table<K, V>)
    ensures |r| == n && forall i :: 0 <= i < n ==> |r[i]| == 0
  {
    seq(n, _ => [])
  }

  /** All entries, bucket by bucket in index order, each chain in link order. */
  function Flatten<K, V>(t: Table<K, V>): seq<Entry<K, V>> {
    if t == [] then [] else Flatten(t[..|t| - 1]) + t[|t| - 1]
  }

  /** What get finds for `k`: the value of the first match in `k`'s bucket, or
      nothing when no entry of that bucket matches. */
  function Lookup<K, V>(t: Table<K, V>, hash: K -> nat, cmp: (K, K) -> int, k: K): (r: Option<V>)
    requires |t| > 0
    ensures var s := t[hash(k) % |t|];
            r.None? ==> forall j :: 0 <= j < |s| ==> cmp(s[j].key, k) != 0
    ensures var s := t[hash(k) % |t|];
            r.Some? ==> exists j :: 0 <= j < |s| && cmp(s[j].key, k) == 0 && s[j].value == r.value
  {
    ValueOf(t[hash(k) % |t|], k, cmp)
  }

  /** The array after put's chain walk: the value of the first match is replaced
      (its stored key is kept), or a new entry is linked at the tail. */
  function Insert<K, V>(t: Table<K, V>, hash: K -> nat, cmp: (K, K) -> int, k: K, v: V): (r: Table<K, V>)
    requires |t| > 0
    ensures |r| == |t|
  {
    var b := hash(k) % |t|;
    match Find(t[b], k, cmp)
    case Some(i) => t[b := t[b][i := Entry(t[b][i].key, v)]]
    case None => t[b := t[b] + [Entry(k, v)]]
  }

  /** The array after remove: the first match in `k`'s bucket is unlinked, if there is one. */
  function Delete<K, V>(t: Table<K, V>, hash: K -> nat, cmp: (K, K) -> int, k: K): (r: Table<K, V>)
    requires |t| > 0
    ensures |r| == |t|
  {
    var b := hash(k) % |t|;
    match Find(t[b], k, cmp)
    case Some(i) => t[b := Unlink(t[b], i)]
    case None => t
  }

  /** Pushes every entry of `xs`, in order, onto the head of bucket `hash(key) % n`
      of an empty array of `n` buckets. */
  function Redistribute<K, V>(xs: seq<Entry<K, V>>, n: nat, hash: K -> nat): (r: Table<K, V>)
    requires n > 0
    ensures |r| == n
  {
    if xs == [] then Empty(n)
    else
      var t: Table<K, V> := Redistribute(xs[..|xs| - 1], n, hash);
      var e := xs[|xs| - 1];
      var h := hash(e.key) % n;
      t[h := [e] + t[h]]
  }

  /** The array after the rehash: twice as many buckets, every entry relinked by
      head insertion while the old buckets are walked in index and link order. */
  function Rehash<K, V>(t: Table<K, V>, hash: K -> nat): (r: Table<K, V>)
    requires |t| > 0
    ensures |r| == 2 * |t|
  {
    Redistribute(Flatten(t), 2 * |t|, hash)
  }

  /** The growth test `n > 0.75 * capacity`, in integers: it agrees with the
      load factor 0.75 computed exactly. */
  predicate OverLoaded(n: nat, capacity: nat): (r: bool)
    ensures r <==> (n as real) > 0.75 * (capacity as real)
  {
    4 * n > 3 * capacity
  }

  // ---------------------------------------------------------------------------
  // Flattening

  lemma FlattenSnoc<K, V>(t: Table<K, V>, i: nat)
    requires i < |t|
    ensures Flatten(t[..i + 1]) == Flatten(t[..i]) + t[i]
  {
    assert t[..i + 1][..i] == t[..i];
  }

  lemma {:induction false} FlattenEmpty<K, V>(n: nat)
    ensures Flatten(Empty<K, V>(n)) == []
  {
    if n > 0 {
      assert Empty<K, V>(n)[..n - 1] == Empty<K, V>(n - 1);
      FlattenEmpty<K, V>(n - 1);
    }
  }

  /** An entry is in the flattened array exactly when some bucket holds it. */
  lemma {:induction false} FlattenMember<K, V>(t: Table<K, V>, x: Entry<K, V>)
    ensures x in Flatten(t) <==> exists c, p :: 0 <= c < |t| && 0 <= p < |t[c]| && t[c][p] == x
  {
    if t != [] {
      var t0 := t[..|t| - 1];
      FlattenMember(t0, x);
      assert forall c :: 0 <= c < |t0| ==> t0[c] == t[c];
      if x in Flatten(t) {
        if x !in Flatten(t0) {
          assert x in t[|t| - 1];
          var p :| 0 <= p < |t[|t| - 1]| && t[|t| - 1][p] == x;
        }
      }
      if exists c, p :: 0 <= c < |t| && 0 <= p < |t[c]| && t[c][p] == x {
        var c, p :| 0 <= c < |t| && 0 <= p < |t[c]| && t[c][p] == x;
        if c < |t0| {
          assert t0[c][p] == x;
        } else {
          assert x in t[|t| - 1];
        }
      }
    }
  }

  lemma {:induction false} FlattenConcat<K, V>(a: Table<K, V>, b: Table<K, V>)
    ensures Flatten(a + b) == Flatten(a) + Flatten(b)
  {
    if b == [] {
      assert a + b == a;
    } else {
      var b0 := b[..|b| - 1];
      assert (a + b)[..|a + b| - 1] == a + b0;
      FlattenConcat(a, b0);
    }
  }

  /** The entries of bucket `j` sit between those of the buckets before and after
      it, whatever that bucket holds. */
  lemma FlattenUpdate<K, V>(t: Table<K, V>, j: nat, s: seq<Entry<K, V>>)
    requires j < |t|
    ensures Flatten(t) == Flatten(t[..j]) + t[j] + Flatten(t[j + 1..])
    ensures Flatten(t[j := s]) == Flatten(t[..j]) + s + Flatten(t[j + 1..])
  {
    assert Flatten([t[j]]) == t[j] by {
      assert [t[j]][..0] == [];
    }
    assert Flatten([s]) == s by {
      assert [s][..0] == [];
    }
    assert t == t[..j] + [t[j]] + t[j + 1..];
    assert t[j := s] == t[..j] + [s] + t[j + 1..];
    FlattenConcat(t[..j], [t[j]]);
    FlattenConcat(t[..j] + [t[j]], t[j + 1..]);
    FlattenConcat(t[..j], [s]);
    FlattenConcat(t[..j] + [s], t[j + 1..]);
  }

  // ---------------------------------------------------------------------------
  // Uniqueness across buckets

  lemma {:induction false} UniquePrefix<K(!new), V>(t: Table<K, V>, hash: K -> nat, cmp: (K, K) -> int, i: nat)
    requires Lawful(hash, cmp) && Placed(t, hash) && Unique(t, cmp)
    requires i <= |t|
    ensures KeysDistinct(Flatten(t[..i]), cmp)
  {
    if i > 0 {
      UniquePrefix(t, hash, cmp, i - 1);
      FlattenSnoc(t, i - 1);
      var a := Flatten(t[..i - 1]);
      var b := t[i - 1];
      forall p, q | 0 <= p < |a| && 0 <= q < |b|
        ensures cmp(a[p].key, b[q].key) != 0 && cmp(b[q].key, a[p].key) != 0
      {
        var x, y := a[p], b[q];
        FlattenMember(t[..i - 1], x);
        var c, p' :| 0 <= c < i - 1 && 0 <= p' < |t[..i - 1][c]| && t[..i - 1][c][p'] == x;
        assert t[c][p'] == x;
        assert hash(x.key) % |t| == c && hash(y.key) % |t| == i - 1;
        assert cmp(x.key, y.key) == 0 ==> hash(x.key) == hash(y.key);
        assert cmp(y.key, x.key) == 0 ==> hash(y.key) == hash(x.key);
      }
      KeysDistinctConcat(a, b, cmp);
    }
  }

  /** Given a lawful comparison, an array whose entries are placed and whose
      buckets have distinct keys has no two matching keys anywhere. */
  lemma UniqueEverywhere<K(!new), V>(t: Table<K, V>, hash: K -> nat, cmp: (K, K) -> int)
    requires Lawful(hash, cmp) && Placed(t, hash) && Unique(t, cmp)
    ensures KeysDistinct(Flatten(t), cmp)
  {
    UniquePrefix(t, hash, cmp, |t|);
    assert t[..|t|] == t;
  }

  // ---------------------------------------------------------------------------
  // Rehash

  lemma {:induction false} RedistributePlaced<K, V>(xs: seq<Entry<K, V>>, n: nat, hash: K -> nat)
    requires n > 0
    ensures Placed(Redistribute(xs, n, hash), hash)
  {
    if xs != [] {
      var t: Table<K, V> := Redistribute(xs[..|xs| - 1], n, hash);
      RedistributePlaced(xs[..|xs| - 1], n, hash);
      var e := xs[|xs| - 1];
      var h := hash(e.key) % n;
      var r: Table<K, V> := t[h := [e] + t[h]];
      assert r == Redistribute(xs, n, hash);
      forall i, p | 0 <= i < |r| && 0 <= p < |r[i]| ensures hash(r[i][p].key) % |r| == i {
        if i == h && p > 0 {
          assert r[i][p] == t[h][p - 1];
        }
      }
    }
  }

  lemma {:induction false} RedistributeBag<K, V>(xs: seq<Entry<K, V>>, n: nat, hash: K -> nat)
    requires n > 0
    ensures multiset(Flatten(Redistribute(xs, n, hash))) == multiset(xs)
  {
    if xs == [] {
      FlattenEmpty<K, V>(n);
    } else {
      var xs0 := xs[..|xs| - 1];
      var t: Table<K, V> := Redistribute(xs0, n, hash);
      RedistributeBag(xs0, n, hash);
      var e := xs[|xs| - 1];
      var h := hash(e.key) % n;
      FlattenPush(t, h, e);
      assert xs == xs0 + [e];
    }
  }

  /** Pushing an entry onto the head of a bucket adds exactly that entry. */
  lemma FlattenPush<K, V>(t: Table<K, V>, h: nat, e: Entry<K, V>)
    requires h < |t|
    ensures multiset(Flatten(t[h := [e] + t[h]])) == multiset(Flatten(t)) + multiset{e}
  {
    FlattenUpdate(t, h, [e] + t[h]);
    var a, b := Flatten(t[..h]), Flatten(t[h + 1..]);
    calc {
      multiset(Flatten(t[h := [e] + t[h]]));
      multiset(a + ([e] + t[h]) + b);
      multiset(a) + multiset{e} + multiset(t[h]) + multiset(b);
      multiset(a + t[h] + b) + multiset{e};
    }
  }

  lemma {:induction false} RedistributeDistinct<K, V>(xs: seq<Entry<K, V>>, n: nat, hash: K -> nat, cmp: (K, K) -> int)
    requires n > 0 && KeysDistinct(xs, cmp)
    ensures Unique(Redistribute(xs, n, hash), cmp)
  {
    if xs != [] {
      var xs0 := xs[..|xs| - 1];
      assert forall p :: 0 <= p < |xs0| ==> xs0[p] == xs[p];
      var t: Table<K, V> := Redistribute(xs0, n, hash);
      RedistributeDistinct(xs0, n, hash, cmp);
      RedistributeBag(xs0, n, hash);
      var e := xs[|xs| - 1];
      var h := hash(e.key) % n;
      forall q | 0 <= q < |t[h]|
        ensures cmp([e][0].key, t[h][q].key) != 0 && cmp(t[h][q].key, [e][0].key) != 0
      {
        var x := t[h][q];
        FlattenMember(t, x);
        assert x in multiset(xs0);
        var p :| 0 <= p < |xs0| && xs0[p] == x;
        assert xs[p] == x && xs[|xs0|] == e;
      }
      KeysDistinctConcat([e], t[h], cmp);
    }
  }

  /** The rehash keeps the invariants and relinks exactly the same entries. */
  lemma RehashInvariant<K(!new), V>(t: Table<K, V>, hash: K -> nat, cmp: (K, K) -> int)
    requires |t| > 0
    ensures Placed(Rehash(t, hash), hash)
    ensures multiset(Flatten(Rehash(t, hash))) == multiset(Flatten(t))
    ensures |Flatten(Rehash(t, hash))| == |Flatten(t)|
    ensures Lawful(hash, cmp) && Placed(t, hash) && Unique(t, cmp) ==> Unique(Rehash(t, hash), cmp)
  {
    RedistributePlaced(Flatten(t), 2 * |t|, hash);
    RedistributeBag(Flatten(t), 2 * |t|, hash);
    assert |multiset(Flatten(Rehash(t, hash)))| == |Flatten(Rehash(t, hash))|;
    if Lawful(hash, cmp) && Placed(t, hash) && Unique(t, cmp) {
      UniqueEverywhere(t, hash, cmp);
      RedistributeDistinct(Flatten(t), 2 * |t|, hash, cmp);
    }
  }

  /** After the rehash every key is looked up to the same value as before it. */
  lemma RehashKeepsLookups<K(!new), V>(t: Table<K, V>, hash: K -> nat, cmp: (K, K) -> int, q: K)
    requires |t| > 0 && Lawful(hash, cmp) && Placed(t, hash) && Unique(t, cmp)
    ensures Lookup(Rehash(t, hash), hash, cmp, q) == Lookup(t, hash, cmp, q)
  {
    var r := Rehash(t, hash);
    RehashInvariant(t, hash, cmp);
    var h, h' := hash(q) % |t|, hash(q) % |r|;
    match Find(t[h], q, cmp)
    case Some(i) =>
      var e := t[h][i];
      FlattenMember(t, e);
      assert e in multiset(Flatten(r));
      FlattenMember(r, e);
      var c, p :| 0 <= c < |r| && 0 <= p < |r[c]| && r[c][p] == e;
      assert hash(e.key) == hash(q);
      FindUnique(r[h'], q, cmp, p);
    case None =>
      forall p | 0 <= p < |r[h']| ensures cmp(r[h'][p].key, q) != 0 {
        var x := r[h'][p];
        FlattenMember(r, x);
        assert x in multiset(Flatten(t));
        FlattenMember(t, x);
        var c, p' :| 0 <= c < |t| && 0 <= p' < |t[c]| && t[c][p'] == x;
        assert hash(x.key) % |t| == c;
        assert cmp(x.key, q) == 0 ==> hash(x.key) == hash(q);
      }
  }

  // ---------------------------------------------------------------------------
  // Put

  /** Put's chain walk keeps entries placed and keys distinct; the number of
      entries grows by one exactly when no entry matched. */
  lemma InsertInvariant<K(!new), V>(t: Table<K, V>, hash: K -> nat, cmp: (K, K) -> int, k: K, v: V)
    requires |t| > 0 && Placed(t, hash)
    ensures Placed(Insert(t, hash, cmp, k, v), hash)
    ensures |Flatten(Insert(t, hash, cmp, k, v))|
            == |Flatten(t)| + if Find(t[hash(k) % |t|], k, cmp).None? then 1 else 0
    ensures Lawful(hash, cmp) && Unique(t, cmp) ==> Unique(Insert(t, hash, cmp, k, v), cmp)
  {
    var b := hash(k) % |t|;
    var s := t[b];
    match Find(s, k, cmp)
    case Some(i) =>
      var s' := s[i := Entry(s[i].key, v)];
      FlattenUpdate(t, b, s');
      assert |multiset(s')| == |multiset(s)|;
      assert forall p, q :: 0 <= p < |s'| && 0 <= q < |s'| ==> s'[p].key == s[p].key && s'[q].key == s[q].key;
    case None =>
      var s' := s + [Entry(k, v)];
      FlattenUpdate(t, b, s');
      assert forall p :: 0 <= p < |s| ==> s'[p] == s[p];
      if Lawful(hash, cmp) && Unique(t, cmp) {
        forall p, q | 0 <= p < |s| && 0 <= q < 1
          ensures cmp(s[p].key, [Entry(k, v)][q].key) != 0 && cmp([Entry(k, v)][q].key, s[p].key) != 0
        {
          var x := s[p].key;
          assert cmp(k, x) == 0 ==> cmp(x, k) == 0;
        }
        KeysDistinctConcat(s, [Entry(k, v)], cmp);
      }
  }

  /** After put, the key put is looked up to the value put. */
  lemma LookupAfterInsert<K, V>(t: Table<K, V>, hash: K -> nat, cmp: (K, K) -> int, k: K, v: V)
    requires |t| > 0 && cmp(k, k) == 0
    ensures Lookup(Insert(t, hash, cmp, k, v), hash, cmp, k) == Some(v)
  {
    var b := hash(k) % |t|;
    match Find(t[b], k, cmp)
    case Some(i) =>
      SameKeysSameFind(t[b], t[b][i := Entry(t[b][i].key, v)], k, cmp);
    case None =>
      FindAppended(t[b], k, v, cmp);
  }

  /** Put leaves the lookup of every key that does not match the key put unchanged. */
  lemma LookupOtherAfterInsert<K(!new), V>(t: Table<K, V>, hash: K -> nat, cmp: (K, K) -> int, k: K, v: V, q: K)
    requires |t| > 0 && Lawful(hash, cmp) && cmp(k, q) != 0
    ensures Lookup(Insert(t, hash, cmp, k, v), hash, cmp, q) == Lookup(t, hash, cmp, q)
  {
    var b := hash(k) % |t|;
    if hash(q) % |t| == b {
      match Find(t[b], k, cmp)
      case Some(i) =>
        var x := t[b][i].key;
        assert cmp(x, q) == 0 ==> cmp(k, q) == 0 by {
          assert cmp(k, x) == 0;
        }
        ValueOfReplaceOther(t[b], i, v, q, cmp);
      case None =>
        ValueOfAppendOther(t[b], k, v, q, cmp);
    }
  }

  /** Put followed, or not, by a rehash: the key put is looked up to the value put,
      and every other key to what it was looked up to before. */
  lemma LookupAfterPut<K(!new), V>(t: Table<K, V>, hash: K -> nat, cmp: (K, K) -> int, k: K, v: V, grow: bool, q: K)
    requires |t| > 0 && Lawful(hash, cmp) && Placed(t, hash) && Unique(t, cmp)
    ensures var r := Insert(t, hash, cmp, k, v);
            var r' := if grow then Rehash(r, hash) else r;
            Lookup(r', hash, cmp, q) == if cmp(k, q) == 0 then Some(v) else Lookup(t, hash, cmp, q)
  {
    var r := Insert(t, hash, cmp, k, v);
    InsertInvariant(t, hash, cmp, k, v);
    if grow {
      RehashKeepsLookups(r, hash, cmp, q);
    }
    if cmp(k, q) == 0 {
      LookupAfterInsert(t, hash, cmp, k, v);
      assert Lookup(r, hash, cmp, q) == Lookup(r, hash, cmp, k) by {
        FindKeysAgree(r, hash, cmp, k, q);
      }
    } else {
      LookupOtherAfterInsert(t, hash, cmp, k, v, q);
    }
  }

  /** Equivalent keys are looked up to the same value. */
  lemma FindKeysAgree<K(!new), V>(t: Table<K, V>, hash: K -> nat, cmp: (K, K) -> int, k: K, q: K)
    requires |t| > 0 && Lawful(hash, cmp) && cmp(k, q) == 0
    ensures Lookup(t, hash, cmp, q) == Lookup(t, hash, cmp, k)
  {
    assert hash(k) == hash(q);
    var s := t[hash(k) % |t|];
    forall j | 0 <= j < |s| ensures cmp(s[j].key, k) == 0 <==> cmp(s[j].key, q) == 0 {
      var x := s[j].key;
      assert cmp(x, k) == 0 ==> cmp(x, q) == 0;
      assert cmp(q, k) == 0;
      assert cmp(x, q) == 0 ==> cmp(x, k) == 0;
    }
    match Find(s, k, cmp)
    case None =>
      assert Find(s, q, cmp) == None;
    case Some(i) =>
      assert Find(s, q, cmp) == Some(i);
  }

  // ---------------------------------------------------------------------------
  // Remove

  /** Remove keeps entries placed and keys distinct; the number of entries drops
      by one exactly when an entry matched. */
  lemma DeleteInvariant<K, V>(t: Table<K, V>, hash: K -> nat, cmp: (K, K) -> int, k: K)
    requires |t| > 0 && Placed(t, hash)
    ensures Placed(Delete(t, hash, cmp, k), hash)
    ensures |Flatten(Delete(t, hash, cmp, k))| + (if Find(t[hash(k) % |t|], k, cmp).Some? then 1 else 0)
            == |Flatten(t)|
    ensures Unique(t, cmp) ==> Unique(Delete(t, hash, cmp, k), cmp)
  {
    var b := hash(k) % |t|;
    match Find(t[b], k, cmp)
    case None =>
    case Some(i) =>
      var s' := Unlink(t[b], i);
      FlattenUpdate(t, b, s');
      assert forall p :: 0 <= p < |s'| ==> s'[p] == t[b][if p < i then p else p + 1];
      if Unique(t, cmp) {
        KeysDistinctUnlink(t[b], i, cmp);
      }
  }

  /** After remove, the key removed is not found. */
  lemma LookupAfterDelete<K(!new), V>(t: Table<K, V>, hash: K -> nat, cmp: (K, K) -> int, k: K)
    requires |t| > 0 && Lawful(hash, cmp) && Unique(t, cmp)
    ensures Lookup(Delete(t, hash, cmp, k), hash, cmp, k) == None
  {
    var b := hash(k) % |t|;
    match Find(t[b], k, cmp)
    case None =>
    case Some(i) =>
      ValueOfUnlinked(t[b], i, k, cmp);
  }

  /** Remove leaves the lookup of every key that does not match the key removed unchanged. */
  lemma LookupOtherAfterDelete<K(!new), V>(t: Table<K, V>, hash: K -> nat, cmp: (K, K) -> int, k: K, q: K)
    requires |t| > 0 && Lawful(hash, cmp) && Unique(t, cmp) && cmp(k, q) != 0
    ensures Lookup(Delete(t, hash, cmp, k), hash, cmp, q) == Lookup(t, hash, cmp, q)
  {
    var b := hash(k) % |t|;
    if hash(q) % |t| == b {
      match Find(t[b], k, cmp)
      case None =>
      case Some(i) =>
        var x := t[b][i].key;
        assert cmp(x, q) == 0 ==> cmp(k, q) == 0 by {
          assert cmp(k, x) == 0;
        }
        ValueOfUnlinkOther(t[b], i, q, cmp);
    }
  }
}
