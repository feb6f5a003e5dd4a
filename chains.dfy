/**
  One bucket of the hash map: a chain of `hash_item`s, modelled as the sequence of
  its entries in link order (head first). The `next` pointer of an item is its
  successor in the sequence; a NULL bucket is the empty sequence.

  Keys are matched with the client's comparison in the source's argument order:
  an entry matches `k` when `cmp(entry.key, k) == 0`.
 */
module Chains {

  datatype Option<T> = None | Some(value: T)

  /** A stored pair: `struct hash_item` without its `next` link. */
  datatype Entry<K, V> = Entry(key: K, value: V)

  /** The matches `cmp` reports (`cmp(a, b) == 0`) form an equivalence relation. */
  ghost predicate Equivalence<K(!new)>(cmp: (K, K) -> int) {
    && (forall a :: cmp(a, a) == 0)
    && (forall a, b :: cmp(a, b) == 0 ==> cmp(b, a) == 0)
    && (forall a, b, c :: cmp(a, b) == 0 && cmp(b, c) == 0 ==> cmp(a, c) == 0)
  }

  /** No two entries at different positions of `s` have matching keys. */
  ghost predicate KeysDistinct<K, V>(s: seq<Entry<K, V>>, cmp: (K, K) -> int) {
    forall p, q :: 0 <= p < |s| && 0 <= q < |s| && p != q ==> cmp(s[p].key, s[q].key) != 0
  }

  /** The position of the first entry of the chain whose key matches `k`: the
      chain walk of put, remove and get. */
  function Find<K, V>(s: seq<Entry<K, V>>, k: K, cmp: (K, K) -> int): (r: Option<nat>)
    ensures r.Some? ==> r.value < |s| && cmp(s[r.value].key, k) == 0
    ensures r.Some? ==> forall j :: 0 <= j < r.value ==> cmp(s[j].key, k) != 0
    ensures r.None? ==> forall j :: 0 <= j < |s| ==> cmp(s[j].key, k) != 0
  {
    if s == [] then None
    else if cmp(s[0].key, k) == 0 then Some(0)
    else match Find(s[1..], k, cmp)
      case None => None
      case Some(i) => Some(i + 1)
  }

  /** The value stored under `k` in the chain, if any entry matches: the value
      of the first matching entry, or nothing when no entry matches. */
  function ValueOf<K, V>(s: seq<Entry<K, V>>, k: K, cmp: (K, K) -> int): (r: Option<V>)
    ensures r.None? ==> forall j :: 0 <= j < |s| ==> cmp(s[j].key, k) != 0
    ensures r.Some? ==> exists j :: 0 <= j < |s| && cmp(s[j].key, k) == 0 && s[j].value == r.value
                                      && forall i :: 0 <= i < j ==> cmp(s[i].key, k) != 0
  {
    match Find(s, k, cmp)
    case None => None
    case Some(i) => Some(s[i].value)
  }

  /** The chain with the entry at position `i` unlinked. */
  function Unlink<K, V>(s: seq<Entry<K, V>>, i: nat): (r: seq<Entry<K, V>>)
    requires i < |s|
    ensures |r| == |s| - 1
    ensures forall j :: 0 <= j < i ==> r[j] == s[j]
    ensures forall j :: i <= j < |r| ==> r[j] == s[j + 1]
    ensures multiset(r) + multiset{s[i]} == multiset(s)
  {
    assert s == s[..i] + [s[i]] + s[i + 1..];
    s[..i] + s[i + 1..]
  }

  /** The first match is determined by the keys alone. */
  lemma SameKeysSameFind<K, V>(s: seq<Entry<K, V>>, s': seq<Entry<K, V>>, k: K, cmp: (K, K) -> int)
    requires |s| == |s'|
    requires forall j :: 0 <= j < |s| ==> s[j].key == s'[j].key
    ensures Find(s', k, cmp) == Find(s, k, cmp)
  {
    match Find(s, k, cmp)
    case None =>
    case Some(i) =>
      assert cmp(s'[i].key, k) == 0;
  }

  /** When the keys of a chain are distinct and `cmp` is an equivalence, the entry
      matching `k` is the one the walk finds. */
  lemma FindUnique<K(!new), V>(s: seq<Entry<K, V>>, k: K, cmp: (K, K) -> int, p: nat)
    requires Equivalence(cmp) && KeysDistinct(s, cmp)
    requires p < |s| && cmp(s[p].key, k) == 0
    ensures Find(s, k, cmp) == Some(p)
  {
    match Find(s, k, cmp)
    case None =>
    case Some(i) =>
      assert cmp(k, s[p].key) == 0;
      assert cmp(s[i].key, s[p].key) == 0;
  }

  /** A key with no match, appended at the tail, is then found at the tail. */
  lemma FindAppended<K, V>(s: seq<Entry<K, V>>, k: K, v: V, cmp: (K, K) -> int)
    requires Find(s, k, cmp) == None && cmp(k, k) == 0
    ensures Find(s + [Entry(k, v)], k, cmp) == Some(|s|)
  {
    var s' := s + [Entry(k, v)];
    assert forall j :: 0 <= j < |s| ==> s'[j] == s[j];
    assert s'[|s|].key == k;
  }

  /** Appending an entry whose key does not match `q` leaves the lookup of `q` as it was. */
  lemma ValueOfAppendOther<K, V>(s: seq<Entry<K, V>>, k: K, v: V, q: K, cmp: (K, K) -> int)
    requires cmp(k, q) != 0
    ensures ValueOf(s + [Entry(k, v)], q, cmp) == ValueOf(s, q, cmp)
  {
    var s' := s + [Entry(k, v)];
    assert forall j :: 0 <= j < |s| ==> s'[j] == s[j];
    match Find(s, q, cmp)
    case None =>
      assert Find(s', q, cmp) == None;
    case Some(i) =>
      assert Find(s', q, cmp) == Some(i);
  }

  /** Replacing the value of an entry that does not match `q` leaves the lookup of `q` as it was. */
  lemma ValueOfReplaceOther<K, V>(s: seq<Entry<K, V>>, i: nat, v: V, q: K, cmp: (K, K) -> int)
    requires i < |s| && cmp(s[i].key, q) != 0
    ensures ValueOf(s[i := Entry(s[i].key, v)], q, cmp) == ValueOf(s, q, cmp)
  {
    SameKeysSameFind(s, s[i := Entry(s[i].key, v)], q, cmp);
  }

  /** Unlinking an entry that does not match `q` leaves the lookup of `q` as it was. */
  lemma ValueOfUnlinkOther<K(!new), V>(s: seq<Entry<K, V>>, i: nat, q: K, cmp: (K, K) -> int)
    requires Equivalence(cmp) && KeysDistinct(s, cmp)
    requires i < |s| && cmp(s[i].key, q) != 0
    ensures ValueOf(Unlink(s, i), q, cmp) == ValueOf(s, q, cmp)
  {
    var r := Unlink(s, i);
    KeysDistinctUnlink(s, i, cmp);
    match Find(s, q, cmp)
    case None =>
      assert forall j :: 0 <= j < |r| ==> cmp(r[j].key, q) != 0 by {
        forall j | 0 <= j < |r| ensures cmp(r[j].key, q) != 0 {
          if j >= i { assert r[j] == s[j + 1]; }
        }
      }
    case Some(j) =>
      var j' := if j < i then j else j - 1;
      assert r[j'] == s[j];
      FindUnique(r, q, cmp, j');
  }

  /** Unlinking the entry that matches `k` leaves no entry matching `k`. */
  lemma ValueOfUnlinked<K(!new), V>(s: seq<Entry<K, V>>, i: nat, k: K, cmp: (K, K) -> int)
    requires Equivalence(cmp) && KeysDistinct(s, cmp)
    requires i < |s| && cmp(s[i].key, k) == 0
    ensures ValueOf(Unlink(s, i), k, cmp) == None
  {
    var r := Unlink(s, i);
    forall j | 0 <= j < |r| ensures cmp(r[j].key, k) != 0 {
      var j' := if j < i then j else j + 1;
      assert r[j] == s[j'];
      var x, y := s[j'].key, s[i].key;
      assert cmp(k, y) == 0;
      assert cmp(x, k) == 0 ==> cmp(x, y) == 0;
    }
  }

  /** Two chains with distinct keys whose keys do not match across stay distinct when joined. */
  lemma KeysDistinctConcat<K, V>(a: seq<Entry<K, V>>, b: seq<Entry<K, V>>, cmp: (K, K) -> int)
    requires KeysDistinct(a, cmp) && KeysDistinct(b, cmp)
    requires forall p, q :: 0 <= p < |a| && 0 <= q < |b| ==>
               cmp(a[p].key, b[q].key) != 0 && cmp(b[q].key, a[p].key) != 0
    ensures KeysDistinct(a + b, cmp)
  {
    var c := a + b;
    forall p, q | 0 <= p < |c| && 0 <= q < |c| && p != q
      ensures cmp(c[p].key, c[q].key) != 0
    {
      if p < |a| && q < |a| {
        assert c[p] == a[p] && c[q] == a[q];
      } else if p >= |a| && q >= |a| {
        assert c[p] == b[p - |a|] && c[q] == b[q - |a|];
      } else if p < |a| {
        assert c[p] == a[p] && c[q] == b[q - |a|];
      } else {
        assert c[p] == b[p - |a|] && c[q] == a[q];
      }
    }
  }

  /** Unlinking an entry keeps the remaining keys distinct. */
  lemma KeysDistinctUnlink<K, V>(s: seq<Entry<K, V>>, i: nat, cmp: (K, K) -> int)
    requires KeysDistinct(s, cmp) && i < |s|
    ensures KeysDistinct(Unlink(s, i), cmp)
  {
    var r := Unlink(s, i);
    forall p, q | 0 <= p < |r| && 0 <= q < |r| && p != q
      ensures cmp(r[p].key, r[q].key) != 0
    {
      var p' := if p < i then p else p + 1;
      var q' := if q < i then q else q + 1;
      assert r[p] == s[p'] && r[q] == s[q'];
    }
  }
}
