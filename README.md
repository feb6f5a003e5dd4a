# A verified model of the Hashy hash map

This project models `hashmap.c`, a generic separate-chaining hash map written in
C, and proves properties of the model. Keys and values are opaque to the map.
The client supplies four function pointers: a hash, a strcmp-style comparison,
a key destructor and a value destructor. The map owns every key and value put
into it.

The model has four modules:

- `Chains` (`chains.dfy`) models one bucket, a chain of `hash_item`s, as the
  sequence of its entries in link order. It defines the chain walk `Find`: the
  first entry whose key matches, where "matches" means `cmp(entry.key, k) == 0`.
  It also defines unlinking and states what walking, appending, replacing and
  unlinking do to a lookup.
- `Tables` (`tables.dfy`) models the bucket array `item_map` as a value. It
  defines what put (`Insert`), remove (`Delete`), get (`Lookup`) and the rehash
  (`Rehash`, via `Redistribute`) do to the array. It proves the invariants:
  every entry sits in bucket `hash(key) % capacity`, and no two entries have
  matching keys.
- `Hashmap` (`hashmap.dfy`) models `struct hash_map` as the class `HashMap`.
  The field `buckets` is an `array` of chains that the methods update in place.
  `capacity` and `count` are reassigned as the source reassigns them. A ghost
  log records every destructor call. `Shape()` and `Valid()` are the object
  invariant. Each method's `ensures` gives the new state in terms of the old one.
- `Scenarios` (`scenarios.dfy`) holds clients that use only the method
  contracts and the `Tables` lemmas: get after put, get after remove, growth
  after thirteen insertions, and a concrete walk-through.

The comparison may be any function. The uniqueness invariant is kept only for a
*lawful* comparison (`Tables.Lawful`): the keys it matches form an equivalence
relation, and matching keys have equal hashes. `Valid()` contains
`Lawful(hash, cmp) ==> Unique(...)`, so every operation can still be called
with any comparison.

In three places the code does not do what its interface suggests; the model
follows the code:

- remove (hashmap.c:115-147) never decrements `num_hash_item`. The model keeps
  `count == live entries + removed entries`, using the ghost counter
  `removals`, so `count` is only an upper bound on the live entries.
- put on a key that is already present (hashmap.c:51-56) keeps the stored key.
  It neither stores nor destroys the key passed in.
- a match is `cmp(...) == 0` (hashmap.c:51, 126 and 161), not a boolean
  equality.

## Model

| member | source | states |
|---|---|---|
| `Hashmap.HashMap.New` | hashmap.c:12-30 | No map (NULL) exactly when one of the four function pointers is missing. Otherwise a fresh valid map of capacity 16, every bucket empty, count 0, no destructor called. |
| `Hashmap.HashMap.constructor` | hashmap.c:18-29 | Stores the four functions and allocates 16 empty buckets, with count 0 and the invariant established. |
| `Hashmap.HashMap.Put` | hashmap.c:36-111 | Keeps `Valid()`. If an entry of bucket `hash(k) % capacity` matches: its value becomes `v`, its stored key is kept, the value destructor is called once on the old value (and `k` is not destroyed), and count, capacity and every other entry are unchanged. If none matches: `(k, v)` is appended at the tail of that bucket, count rises by exactly 1, no destructor runs, and the capacity doubles with a full rehash exactly when the new count satisfies `4*count > 3*capacity`. |
| `Hashmap.HashMap.Rehash` | hashmap.c:76-107 | The bucket array becomes a fresh array of twice the capacity holding `Tables.Rehash` of the old one. Count, log and the invariants are unchanged. |
| `Hashmap.HashMap.Relink` | hashmap.c:79-102 | The nested loop over old buckets and chains. It returns a fresh array equal to `Redistribute` of all old entries, taken bucket by bucket and then in link order. |
| `Hashmap.HashMap.Remove` | hashmap.c:115-147 | Keeps `Valid()`. Count and capacity never change. If no entry matches, the map and the log are unchanged. Otherwise the value destructor and then the key destructor are called on the first matching entry, and only that entry is unlinked (head or middle); the other entries keep their order. |
| `Hashmap.HashMap.Get` | hashmap.c:150-170 | Nothing for a NULL key. Otherwise exactly the value of the first matching entry in the key's bucket, or nothing. The map is not modified. |
| `Hashmap.HashMap.Destroy` | hashmap.c:172-188 | Leaves every bucket empty and changes only the buckets and the log; count and capacity stay as they were. The key destructor and then the value destructor are called for each entry, bucket by bucket in link order, and nothing else is logged. |
| `Hashmap.HashMap.DrainBucket` | hashmap.c:176-182 | The inner drain loop: bucket `i` ends empty, its entries' destructor calls are logged in link order (key before value), and every other bucket is unchanged. |
| `Hashmap.FreeAllOnce` | hashmap.c:174-184 | Destroy's log has exactly two calls per live entry: call 2j destroys the j-th entry's key and call 2j+1 its value. So each key and each value is destroyed exactly once. |
| `Hashmap.FreeAllConcat` | hashmap.c:174-184 | Draining two runs of entries one after the other logs the first run's calls and then the second's. |
| `Hashmap.HashMap.Shape` | hashmap.h:17-27 | The invariant between the steps of put: the array length is the capacity, the capacity is 16 doubled some number of times, every entry is in its hash bucket, count is live plus removed entries, and for a lawful comparison no two entries match. |
| `Hashmap.HashMap.Valid` | hashmap.c:76-107 | The invariant between operations: `Shape()` and a load of at most 0.75, which put's rehash restores. |
| `Hashmap.HashMap.BucketOf` | hashmap.c:46 | The bucket `hash(k) % capacity` of put, remove (hashmap.c:118) and get (hashmap.c:156) is below the capacity. |
| `Hashmap.FreeAll` | hashmap.c:176-182 | The destructor calls of the drain loop: two calls per entry, key before value. |
| `Chains.Find` | hashmap.c:48-60 | The chain walk. When it finds something, the position is in range, that entry matches, and no earlier entry matches. When it finds nothing, no entry matches. |
| `Chains.ValueOf` | hashmap.c:159-169 | The value a chain walk finds. When it returns nothing, no entry matches. When it returns a value, that value belongs to a matching entry, and no earlier entry matches. |
| `Chains.Unlink` | hashmap.c:131-136 | Unlinking position `i` keeps the entries before `i`, shifts those after it, and removes exactly that one entry from the multiset. |
| `Chains.SameKeysSameFind` | hashmap.c:51-54 | The walk depends only on the keys, so replacing a value does not change which entry a later walk finds. |
| `Chains.FindUnique` | hashmap.c:159-164 | With distinct keys and an equivalence comparison, the walk finds the one entry that matches. |
| `Chains.FindAppended` | hashmap.c:63-73 | A key that had no match is found at the tail after being appended there. |
| `Chains.ValueOfAppendOther` | hashmap.c:63-73 | A tail append does not change the lookup of a key that the new key does not match. |
| `Chains.ValueOfReplaceOther` | hashmap.c:51-54 | Replacing one entry's value does not change the lookup of a key that entry does not match. |
| `Chains.ValueOfUnlinkOther` | hashmap.c:131-136 | Unlinking an entry does not change the lookup of a key that entry does not match. |
| `Chains.ValueOfUnlinked` | hashmap.c:126-136 | Once the matching entry is unlinked, nothing in the chain matches that key. |
| `Chains.KeysDistinctConcat` | hashmap.c:63-73 | Joining two chains with distinct keys, and no matches between them, gives a chain with distinct keys. |
| `Chains.KeysDistinctUnlink` | hashmap.c:131-136 | Unlinking an entry keeps the remaining keys distinct. |
| `Tables.Empty` | hashmap.c:26 | A `calloc`ed bucket array (also hashmap.c:80): `n` buckets, all empty. |
| `Tables.Lookup` | hashmap.c:156-169 | Get's bucket walk. When it returns nothing, no entry of `k`'s bucket `hash(k) % capacity` matches. When it returns a value, that value belongs to a matching entry of that bucket. |
| `Tables.Insert` | hashmap.c:46-74 | Put's replace-or-append step keeps the number of buckets. |
| `Tables.Delete` | hashmap.c:118-141 | Remove's unlink step keeps the number of buckets. |
| `Tables.Redistribute` | hashmap.c:86-100 | Head insertion of a sequence of entries into `n` empty buckets gives exactly `n` buckets. |
| `Tables.Rehash` | hashmap.c:79-106 | The rehashed array has twice as many buckets. |
| `Tables.OverLoaded` | hashmap.c:76-77 | The growth test: the integer test `4*n > 3*capacity` holds exactly when `n > 0.75 * capacity` in exact arithmetic. |
| `Tables.InsertInvariant` | hashmap.c:46-74 | Put's step keeps every entry in its hash bucket. It adds one entry exactly when no key matched, and none otherwise. For a lawful comparison it keeps keys distinct. |
| `Tables.LookupAfterInsert` | hashmap.c:46-74 | After put's step, the key put is looked up to the value put (for a key that matches itself). |
| `Tables.LookupOtherAfterInsert` | hashmap.c:46-74 | After put's step, any key that does not match the key put is looked up to its old value. |
| `Tables.LookupAfterPut` | hashmap.c:36-107 | After put, with or without the rehash, the key put is looked up to `v`, and every other key to what it was before. |
| `Tables.FindKeysAgree` | hashmap.c:156-167 | For a lawful comparison, matching keys are looked up to the same value. |
| `Tables.UniqueEverywhere` | hashmap.c:46-73 | If entries are placed by hash and each bucket has distinct keys, then for a lawful comparison no two entries anywhere in the map have matching keys. |
| `Tables.RedistributePlaced` | hashmap.c:93-97 | After head insertion, every entry lands in bucket `hash(key) % newCapacity`. |
| `Tables.RedistributeBag` | hashmap.c:86-100 | Head insertion keeps the multiset of (key, value) pairs: nothing is lost and nothing is duplicated. |
| `Tables.RedistributeDistinct` | hashmap.c:93-97 | Head insertion of entries whose keys are distinct gives buckets whose keys are distinct. |
| `Tables.RehashInvariant` | hashmap.c:79-106 | The rehash places every entry by its new hash bucket, keeps the multiset of pairs and their number, and, for a lawful comparison, keeps keys distinct. |
| `Tables.RehashKeepsLookups` | hashmap.c:82-106 | After the rehash, every key is looked up to the same value as before. |
| `Tables.DeleteInvariant` | hashmap.c:118-141 | Remove's step keeps every entry in its hash bucket. It removes one entry exactly when a key matched, and none otherwise. It keeps keys distinct. |
| `Tables.LookupAfterDelete` | hashmap.c:118-141 | After remove, the key removed is not found. |
| `Tables.LookupOtherAfterDelete` | hashmap.c:118-141 | After remove, any key that does not match the removed key is looked up to its old value. |
| `Hashmap.Pow2` | hashmap.c:79 | Each doubling of the capacity keeps it positive. |
| `Scenarios.PutThenGet` | hashmap.c:36-170 | Get right after put(k, v) returns `v`, whether or not the put triggered a rehash. |
| `Scenarios.RemoveThenGet` | hashmap.c:115-170 | Get right after remove(k) returns nothing. |
| `Scenarios.GrowthScenario` | hashmap.c:74-107 | Thirteen distinct keys put into a new map: the capacity becomes 32, the count is 13, and every key is looked up to its value. |
| `Scenarios.Example` | hashmap.c:36-188 | With the identity hash: put(1,2), get(1) gives 2; put(1,5), get(1) gives 5; remove(1), get(1) gives nothing; then destroy. |

## Left out

- The process-wide `pthread_mutex_t` and every lock and unlock call (hashmap.c:5 and the calls in each operation). The model is sequential.
- `malloc`, `calloc` and `free`, and allocation failure, which the source never checks. Allocation is total. A freed node simply leaves its chain. Freeing the map in destroy is modelled only by `Destroy` no longer promising `Valid()`.
- Node identity and pointers. A chain is a sequence of (key, value) entries, so the rehash's relinking of the same nodes is modelled as moving the entries. Get returns the stored value, not an alias into the node, so the alias's lifetime is not modelled.
- Hashmap.HashMap.Destroy: requires only that the array length equals the capacity, which is all the drain loop relies on, rather than the full invariant.
- Hashmap.HashMap.Rehash: the rehash is inline in the source's put; the model gives it its own method, and its nested loop is the static method `Relink`.
- The floating-point literal `0.75` at hashmap.c:77. It is replaced by the exact integer test `4*n > 3*capacity`. For capacities of the form 16·2^j below 2^53 the double computation gives the same answer.
- `size_t` width. Hashes, the count and the capacity are unbounded naturals. A hash taken below 2^64 and reduced modulo a power-of-two capacity gives the same bucket. Wrap-around of `num_hash_item`, or of `map_capacity * 2`, is not modelled.
- NULL keys passed to put or remove, which the source hands to the client's hash. Only get checks for a NULL key, and only get takes an optional key.
- A stored value that is itself NULL. The source's get returns NULL for it, the same as "not found"; the model's get returns that stored value.
- The destructors' own side effects. They are opaque values; the ghost log records which key or value each call received.
- main.c, a demonstration whose test is commented out. Its comparison returns 1 for equal keys, the opposite of the map's `== 0` rule.
- hashmap.h holds only the struct and prototype declarations. They are reflected in the class fields and method signatures.
