# cachemere policies in Dafny

A model of the two cache policies of `cachemere::policy`, with proofs about them.

- **`EvictionLRU`** is a least-recently-used eviction order. The policy keeps the tracked keys in a list, most-recently used first (`m_keys`). It also keeps an index from each key to its list node (`m_nodes`). The model is the class `LruPolicy.EvictionLRU`. Its field `keys: seq<K>` is the list, with index 0 as the front. Its field `nodes: map<K, nat>` maps each key to its position in `keys`. `Valid()` says the two agree: the list has no duplicates, every listed key is indexed at its position, and every indexed key sits at the position the index gives. Insert, hit, update and evict are methods that keep `Valid()`. Each method says what the new list is in terms of the old one (`[key] + old(keys)`, `MoveToFront(old(keys), key)`, `old(keys)[..|old(keys)| - 1]`) and what the new key set is. Victim enumeration is the function `Victims()`, which returns the list reversed, least-recently used first. The lemmas about the sequence functions state the documented properties:
  - a new key becomes the last victim;
  - a hit changes neither the key set nor the size, and keeps the relative order of the other keys;
  - an eviction removes exactly the back key;
  - the victim order is a duplicate-free listing of exactly the tracked keys.

  `Walkthrough` runs the documented example on the class: insert A, B, C gives victims `[A, B, C]`; a hit on B gives `[A, C, B]`; evicting A gives `[C, B]`.
- **`InsertionTinyLFU`** is the TinyLFU admission filter. It has two parts:
  - a doorkeeper, `m_gatekeeper`, a `detail::BloomFilter`;
  - a frequency sketch, `m_frequency_sketch`, a `detail::CountingBloomFilter`.

  Their internals are not part of this model. Module `Filters` models them by their contracts, as exact structures: the doorkeeper is a set of keys, and the sketch is a counter per key with a cardinality bound. The policy's state is the datatype `AdmissionState`. `Touched`, `Cleared` and `Reserved` give the state after `touch_item`, `reset` and `reserve`. `ShouldAdd`, `EstimateCountForKey` and `ShouldReplace` are the queries. The class `InsertionTinyLFU` holds the two structures as fields. Its methods `TouchItem`, `OnCacheHit`, `OnCacheMiss`, `Reset` and `Reserve` change them, and each one's `ensures` gives the new state as one of those functions of the old state. The invariant `Consistent` holds after every operation. It says two things: only doorkeeper members have a positive count, and no estimate exceeds the cardinality bound. The lemmas cover four more properties:
  - aging, where a count that passes the bound resets everything;
  - admission after a reset, where exactly the keys touched since then are admitted until the next reset;
  - `should_replace`, which is a strict order in which ties keep the victim;
  - sizing, where the two structures keep the size the last `reserve` gave them.

An LRU order could leave an updated key where it is. The header's doc comment says an update promotes the key (`eviction_lru.h:54`), so `OnUpdate` moves the key to the front like a hit.

Keys are plain values of a type with equality. A cache item is represented by its key, `m_key`, the only field of `cachemere::Item` that the policies read.

The usual description of a TinyLFU doorkeeper rejects a key on its first sighting. This code does not. Here, a first touch records the key in the doorkeeper (`insertion_tinylfu.hpp:57-58`), and `should_add` is doorkeeper membership (`:21`). So the key is admitted right after its first touch. The model follows the code (`ShouldAddAfterTouch`). A key touched since the last reset or reserve stays admitted until the next reset (`TouchKeepsAdmitted`, `TouchedSinceResetAdmitted`). Conversely, right after a reset only keys touched since are admitted (`AfterResetOnlyTouchedAdmitted`). A touched key is rejected only when its touch was the one that triggered the reset. With cardinality 0, that happens on its second touch.

`estimate_count_for_key` adds the doorkeeper's one in `uint32_t`, and the model keeps that arithmetic. If the sketch estimate of a doorkeeper member is `0xFFFFFFFF`, the sum wraps to 0. The invariant bounds every estimate by the cardinality, so this can only happen when the cardinality is `0xFFFFFFFF`. `ShouldReplaceCompares` shows that below that cardinality, `should_replace` compares the unwrapped sums.

## Model

| member | source | states |
|---|---|---|
| LruPolicy.EvictionLRU.constructor | include/cachemere/policy/eviction_lru.h:79-81 | a new policy tracks nothing: empty list, empty index, invariant holds |
| LruPolicy.EvictionLRU.OnInsert | include/cachemere/policy/eviction_lru.h:48-51 | an untracked key goes to the front of the list; the tracked set grows by exactly that key and the size by one; list and index stay in agreement |
| LruPolicy.EvictionLRU.OnCacheHit | include/cachemere/policy/eviction_lru.h:58-61 | a tracked key is moved to the front (the list becomes `MoveToFront` of the old list); key set and size unchanged; list and index stay in agreement |
| LruPolicy.EvictionLRU.OnUpdate | include/cachemere/policy/eviction_lru.h:53-56 | same effect as a hit: the key moves to the front, nothing else changes |
| LruPolicy.EvictionLRU.OnEvict | include/cachemere/policy/eviction_lru.h:63-66 | only callable when the list is non-empty and `key` is at its back; removes exactly that element from list and index; size drops by one |
| LruPolicy.EvictionLRU.Victims | include/cachemere/policy/eviction_lru.h:68-77 | the victim order is the list walked backwards: element `i` is the `i`-th key from the back, least-recently used first; reading it changes nothing |
| LruPolicy.EvictionLRU.VictimsMatchIndex | include/cachemere/policy/eviction_lru.h:68-81 | the victim order lists every indexed key, only indexed keys, each once |
| LruPolicy.EvictionLRU.IndexMatchesList | include/cachemere/policy/eviction_lru.h:80-81 | the index's key set equals the set of listed keys and has one entry per list position |
| LruPolicy.Reverse | include/cachemere/policy/eviction_lru.h:68-72 | walking a list backwards: same length, position `i` holds the element `i`-th from the back |
| LruPolicy.MoveToFront | include/cachemere/policy/eviction_lru.h:53-61 | the list after a hit or update: the key first, nothing but old keys and the key, no old key lost, never longer than before when the key was tracked; `MoveToFrontKeepsOthers` and `WithoutAt` state the rest |
| LruPolicy.InsertOrder | include/cachemere/policy/eviction_lru.h:48-51 | inserting an untracked key keeps the list duplicate-free, adds exactly that key, grows the size by one, and makes the key the last victim |
| LruPolicy.MoveToFrontKeepsOthers | include/cachemere/policy/eviction_lru.h:53-61 | moving a tracked key to the front keeps the list duplicate-free, puts the key first, keeps the key set and size, and leaves the relative order of all other keys unchanged |
| LruPolicy.WithoutAt | include/cachemere/policy/eviction_lru.h:58-61 | in a duplicate-free list, taking out the key at position `i` is splicing position `i` out, which is what the move-to-front does |
| LruPolicy.EvictBack | include/cachemere/policy/eviction_lru.h:63-66 | removing the back key leaves a duplicate-free list without exactly that key, one shorter, whose victim order is the old one minus its first victim |
| LruPolicy.VictimsAreTracked | include/cachemere/policy/eviction_lru.h:68-77 | the reversed list holds each listed key exactly once and nothing else |
| LruPolicy.Walkthrough | include/cachemere/policy/eviction_lru.h:48-77 | insert A, B, C yields victims A, B, C; hit B yields A, C, B; evict A yields C, B |
| Filters.BloomFilter.Add | include/cachemere/policy/insertion_tinylfu.hpp:58 | after adding a key the doorkeeper reports it (no false negatives) and answers for every other key as before |
| Filters.BloomFilter.Clear | include/cachemere/policy/insertion_tinylfu.hpp:46 | after clearing, the doorkeeper reports no key; its sizing is kept |
| Filters.NewBloomFilter | include/cachemere/policy/insertion_tinylfu.hpp:15 | a fresh doorkeeper sized for the cardinality reports no key |
| Filters.CountingBloomFilter.Add | include/cachemere/policy/insertion_tinylfu.hpp:53 | adding a key raises its estimate by exactly one and no other estimate; the cardinality bound is kept |
| Filters.CountingBloomFilter.Clear | include/cachemere/policy/insertion_tinylfu.hpp:47 | after clearing, every estimate is zero; the cardinality bound is kept |
| Filters.NewCountingBloomFilter | include/cachemere/policy/insertion_tinylfu.hpp:16 | a fresh sketch has every estimate zero and the given cardinality bound |
| TinyLfuPolicy.Reserved | include/cachemere/policy/insertion_tinylfu.hpp:13-17 | reserve installs fresh structures of the given cardinality: nothing admitted, nothing counted, invariant holds |
| TinyLfuPolicy.Cleared | include/cachemere/policy/insertion_tinylfu.hpp:44-48 | reset forgets every key in both structures, keeps their sizing, and re-establishes the invariant |
| TinyLfuPolicy.EstimateCountForKey | include/cachemere/policy/insertion_tinylfu.hpp:34-42 | the sketch estimate plus one exactly when the doorkeeper holds the key, as a `uint32_t` (the sum wraps to 0 only from `0xFFFFFFFF`) |
| TinyLfuPolicy.Touched | include/cachemere/policy/insertion_tinylfu.hpp:50-60 | after a touch, the key is a doorkeeper member unless the touch reset both structures, and no key other than the touched one joins the doorkeeper; `TouchUnseen`, `TouchSeen` and `TouchKeepsConsistent` state the two branches and the invariant |
| TinyLfuPolicy.ShouldAdd | include/cachemere/policy/insertion_tinylfu.hpp:19-22 | in a consistent state every key with a positive count is admitted; `ShouldAddAfterTouch`, `TouchKeepsAdmitted`, `TouchedSinceResetAdmitted` and `AfterResetOnlyTouchedAdmitted` say which keys are admitted |
| TinyLfuPolicy.ShouldReplace | include/cachemere/policy/insertion_tinylfu.hpp:24-27 | a replacing candidate has a positive estimate and, in a consistent state, is admitted; `ShouldReplaceCompares`, `ShouldReplaceStrict` and `UnseenNeverReplaces` state the comparison |
| TinyLfuPolicy.TouchUnseen | include/cachemere/policy/insertion_tinylfu.hpp:50-59 | touching a key the doorkeeper lacks adds it there, changes no other membership and leaves the sketch unchanged |
| TinyLfuPolicy.TouchSeen | include/cachemere/policy/insertion_tinylfu.hpp:52-56 | touching a doorkeeper member raises its count by one; if that passes the cardinality both structures are cleared, otherwise the doorkeeper and all other counts are unchanged |
| TinyLfuPolicy.TouchKeepsSizing | include/cachemere/policy/insertion_tinylfu.hpp:50-60 | neither structure's sizing parameter changes on a touch |
| TinyLfuPolicy.TouchKeepsConsistent | include/cachemere/policy/insertion_tinylfu.hpp:50-60 | a touch preserves the invariant: only doorkeeper members are counted and every estimate is at most the cardinality |
| TinyLfuPolicy.TouchAllKeepsConsistent | include/cachemere/policy/insertion_tinylfu.hpp:52-56 | after any sequence of touches every estimate is still at most the cardinality, because passing it resets |
| TinyLfuPolicy.ShouldAddAfterTouch | include/cachemere/policy/insertion_tinylfu.hpp:19-22 | right after a touch, the touched key is admitted unless that touch pushed its count past the cardinality and reset everything |
| TinyLfuPolicy.TouchAdmitsOnlyItsKey | include/cachemere/policy/insertion_tinylfu.hpp:50-60 | a touch never makes a different, previously rejected key admitted |
| TinyLfuPolicy.UntouchedStaysRejected | include/cachemere/policy/insertion_tinylfu.hpp:19-22 | a rejected key stays rejected through any sequence of touches of other keys |
| TinyLfuPolicy.TouchKeepsAdmitted | include/cachemere/policy/insertion_tinylfu.hpp:50-60 | an admitted key stays admitted through any touch that does not reset, and a touch that drops it drops every key |
| TinyLfuPolicy.TouchedSinceResetAdmitted | include/cachemere/policy/insertion_tinylfu.hpp:50-60 | a key admitted before, or touched during, a sequence of touches none of which resets is admitted at the end |
| TinyLfuPolicy.AfterResetOnlyTouchedAdmitted | include/cachemere/policy/insertion_tinylfu.hpp:44-60 | after a reset, `should_add` holds only for keys touched since |
| TinyLfuPolicy.AgingEpoch | include/cachemere/policy/insertion_tinylfu.hpp:50-60 | after reserve(c), touching one key j times (1 <= j <= c+1) admits it, gives it estimate j-1, and admits or counts no other key |
| TinyLfuPolicy.AgingResets | include/cachemere/policy/insertion_tinylfu.hpp:52-56 | the (c+2)-th touch of one key after reserve(c) passes the bound and returns the policy to the freshly reserved state |
| TinyLfuPolicy.ShouldReplaceCompares | include/cachemere/policy/insertion_tinylfu.hpp:24-42 | in a consistent state with cardinality below `0xFFFFFFFF`, the candidate replaces the victim iff its count plus doorkeeper one is strictly larger than the victim's |
| TinyLfuPolicy.ShouldReplaceStrict | include/cachemere/policy/insertion_tinylfu.hpp:24-27 | ties keep the victim, a key never replaces itself, two keys never replace each other, and replacement is transitive |
| TinyLfuPolicy.UnseenNeverReplaces | include/cachemere/policy/insertion_tinylfu.hpp:24-42 | a key with no history since the last reset has estimate 0 and never displaces a victim |
| TinyLfuPolicy.InsertionTinyLFU.constructor | include/cachemere/policy/insertion_tinylfu.hpp:13-17 | a new policy is in the state reserve(cardinality) installs |
| TinyLfuPolicy.InsertionTinyLFU.Reserve | include/cachemere/policy/insertion_tinylfu.hpp:13-17 | both structures are replaced by fresh ones of the given cardinality; the invariant holds |
| TinyLfuPolicy.InsertionTinyLFU.Reset | include/cachemere/policy/insertion_tinylfu.hpp:44-48 | both structures are cleared in place; the invariant holds afterwards |
| TinyLfuPolicy.InsertionTinyLFU.TouchItem | include/cachemere/policy/insertion_tinylfu.hpp:50-60 | the new state is `Touched` of the old one; the invariant is preserved |
| TinyLfuPolicy.InsertionTinyLFU.OnCacheHit | include/cachemere/policy/insertion_tinylfu.hpp:3-6 | a hit is exactly a touch of the item's key |
| TinyLfuPolicy.InsertionTinyLFU.OnCacheMiss | include/cachemere/policy/insertion_tinylfu.hpp:8-11 | a miss is exactly a touch of the key |

## Left out

- `eviction_lru.hpp`, the implementation file the header includes at `eviction_lru.h:86`, is not part of this model. The handlers follow the header's doc comments. Its assertions and the documented contract are modelled as preconditions: insert takes an untracked key, hit and update take a tracked key, and evict takes the back key. What a build without assertions does on misuse is not modelled.
- LruPolicy.EvictionLRU: the index maps a key to its position in the list, not to a stable list iterator. The model therefore recomputes positions that shift. The O(1) splice and the O(1) tail removal are not modelled as costs.
- The `VictimIterator` mechanics (`operator++`, `operator==`, `victim_begin`/`victim_end`) are not modelled. Enumeration is the sequence `Victims()`, and a partial walk is a prefix of it.
- `std::reference_wrapper` keys and the `std::less` comparator of `m_nodes` are not modelled. Keys are values compared by equality, so aliasing and lifetime of referenced keys are not modelled.
- `memory_used` (`insertion_tinylfu.hpp:29-32`) is not modelled, because the byte counts come from the filters' own code. What remains is that neither structure is resized between two `reserve` calls (`TouchKeepsSizing`).
- The filters' hashing, bit layout, false positives, over-counting and counter saturation are not modelled. The doorkeeper and the sketch are exact, which is the ideal the probabilistic versions approximate. With a real Bloom filter, `should_add` may also admit keys that were never touched.
- The default constructor of `InsertionTinyLFU` is not part of this model. The model's constructor takes a cardinality and behaves like a `reserve`.
- Thread-safety and the host cache container are not modelled. Both policies are single-threaded state machines driven by the cache.
