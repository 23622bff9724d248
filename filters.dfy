/**
 * The two probabilistic collaborators of the TinyLFU admission policy,
 * modelled by their contracts as exact structures: the doorkeeper
 * (detail::BloomFilter) as the set of keys added since the last clear, the
 * frequency sketch (detail::CountingBloomFilter) as an exact counter per key.
 * An exact set has no false negatives (nor false positives), and an exact
 * counter never under-counts, so every property proved on top of them holds
 * for the ideal filter the real ones approximate.
 */
module Filters {

  /** C++ `uint32_t`. */
  type u32 = x: int | 0 <= x < 0x1_0000_0000

  const U32_MAX: int := 0xFFFF_FFFF

  /** Doorkeeper sized for `capacity` keys; `members` is every key added since the last clear. */
  datatype BloomFilter<K(==, !new)> = BloomFilter(capacity: nat, members: set<K>)
  {
    predicate MaybeContains(k: K)
    {
      k in members
    }

    /** Records `k`; no false negatives afterwards, no other answer changes. */
    function Add(k: K): (f: BloomFilter<K>)
      ensures f.MaybeContains(k)
      ensures forall x | x != k :: f.MaybeContains(x) == MaybeContains(x)
      ensures f.capacity == capacity
    {
      BloomFilter(capacity, members + {k})
    }

    /** Forgets every key; the sizing is kept. */
    function Clear(): (f: BloomFilter<K>)
      ensures forall x :: !f.MaybeContains(x)
      ensures f.capacity == capacity
    {
      BloomFilter(capacity, {})
    }
  }

  /** A freshly allocated doorkeeper for `capacity` keys. */
  function NewBloomFilter<K(==, !new)>(capacity: u32): (f: BloomFilter<K>)
    ensures forall x :: !f.MaybeContains(x)
    ensures f.capacity == capacity
  {
    BloomFilter(capacity, {})
  }

  /** Frequency sketch with cardinality bound `limit`; `counts` holds the non-default counters. */
  datatype CountingBloomFilter<K(==, !new)> = CountingBloomFilter(limit: nat, counts: map<K, nat>)
  {
    function Cardinality(): nat
    {
      limit
    }

    function Estimate(k: K): nat
    {
      if k in counts then counts[k] else 0
    }

    /** Counts one more occurrence of `k`; no other estimate changes. */
    function Add(k: K): (f: CountingBloomFilter<K>)
      ensures f.Estimate(k) == Estimate(k) + 1
      ensures forall x | x != k :: f.Estimate(x) == Estimate(x)
      ensures f.Cardinality() == Cardinality()
    {
      CountingBloomFilter(limit, counts[k := Estimate(k) + 1])
    }

    /** Resets every counter to zero; the cardinality bound is kept. */
    function Clear(): (f: CountingBloomFilter<K>)
      ensures forall x :: f.Estimate(x) == 0
      ensures f.Cardinality() == Cardinality()
    {
      CountingBloomFilter(limit, map[])
    }
  }

  /** A freshly allocated sketch with cardinality bound `cardinality`. */
  function NewCountingBloomFilter<K(==, !new)>(cardinality: u32): (f: CountingBloomFilter<K>)
    ensures forall x :: f.Estimate(x) == 0
    ensures f.Cardinality() == cardinality
  {
    CountingBloomFilter(cardinality, map[])
  }
}
