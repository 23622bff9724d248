/**
 * TinyLFU admission policy.
 *
 * Every observed key (cache hit or cache miss) is "touched": a key the
 * doorkeeper has not seen is recorded there; a key it has seen is counted
 * in the frequency sketch, and a count that exceeds the sketch's cardinality
 * bound clears both structures (aging).  A key is admitted when the
 * doorkeeper has seen it; a candidate replaces a victim when its estimated
 * frequency is strictly higher.
 */
module TinyLfuPolicy {
  import opened Filters

  /** The policy's two structures: m_gatekeeper and m_frequency_sketch. */
  datatype AdmissionState<K(==, !new)> = AdmissionState(gatekeeper: BloomFilter<K>, sketch: CountingBloomFilter<K>)

  /** Both structures are sized for the same cardinality, one a `uint32_t` can hold. */
  ghost predicate Sized<K(!new)>(a: AdmissionState<K>)
  {
    a.gatekeeper.capacity == a.sketch.Cardinality() <= U32_MAX
  }

  /**
   * The policy invariant: only doorkeeper members have been counted, and no
   * estimate exceeds the cardinality bound (exceeding it triggers a reset).
   */
  ghost predicate Consistent<K(!new)>(a: AdmissionState<K>)
  {
    && Sized(a)
    && (forall x :: a.sketch.Estimate(x) > 0 ==> a.gatekeeper.MaybeContains(x))
    && (forall x :: a.sketch.Estimate(x) <= a.sketch.Cardinality())
  }

  /** The state `reserve(cardinality)` installs: two fresh, empty structures. */
  function Reserved<K(==, !new)>(cardinality: u32): (a: AdmissionState<K>)
    ensures Consistent(a)
    ensures a.sketch.Cardinality() == a.gatekeeper.capacity == cardinality
    ensures forall x :: !a.gatekeeper.MaybeContains(x) && a.sketch.Estimate(x) == 0
  {
    AdmissionState(NewBloomFilter(cardinality), NewCountingBloomFilter(cardinality))
  }

  /** The state `reset()` leaves: both structures cleared, sizing kept. */
  function Cleared<K(==, !new)>(a: AdmissionState<K>): (r: AdmissionState<K>)
    ensures forall x :: !r.gatekeeper.MaybeContains(x) && r.sketch.Estimate(x) == 0
    ensures r.gatekeeper.capacity == a.gatekeeper.capacity
    ensures r.sketch.Cardinality() == a.sketch.Cardinality()
    ensures Sized(a) ==> Consistent(r)
  {
    AdmissionState(a.gatekeeper.Clear(), a.sketch.Clear())
  }

  /** The state after one observation of `key` (touch_item). */
  function Touched<K(==, !new)>(a: AdmissionState<K>, key: K): (r: AdmissionState<K>)
    ensures r.gatekeeper.MaybeContains(key) || forall x :: !r.gatekeeper.MaybeContains(x) && r.sketch.Estimate(x) == 0
    ensures forall x | r.gatekeeper.MaybeContains(x) :: x == key || a.gatekeeper.MaybeContains(x)
  {
    if a.gatekeeper.MaybeContains(key) then
      var counted := AdmissionState(a.gatekeeper, a.sketch.Add(key));
      if counted.sketch.Estimate(key) > counted.sketch.Cardinality() then Cleared(counted) else counted
    else
      AdmissionState(a.gatekeeper.Add(key), a.sketch)
  }

  /** The state after observing `keys` in order. */
  function TouchAll<K(==, !new)>(a: AdmissionState<K>, keys: seq<K>): AdmissionState<K>
  {
    if keys == [] then a else Touched(TouchAll(a, keys[..|keys| - 1]), keys[|keys| - 1])
  }

  /** should_add: admit `key` when the doorkeeper has seen it. */
  predicate ShouldAdd<K(==, !new)>(a: AdmissionState<K>, key: K)
    ensures Consistent(a) && a.sketch.Estimate(key) > 0 ==> ShouldAdd(a, key)
  {
    a.gatekeeper.MaybeContains(key)
  }

  /**
   * estimate_count_for_key: the sketch estimate, plus one for a doorkeeper
   * member, computed in `uint32_t`.
   */
  function EstimateCountForKey<K(==, !new)>(a: AdmissionState<K>, key: K): (r: u32)
    ensures a.sketch.Estimate(key) < U32_MAX ==>
      r == a.sketch.Estimate(key) + (if a.gatekeeper.MaybeContains(key) then 1 else 0)
    ensures a.sketch.Estimate(key) == U32_MAX && a.gatekeeper.MaybeContains(key) ==> r == 0
  {
    var sketchEstimation := a.sketch.Estimate(key) % 0x1_0000_0000;
    if a.gatekeeper.MaybeContains(key) then (sketchEstimation + 1) % 0x1_0000_0000 else sketchEstimation
  }

  /** should_replace: the candidate wins only with a strictly higher estimate. */
  predicate ShouldReplace<K(==, !new)>(a: AdmissionState<K>, victim: K, candidate: K)
    ensures ShouldReplace(a, victim, candidate) ==> EstimateCountForKey(a, candidate) > 0
    ensures Consistent(a) && ShouldReplace(a, victim, candidate) ==> ShouldAdd(a, candidate)
  {
    EstimateCountForKey(a, candidate) > EstimateCountForKey(a, victim)
  }

  /** Touching a key the doorkeeper has not seen records it there and leaves the sketch alone. */
  lemma TouchUnseen<K(!new)>(a: AdmissionState<K>, key: K)
    requires !a.gatekeeper.MaybeContains(key)
    ensures Touched(a, key).gatekeeper.MaybeContains(key)
    ensures forall x | x != key :: Touched(a, key).gatekeeper.MaybeContains(x) == a.gatekeeper.MaybeContains(x)
    ensures Touched(a, key).sketch == a.sketch
  {
  }

  /**
   * Touching a key the doorkeeper has seen counts it; if the new estimate
   * exceeds the cardinality bound everything is forgotten, otherwise the
   * doorkeeper is unchanged and only that key's estimate grows, by one.
   */
  lemma TouchSeen<K(!new)>(a: AdmissionState<K>, key: K)
    requires a.gatekeeper.MaybeContains(key)
    ensures var t := Touched(a, key);
      a.sketch.Estimate(key) + 1 > a.sketch.Cardinality() ==>
        forall x :: !t.gatekeeper.MaybeContains(x) && t.sketch.Estimate(x) == 0
    ensures var t := Touched(a, key);
      a.sketch.Estimate(key) + 1 <= a.sketch.Cardinality() ==>
        && t.gatekeeper == a.gatekeeper
        && t.sketch.Estimate(key) == a.sketch.Estimate(key) + 1
        && forall x | x != key :: t.sketch.Estimate(x) == a.sketch.Estimate(x)
  {
  }

  /** A touch never changes either structure's sizing parameter. */
  lemma TouchKeepsSizing<K(!new)>(a: AdmissionState<K>, key: K)
    ensures Touched(a, key).gatekeeper.capacity == a.gatekeeper.capacity
    ensures Touched(a, key).sketch.Cardinality() == a.sketch.Cardinality()
  {
  }

  /** A touch keeps the invariant: counted keys are members, and every estimate is within the bound. */
  lemma TouchKeepsConsistent<K(!new)>(a: AdmissionState<K>, key: K)
    requires Consistent(a)
    ensures Consistent(Touched(a, key))
  {
    var t := Touched(a, key);
    if a.gatekeeper.MaybeContains(key) {
      TouchSeen(a, key);
    } else {
      TouchUnseen(a, key);
      forall x | t.sketch.Estimate(x) > 0 ensures t.gatekeeper.MaybeContains(x) {
        assert a.gatekeeper.MaybeContains(x);
      }
    }
  }

  /** Any sequence of touches keeps the invariant, hence the estimate bound. */
  lemma {:induction false} TouchAllKeepsConsistent<K(!new)>(a: AdmissionState<K>, keys: seq<K>)
    requires Consistent(a)
    ensures Consistent(TouchAll(a, keys))
  {
    if keys != [] {
      TouchAllKeepsConsistent(a, keys[..|keys| - 1]);
      TouchKeepsConsistent(TouchAll(a, keys[..|keys| - 1]), keys[|keys| - 1]);
    }
  }

  /**
   * Right after a touch of `key`, `key` is admitted unless that touch was
   * the one that pushed its estimate past the bound and reset everything.
   */
  lemma ShouldAddAfterTouch<K(!new)>(a: AdmissionState<K>, key: K)
    ensures ShouldAdd(Touched(a, key), key) <==>
      !(a.gatekeeper.MaybeContains(key) && a.sketch.Estimate(key) + 1 > a.sketch.Cardinality())
  {
  }

  /** A touch of one key never admits a different key that was not admitted before. */
  lemma TouchAdmitsOnlyItsKey<K(!new)>(a: AdmissionState<K>, key: K, other: K)
    requires other != key && !ShouldAdd(a, other)
    ensures !ShouldAdd(Touched(a, key), other)
  {
  }

  /** A key not admitted stays rejected for as long as it is not touched. */
  lemma {:induction false} UntouchedStaysRejected<K(!new)>(a: AdmissionState<K>, keys: seq<K>, k: K)
    requires !ShouldAdd(a, k) && k !in keys
    ensures !ShouldAdd(TouchAll(a, keys), k)
  {
    if keys != [] {
      var prefix := keys[..|keys| - 1];
      assert k !in prefix by {
        forall i | 0 <= i < |prefix| ensures prefix[i] != k {
          assert prefix[i] == keys[i];
        }
      }
      UntouchedStaysRejected(a, prefix, k);
      TouchAdmitsOnlyItsKey(TouchAll(a, prefix), keys[|keys| - 1], k);
    }
  }

  /** The touch of `key` in state `a` is the one that pushes its estimate past the bound. */
  predicate Resets<K(==, !new)>(a: AdmissionState<K>, key: K)
  {
    a.gatekeeper.MaybeContains(key) && a.sketch.Estimate(key) + 1 > a.sketch.Cardinality()
  }

  /** An admitted key stays admitted through a touch, unless that touch resets everything. */
  lemma TouchKeepsAdmitted<K(!new)>(a: AdmissionState<K>, key: K, k: K)
    requires ShouldAdd(a, k)
    ensures !Resets(a, key) ==> ShouldAdd(Touched(a, key), k)
    ensures ShouldAdd(Touched(a, key), k) || forall x :: !ShouldAdd(Touched(a, key), x)
  {
  }

  /** Observing `keys` from `a` never triggers a reset. */
  ghost predicate NoResetAlong<K(!new)>(a: AdmissionState<K>, keys: seq<K>)
  {
    forall j | 0 <= j < |keys| :: !Resets(TouchAll(a, keys[..j]), keys[j])
  }

  /**
   * A key admitted before, or touched since, stays admitted for as long as no
   * touch resets the policy.
   */
  lemma {:induction false} TouchedSinceResetAdmitted<K(!new)>(a: AdmissionState<K>, keys: seq<K>, k: K)
    requires ShouldAdd(a, k) || k in keys
    requires NoResetAlong(a, keys)
    ensures ShouldAdd(TouchAll(a, keys), k)
  {
    if keys != [] {
      var prefix, last := keys[..|keys| - 1], keys[|keys| - 1];
      assert NoResetAlong(a, prefix) by {
        forall j | 0 <= j < |prefix| ensures !Resets(TouchAll(a, prefix[..j]), prefix[j]) {
          assert prefix[..j] == keys[..j] && prefix[j] == keys[j];
        }
      }
      assert !Resets(TouchAll(a, prefix), last);
      if k == last {
        ShouldAddAfterTouch(TouchAll(a, prefix), last);
      } else {
        assert ShouldAdd(a, k) || k in prefix by {
          if k in keys {
            var j :| 0 <= j < |keys| && keys[j] == k;
            assert prefix[j] == k;
          }
        }
        TouchedSinceResetAdmitted(a, prefix, k);
        TouchKeepsAdmitted(TouchAll(a, prefix), last, k);
      }
    }
  }

  /** After a reset, only keys touched since are admitted. */
  lemma AfterResetOnlyTouchedAdmitted<K(!new)>(a: AdmissionState<K>, keys: seq<K>, k: K)
    ensures ShouldAdd(TouchAll(Cleared(a), keys), k) ==> k in keys
  {
    if k !in keys {
      UntouchedStaysRejected(Cleared(a), keys, k);
    }
  }

  /**
   * Touching one key `j` times after `reserve(c)`, for `1 <= j <= c + 1`:
   * the key is admitted from the first touch on, its estimate is `j - 1`,
   * no other key is admitted or counted, and the sizing is that of reserve.
   */
  lemma {:induction false} AgingEpoch<K(!new)>(c: u32, k: K, keys: seq<K>)
    requires forall i | 0 <= i < |keys| :: keys[i] == k
    requires |keys| <= c + 1
    ensures var a := TouchAll(Reserved<K>(c), keys);
      && a.gatekeeper.capacity == c && a.sketch.Cardinality() == c
      && (keys != [] ==> ShouldAdd(a, k) && a.sketch.Estimate(k) == |keys| - 1)
      && (keys == [] ==> a == Reserved(c))
      && forall x | x != k :: !ShouldAdd(a, x) && a.sketch.Estimate(x) == 0
  {
    if keys != [] {
      var prefix := keys[..|keys| - 1];
      AgingEpoch(c, k, prefix);
      var p := TouchAll(Reserved<K>(c), prefix);
      assert keys[|keys| - 1] == k;
      if prefix == [] {
        TouchUnseen(p, k);
      } else {
        assert p.sketch.Estimate(k) + 1 <= c;
        TouchSeen(p, k);
        forall x | x != k ensures !ShouldAdd(Touched(p, k), x) && Touched(p, k).sketch.Estimate(x) == 0 {
          assert !ShouldAdd(p, x) && p.sketch.Estimate(x) == 0;
        }
      }
    }
  }

  /**
   * The touch that would take a key's estimate past `c` resets everything:
   * `c + 2` touches of one key after `reserve(c)` give back the reserved state.
   */
  lemma AgingResets<K(!new)>(c: u32, k: K, keys: seq<K>)
    requires forall i | 0 <= i < |keys| :: keys[i] == k
    requires |keys| == c + 2
    ensures TouchAll(Reserved<K>(c), keys) == Reserved(c)
  {
    var prefix := keys[..|keys| - 1];
    AgingEpoch(c, k, prefix);
    var p := TouchAll(Reserved<K>(c), prefix);
    assert keys[|keys| - 1] == k;
    assert Touched(p, k) == Cleared(AdmissionState(p.gatekeeper, p.sketch.Add(k)));
  }

  /**
   * In a consistent state whose bound leaves room for the doorkeeper's extra
   * one, should_replace compares the unwrapped estimates: sketch count plus
   * one for a doorkeeper member.
   */
  lemma ShouldReplaceCompares<K(!new)>(a: AdmissionState<K>, victim: K, candidate: K)
    requires Consistent(a) && a.sketch.Cardinality() < U32_MAX
    ensures ShouldReplace(a, victim, candidate) <==>
      a.sketch.Estimate(candidate) + (if ShouldAdd(a, candidate) then 1 else 0) >
      a.sketch.Estimate(victim) + (if ShouldAdd(a, victim) then 1 else 0)
  {
    assert a.sketch.Estimate(candidate) <= a.sketch.Cardinality();
    assert a.sketch.Estimate(victim) <= a.sketch.Cardinality();
  }

  /**
   * should_replace is a strict order: ties keep the victim, a key never
   * replaces itself, and two keys never replace each other.
   */
  lemma ShouldReplaceStrict<K(!new)>(a: AdmissionState<K>, x: K, y: K, z: K)
    ensures EstimateCountForKey(a, x) == EstimateCountForKey(a, y) ==> !ShouldReplace(a, x, y)
    ensures !ShouldReplace(a, x, x)
    ensures ShouldReplace(a, x, y) ==> !ShouldReplace(a, y, x)
    ensures ShouldReplace(a, x, y) && ShouldReplace(a, y, z) ==> ShouldReplace(a, x, z)
  {
  }

  /** A key with no recorded history has estimate zero and never displaces a victim. */
  lemma UnseenNeverReplaces<K(!new)>(a: AdmissionState<K>, victim: K, candidate: K)
    requires Consistent(a) && !ShouldAdd(a, candidate)
    ensures EstimateCountForKey(a, candidate) == 0
    ensures !ShouldReplace(a, victim, candidate)
  {
  }

  /** The TinyLFU admission policy object. */
  class InsertionTinyLFU<K(==, !new)> {
    var gatekeeper: BloomFilter<K>
    var frequencySketch: CountingBloomFilter<K>

    function State(): AdmissionState<K>
      reads this
    {
      AdmissionState(gatekeeper, frequencySketch)
    }

    ghost predicate Valid()
      reads this
    {
      Consistent(State())
    }

    /** A policy sized for `cardinality` keys, as after `reserve(cardinality)`. */
    constructor (cardinality: u32)
      ensures Valid()
      ensures State() == Reserved(cardinality)
    {
      gatekeeper := NewBloomFilter(cardinality);
      frequencySketch := NewCountingBloomFilter(cardinality);
    }

    /** Replaces both structures with fresh ones sized for `cardinality`. */
    method Reserve(cardinality: u32)
      modifies this
      ensures Valid()
      ensures State() == Reserved(cardinality)
    {
      gatekeeper := NewBloomFilter(cardinality);
      frequencySketch := NewCountingBloomFilter(cardinality);
    }

    /** Clears both structures. */
    method Reset()
      modifies this
      ensures State() == Cleared(old(State()))
      ensures Sized(old(State())) ==> Valid()
    {
      gatekeeper := gatekeeper.Clear();
      frequencySketch := frequencySketch.Clear();
    }

    /** Records one observation of `key`, resetting when its estimate exceeds the bound. */
    method TouchItem(key: K)
      requires Valid()
      modifies this
      ensures Valid()
      ensures State() == Touched(old(State()), key)
    {
      TouchKeepsConsistent(State(), key);
      if gatekeeper.MaybeContains(key) {
        frequencySketch := frequencySketch.Add(key);
        if frequencySketch.Estimate(key) > frequencySketch.Cardinality() {
          Reset();
        }
      } else {
        gatekeeper := gatekeeper.Add(key);
      }
    }

    /** A cache hit on the item with key `key` is an observation of `key`. */
    method OnCacheHit(key: K)
      requires Valid()
      modifies this
      ensures Valid()
      ensures State() == Touched(old(State()), key)
    {
      TouchItem(key);
    }

    /** A cache miss on `key` is an observation of `key`. */
    method OnCacheMiss(key: K)
      requires Valid()
      modifies this
      ensures Valid()
      ensures State() == Touched(old(State()), key)
    {
      TouchItem(key);
    }
  }
}
