/**
 * Least Recently Used (LRU) eviction policy.
 *
 * The policy keeps the tracked keys in a list ordered from most-recently
 * used (front, index 0) to least-recently used (back), and an index from
 * every tracked key to its position in that list.  The cache calls the
 * event handlers in the order the events happen; victims are proposed
 * from the back of the list.
 */
module LruPolicy {

  /** No key occurs twice in `s`. */
  ghost predicate NoDup<K>(s: seq<K>)
  {
    forall i, j :: 0 <= i < j < |s| ==> s[i] != s[j]
  }

  /** `s` with `k` taken out, every other key kept in its order. */
  function Without<K(==)>(s: seq<K>, k: K): (r: seq<K>)
    ensures forall x | x in r :: x in s && x != k
    ensures forall x | x in s && x != k :: x in r
    ensures |r| <= |s|
    ensures k in s ==> |r| < |s|
  {
    if s == [] then []
    else (if s[0] == k then [] else [s[0]]) + Without(s[1..], k)
  }

  /** The recency order once `k` has been used: `k` first, the others as they were. */
  function MoveToFront<K(==)>(s: seq<K>, k: K): (r: seq<K>)
    ensures r != [] && r[0] == k
    ensures forall x | x in r :: x in s || x == k
    ensures forall x | x in s :: x in r
    ensures k in s ==> |r| <= |s|
  {
    [k] + Without(s, k)
  }

  /** The order in which a recency list proposes victims: back to front. */
  function Reverse<K>(s: seq<K>): (r: seq<K>)
    ensures |r| == |s|
    ensures forall i :: 0 <= i < |s| ==> r[i] == s[|s| - 1 - i]
  {
    if s == [] then [] else Reverse(s[1..]) + [s[0]]
  }

  /** The tail of a duplicate-free list is duplicate-free and does not hold its head. */
  lemma NoDupTail<K>(s: seq<K>)
    requires NoDup(s) && s != []
    ensures NoDup(s[1..])
    ensures s[0] !in s[1..]
  {
    forall a, b | 0 <= a < b < |s[1..]| ensures s[1..][a] != s[1..][b] {
      assert s[1..][a] == s[a + 1] && s[1..][b] == s[b + 1];
    }
    forall j | 0 <= j < |s[1..]| ensures s[1..][j] != s[0] {
      assert s[1..][j] == s[j + 1];
    }
  }

  lemma {:induction false} WithoutAbsent<K>(s: seq<K>, k: K)
    requires k !in s
    ensures Without(s, k) == s
  {
    if s != [] {
      WithoutAbsent(s[1..], k);
    }
  }

  /** Taking out the key at position `i` of a duplicate-free list is splicing it out. */
  lemma {:induction false} WithoutAt<K>(s: seq<K>, i: nat)
    requires NoDup(s) && i < |s|
    ensures Without(s, s[i]) == s[..i] + s[i + 1..]
  {
    NoDupTail(s);
    if i == 0 {
      WithoutAbsent(s[1..], s[0]);
    } else {
      WithoutAt(s[1..], i - 1);
      assert s[1..][i - 1] == s[i];
      assert s[0] != s[i];
      assert s[..i] == [s[0]] + s[1..][..i - 1];
      assert s[i + 1..] == s[1..][i..];
    }
  }

  lemma {:induction false} WithoutNoDup<K>(s: seq<K>, k: K)
    requires NoDup(s)
    ensures NoDup(Without(s, k))
  {
    if s != [] {
      NoDupTail(s);
      WithoutNoDup(s[1..], k);
    }
  }

  /** A duplicate-free list has as many distinct keys as entries. */
  lemma {:induction false} DistinctCount<K>(s: seq<K>)
    requires NoDup(s)
    ensures |set x | x in s| == |s|
  {
    if s != [] {
      NoDupTail(s);
      DistinctCount(s[1..]);
      assert (set x | x in s) == (set x | x in s[1..]) + {s[0]};
    }
  }

  /**
   * Inserting an untracked key puts it at the front: it becomes the last
   * victim, the tracked set grows by exactly that key and the list stays
   * duplicate-free.
   */
  lemma InsertOrder<K>(s: seq<K>, k: K)
    requires NoDup(s) && k !in s
    ensures NoDup([k] + s)
    ensures (set x | x in [k] + s) == (set x | x in s) + {k}
    ensures |[k] + s| == |s| + 1
    ensures Reverse([k] + s) == Reverse(s) + [k]
  {
  }

  /**
   * Using a tracked key moves it to the front: the key set and the size are
   * unchanged, the list stays duplicate-free and the other keys keep their
   * relative order.
   */
  lemma MoveToFrontKeepsOthers<K>(s: seq<K>, k: K)
    requires NoDup(s) && k in s
    ensures NoDup(MoveToFront(s, k))
    ensures MoveToFront(s, k)[0] == k
    ensures (set x | x in MoveToFront(s, k)) == (set x | x in s)
    ensures |MoveToFront(s, k)| == |s|
    ensures Without(MoveToFront(s, k), k) == Without(s, k)
  {
    var i :| 0 <= i < |s| && s[i] == k;
    WithoutAt(s, i);
    WithoutNoDup(s, k);
    var w := Without(s, k);
    assert k !in w;
    WithoutAbsent(w, k);
    assert MoveToFront(s, k)[1..] == w;
  }

  /**
   * Evicting the back key `last` of `s == rest + [last]` leaves `rest`: that
   * key and no other is removed, and the remaining victims are the old ones
   * after the first.
   */
  lemma EvictBack<K>(s: seq<K>, rest: seq<K>, last: K)
    requires NoDup(s) && s == rest + [last]
    ensures NoDup(rest)
    ensures (set x | x in rest) == (set x | x in s) - {last}
    ensures |rest| == |s| - 1
    ensures Reverse(rest) == Reverse(s)[1..]
  {
    assert forall j | 0 <= j < |rest| :: s[j] == rest[j];
    assert NoDup(rest);
    forall x | x in rest ensures x != last {
      var j :| 0 <= j < |rest| && rest[j] == x;
      assert s[j] == x && s[|s| - 1] == last;
    }
    var r, rs := Reverse(rest), Reverse(s);
    forall i | 0 <= i < |r| ensures r[i] == rs[1..][i] {
      assert rs[1..][i] == rs[i + 1] == s[|s| - 2 - i];
    }
  }

  /** The victim order holds each key of the recency list exactly once. */
  lemma VictimsAreTracked<K>(s: seq<K>)
    requires NoDup(s)
    ensures NoDup(Reverse(s))
    ensures forall i | 0 <= i < |s| :: s[i] in Reverse(s)
    ensures forall x | x in Reverse(s) :: x in s
  {
    var r := Reverse(s);
    forall i | 0 <= i < |s| ensures s[i] in r {
      assert r[|s| - 1 - i] == s[i];
    }
  }

  /** `nodes` maps every key of the duplicate-free list `keys`, and nothing else, to its position. */
  ghost predicate Indexes<K>(keys: seq<K>, nodes: map<K, nat>)
  {
    && NoDup(keys)
    && (forall i :: 0 <= i < |keys| ==> keys[i] in nodes && nodes[keys[i]] == i)
    && (forall k :: k in nodes ==> nodes[k] < |keys| && keys[nodes[k]] == k)
  }

  /** Moving the key at position `i` to the front shifts the keys before it back by one. */
  lemma HitReindexes<K>(keys: seq<K>, nodes: map<K, nat>, key: K, i: nat, moved: seq<K>, index: map<K, nat>)
    requires Indexes(keys, nodes) && key in nodes && nodes[key] == i
    requires moved == [key] + keys[..i] + keys[i + 1..]
    requires index == map k | k in nodes :: if k == key then 0 else if nodes[k] < i then nodes[k] + 1 else nodes[k]
    ensures Indexes(moved, index)
  {
    forall j | 0 <= j < |moved| ensures moved[j] in index && index[moved[j]] == j {
      if 0 < j <= i {
        assert moved[j] == keys[j - 1];
      } else if i < j {
        assert moved[j] == keys[j];
      }
    }
    forall k | k in index ensures index[k] < |moved| && moved[index[k]] == k {
      if k != key {
        var p := nodes[k];
        if p < i {
          assert moved[p + 1] == keys[p];
        } else {
          assert moved[p] == keys[p];
        }
      }
    }
    assert NoDup(moved) by {
      forall a, b | 0 <= a < b < |moved| ensures moved[a] != moved[b] {
        assert index[moved[a]] == a && index[moved[b]] == b;
      }
    }
  }

  /**
   * LRU eviction policy state: `keys` is the list (m_keys), most-recently
   * used first; `nodes` is the index (m_nodes) from each tracked key to its
   * position in `keys`.
   */
  class EvictionLRU<K(==)> {
    var keys: seq<K>
    var nodes: map<K, nat>

    /** The list and the index agree: a bijection between tracked keys and positions. */
    ghost predicate Valid()
      reads this
    {
      Indexes(keys, nodes)
    }

    constructor ()
      ensures Valid()
      ensures keys == [] && nodes == map[]
    {
      keys := [];
      nodes := map[];
    }

    /** The index holds exactly the listed keys, one entry per list position. */
    lemma IndexMatchesList()
      requires Valid()
      ensures nodes.Keys == set x | x in keys
      ensures |nodes| == |keys|
    {
      DistinctCount(keys);
      assert nodes.Keys == set x | x in keys;
    }

    /** Insertion event handler: the untracked key goes to the front of the list. */
    method OnInsert(key: K)
      requires Valid() && key !in nodes
      modifies this
      ensures Valid()
      ensures keys == [key] + old(keys)
      ensures nodes.Keys == old(nodes.Keys) + {key}
      ensures |keys| == |old(keys)| + 1
    {
      assert key !in keys;
      nodes := (map k | k in nodes :: nodes[k] + 1)[key := 0];
      keys := [key] + keys;
    }

    /** Cache hit event handler: the tracked key moves to the front of the list. */
    method OnCacheHit(key: K)
      requires Valid() && key in nodes
      modifies this
      ensures Valid()
      ensures keys == MoveToFront(old(keys), key)
      ensures nodes.Keys == old(nodes.Keys)
      ensures |keys| == |old(keys)|
    {
      var i := nodes[key];
      var moved := [key] + keys[..i] + keys[i + 1..];
      var index := map k | k in nodes :: if k == key then 0 else if nodes[k] < i then nodes[k] + 1 else nodes[k];
      assert keys[i] == key;
      WithoutAt(keys, i);
      assert moved == MoveToFront(keys, key);
      HitReindexes(keys, nodes, key, i, moved, index);
      assert index.Keys == nodes.Keys;
      keys, nodes := moved, index;
    }

    /** Update event handler: like a hit, the tracked key moves to the front. */
    method OnUpdate(key: K)
      requires Valid() && key in nodes
      modifies this
      ensures Valid()
      ensures keys == MoveToFront(old(keys), key)
      ensures nodes.Keys == old(nodes.Keys)
      ensures |keys| == |old(keys)|
    {
      OnCacheHit(key);
    }

    /** Eviction event handler: removes the back of the list, which must hold `key`. */
    method OnEvict(key: K)
      requires Valid() && keys != [] && keys[|keys| - 1] == key
      modifies this
      ensures Valid()
      ensures keys == old(keys)[..|old(keys)| - 1]
      ensures nodes.Keys == old(nodes.Keys) - {key}
      ensures |keys| == |old(keys)| - 1
    {
      nodes := nodes - {key};
      keys := keys[..|keys| - 1];
    }

    /** The victim order: the list walked backwards, least-recently used first. */
    function Victims(): (v: seq<K>)
      reads this
      ensures |v| == |keys|
      ensures forall i :: 0 <= i < |v| ==> v[i] == keys[|keys| - 1 - i]
    {
      Reverse(keys)
    }

    /** The victim order yields every tracked key, exactly once, and nothing else. */
    lemma VictimsMatchIndex()
      requires Valid()
      ensures NoDup(Victims())
      ensures forall k | k in nodes :: k in Victims()
      ensures forall k | k in Victims() :: k in nodes
    {
      VictimsAreTracked(keys);
    }
  }

  /**
   * The documented walk-through: insert A, B, C; hit B; evict A.  Returns the
   * victim order after each stage.
   */
  method Walkthrough<K(==)>(a: K, b: K, c: K) returns (v1: seq<K>, v2: seq<K>, v3: seq<K>)
    requires a != b && b != c && a != c
    ensures v1 == [a, b, c]
    ensures v2 == [a, c, b]
    ensures v3 == [c, b]
  {
    var lru := new EvictionLRU<K>();
    lru.OnInsert(a);
    assert lru.nodes.Keys == {a};
    lru.OnInsert(b);
    assert lru.nodes.Keys == {a, b};
    lru.OnInsert(c);
    assert lru.keys == [c, b, a];
    v1 := lru.Victims();
    assert v1 == Reverse([c, b, a]);
    ReverseOfThree(a, b, c);
    v2, v3 := HitThenEvict(lru, a, b, c);
  }

  /** The victim order of the list C, B, A is A, B, C. */
  lemma ReverseOfThree<K>(a: K, b: K, c: K)
    ensures Reverse([c, b, a]) == [a, b, c]
  {
  }

  /** Hitting the middle key of C, B, A gives B, C, A. */
  lemma HitInMiddle<K>(a: K, b: K, c: K)
    requires a != b && b != c && a != c
    ensures MoveToFront([c, b, a], b) == [b, c, a]
  {
    WithoutAt([c, b, a], 1);
    assert [c, b, a][..1] + [c, b, a][2..] == [c, a];
  }

  /** Second half of the walk-through, from the list C, B, A. */
  method HitThenEvict<K(==)>(lru: EvictionLRU<K>, a: K, b: K, c: K) returns (v2: seq<K>, v3: seq<K>)
    requires a != b && b != c && a != c
    requires lru.Valid() && lru.keys == [c, b, a]
    modifies lru
    ensures v2 == [a, c, b]
    ensures v3 == [c, b]
  {
    HitInMiddle(a, b, c);
    assert lru.keys[1] == b;
    lru.OnCacheHit(b);
    assert lru.keys == [b, c, a];
    v2 := lru.Victims();
    assert |v2| == 3 && v2[0] == a && v2[1] == c && v2[2] == b;
    lru.OnEvict(a);
    assert lru.keys == [b, c];
    v3 := lru.Victims();
    assert |v3| == 2 && v3[0] == c && v3[1] == b;
  }
}
