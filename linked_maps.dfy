/**
 * Kotlin's `mutableMapOf()`, a LinkedHashMap: a finite map that also keeps
 * the order in which its keys were first inserted. Putting a value for a key
 * that is already present keeps the key where it was; removing a key drops
 * it from the order.
 */
module LinkedMaps {
  import opened Wrappers

  datatype RawLinkedMap<K(==,!new), V> = RawLinkedMap(order: seq<K>, entries: map<K, V>)

  /** Positions `i` and `j` of `s` hold different elements. */
  ghost predicate Apart<K>(s: seq<K>, i: int, j: int) {
    0 <= i < |s| && 0 <= j < |s| && s[i] != s[j]
  }

  /**
   * No element occurs twice in `s`. The quantifier fires only on `Apart`,
   * so that the elements of a long order are not compared pairwise unless
   * a proof asks for it.
   */
  ghost predicate Distinct<K>(s: seq<K>) {
    forall i, j {:trigger Apart(s, i, j)} :: 0 <= i < j < |s| ==> Apart(s, i, j)
  }

  /** Two positions of a distinct sequence hold different elements. */
  lemma DistinctAt<K>(s: seq<K>, i: int, j: int)
    requires Distinct(s) && 0 <= i < |s| && 0 <= j < |s| && i != j
    ensures s[i] != s[j]
  {
    if i < j {
      assert Apart(s, i, j);
    } else {
      assert Apart(s, j, i);
    }
  }

  /** A sequence is distinct exactly when its first part is and its last element is new. */
  lemma DistinctSnoc<K>(s: seq<K>, x: K)
    ensures Distinct(s + [x]) <==> Distinct(s) && x !in s
  {
    var t := s + [x];
    if Distinct(t) {
      forall i, j | 0 <= i < j < |s|
        ensures Apart(s, i, j)
      {
        assert Apart(t, i, j);
      }
      forall i | 0 <= i < |s|
        ensures s[i] != x
      {
        assert Apart(t, i, |s|);
      }
    }
    if Distinct(s) && x !in s {
      forall i, j | 0 <= i < j < |t|
        ensures Apart(t, i, j)
      {
        if j < |s| {
          assert Apart(s, i, j);
        }
      }
    }
  }

  /** The elements after the first of a distinct sequence are distinct and do not include the first. */
  lemma DistinctTail<K>(s: seq<K>)
    requires Distinct(s) && s != []
    ensures Distinct(s[1..]) && s[0] !in s[1..]
  {
    forall i, j | 0 <= i < j < |s[1..]|
      ensures Apart(s[1..], i, j)
    {
      assert Apart(s, i + 1, j + 1);
    }
    forall j | 0 <= j < |s[1..]|
      ensures s[1..][j] != s[0]
    {
      assert Apart(s, 0, j + 1);
    }
  }

  /** A sequence with a first element is distinct exactly when the rest is and does not hold the first. */
  lemma DistinctCons<K>(x: K, s: seq<K>)
    ensures Distinct([x] + s) <==> Distinct(s) && x !in s
  {
    var t := [x] + s;
    if Distinct(s) && x !in s {
      forall i, j | 0 <= i < j < |t|
        ensures Apart(t, i, j)
      {
        if 0 < i {
          assert Apart(s, i - 1, j - 1);
        }
      }
    }
    if Distinct(t) {
      assert t[1..] == s;
      DistinctTail(t);
    }
  }

  /** A non-empty sequence is distinct exactly when all but its last element are and the last is new. */
  lemma DistinctInit<K>(s: seq<K>)
    requires s != []
    ensures Distinct(s) <==> Distinct(s[..|s| - 1]) && s[|s| - 1] !in s[..|s| - 1]
  {
    assert s == s[..|s| - 1] + [s[|s| - 1]];
    DistinctSnoc(s[..|s| - 1], s[|s| - 1]);
  }

  /** Every key appears once in the order, and the order lists exactly the keys. */
  ghost predicate WellOrdered<K(!new), V>(m: RawLinkedMap<K, V>) {
    Distinct(m.order) && forall k :: k in m.entries <==> k in m.order
  }

  type LinkedMap<K(==,!new), V> = m: RawLinkedMap<K, V> | WellOrdered(m) witness RawLinkedMap([], map[])

  function Empty<K(==,!new), V>(): (m: LinkedMap<K, V>)
    ensures m.order == [] && m.entries == map[]
  {
    RawLinkedMap([], map[])
  }

  /** `m[k]`: the value stored for `k`, or null. */
  function Get<K(==,!new), V>(m: LinkedMap<K, V>, k: K): (r: Option<V>)
    ensures r.Some? <==> k in m.order
  {
    if k in m.entries then Some(m.entries[k]) else None
  }

  /** `m[k] = v`: a new key goes to the end of the order, an existing one stays. */
  function Put<K(==,!new), V>(m: LinkedMap<K, V>, k: K, v: V): (r: LinkedMap<K, V>)
    ensures Get(r, k) == Some(v)
    ensures forall k' :: k' != k ==> Get(r, k') == Get(m, k')
    ensures r.order == if k in m.entries then m.order else m.order + [k]
  {
    if k in m.entries then RawLinkedMap(m.order, m.entries[k := v])
    else
      DistinctSnoc(m.order, k);
      RawLinkedMap(m.order + [k], m.entries[k := v])
  }

  /** The elements of `s` that are not in `drop`, in their order. */
  function Without<K(==,!new)>(s: seq<K>, drop: set<K>): (r: seq<K>)
    ensures forall x :: x in r <==> x in s && x !in drop
    ensures Distinct(s) ==> Distinct(r)
    ensures |r| <= |s|
  {
    if s == [] then []
    else
      assert s == [s[0]] + s[1..];
      DistinctCons(s[0], s[1..]);
      DistinctCons(s[0], Without(s[1..], drop));
      if s[0] in drop then Without(s[1..], drop) else [s[0]] + Without(s[1..], drop)
  }

  /** `m` with the keys in `drop` removed; the other keys keep their order and values. */
  function RemoveAll<K(==,!new), V>(m: LinkedMap<K, V>, drop: set<K>): (r: LinkedMap<K, V>)
    ensures forall k :: Get(r, k) == if k in drop then None else Get(m, k)
    ensures r.order == Without(m.order, drop)
  {
    RawLinkedMap(Without(m.order, drop), m.entries - drop)
  }

  /** `m.remove(k)`. */
  function Remove<K(==,!new), V>(m: LinkedMap<K, V>, k: K): (r: LinkedMap<K, V>)
    ensures r == RemoveAll(m, {k})
  {
    RemoveAll(m, {k})
  }

  lemma {:induction false} WithoutWithout<K(!new)>(s: seq<K>, drop: set<K>, more: set<K>)
    ensures Without(Without(s, drop), more) == Without(s, drop + more)
  {
    if s != [] {
      WithoutWithout(s[1..], drop, more);
      if s[0] !in drop {
        assert ([s[0]] + Without(s[1..], drop))[1..] == Without(s[1..], drop);
      }
    }
  }

  /** Removing no keys changes nothing. */
  lemma RemoveNothing<K(!new), V>(m: LinkedMap<K, V>)
    ensures RemoveAll(m, {}) == m
  {
    WithoutNothing(m.order);
  }

  lemma {:induction false} WithoutNothing<K(!new)>(s: seq<K>)
    ensures Without(s, {}) == s
  {
    if s != [] {
      WithoutNothing(s[1..]);
    }
  }

  /** Removing keys one after another is removing them all at once. */
  lemma RemoveAfterRemoveAll<K(!new), V>(m: LinkedMap<K, V>, drop: set<K>, k: K)
    ensures Remove(RemoveAll(m, drop), k) == RemoveAll(m, drop + {k})
  {
    WithoutWithout(m.order, drop, {k});
  }

  /** The entries `(key, value)` in key order, as `m.entries` iterates them. */
  function Entries<K(==,!new), V>(m: LinkedMap<K, V>): (r: seq<(K, V)>)
    ensures |r| == |m.order|
    ensures forall i :: 0 <= i < |r| ==> r[i].0 == m.order[i] && Get(m, r[i].0) == Some(r[i].1)
  {
    seq(|m.order|, i requires 0 <= i < |m.order| => (m.order[i], m.entries[m.order[i]]))
  }

  /** The values in key order, as `m.values` iterates them. */
  function Values<K(==,!new), V>(m: LinkedMap<K, V>): (r: seq<V>)
    ensures |r| == |m.order|
    ensures forall i :: 0 <= i < |r| ==> Get(m, m.order[i]) == Some(r[i])
  {
    seq(|m.order|, i requires 0 <= i < |m.order| => m.entries[m.order[i]])
  }

  /** `m.size`: a distinct order has as many elements as there are keys. */
  lemma SizeIsKeyCount<K(!new), V>(m: LinkedMap<K, V>)
    ensures |m.order| == |m.entries.Keys|
  {
    DistinctCard(m.order);
    assert m.entries.Keys == set x | x in m.order;
  }

  lemma {:induction false} DistinctCard<K>(s: seq<K>)
    requires Distinct(s)
    ensures |set x | x in s| == |s|
  {
    if s != [] {
      DistinctTail(s);
      DistinctCard(s[1..]);
      assert (set x | x in s) == (set x | x in s[1..]) + {s[0]};
      assert s[0] !in s[1..];
    }
  }

  /** An element of a non-empty sequence is in all but its last element, or is that one. */
  lemma InInit<K>(s: seq<K>, x: K)
    requires s != []
    ensures x in s <==> x in s[..|s| - 1] || x == s[|s| - 1]
  {
    assert s == s[..|s| - 1] + [s[|s| - 1]];
  }

  /** A map whose order starts with the order of `a` and that has no key `a` lacks has exactly `a`'s order. */
  lemma SameKeysSameOrder<K(!new), V>(a: LinkedMap<K, V>, b: LinkedMap<K, V>)
    requires |a.order| <= |b.order| && b.order[..|a.order|] == a.order
    requires forall k :: k in b.entries ==> k in a.entries
    ensures b.order == a.order
  {
    forall k | k in a.entries
      ensures k in b.entries
    {
      assert k in b.order[..|a.order|];
    }
    assert a.entries.Keys == b.entries.Keys;
    SizeIsKeyCount(a);
    SizeIsKeyCount(b);
    assert b.order == b.order[..|a.order|];
  }
}
