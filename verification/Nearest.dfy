/** Sorted maps and the k nearest members of a set, for any injective ranking of the keys.

    `std::map` with a comparison is modelled as the sequence of its entries in iteration order.
    The rank of a key is the number that the comparison compares. */
module Nearest {
  import opened Options
  import opened Sequences

  datatype Entry<K, V> = Entry(key: K, value: V)

  ghost predicate Injective<K(!new)>(rank: K -> nat) {
    forall a, b :: rank(a) == rank(b) ==> a == b
  }

  /** The order in which the map iterates. */
  ghost predicate Sorted<K, V>(rank: K -> nat, s: seq<Entry<K, V>>) {
    forall i, j :: 0 <= i < j < |s| ==> rank(s[i].key) < rank(s[j].key)
  }

  ghost function Keys<K, V>(s: seq<Entry<K, V>>): set<K> {
    set e | e in s :: e.key
  }

  /** `std::map::insert`: keeps the order, and an entry already present wins. */
  ghost function MapInsert<K, V>(rank: K -> nat, s: seq<Entry<K, V>>, e: Entry<K, V>): seq<Entry<K, V>> {
    if s == [] then [e]
    else if rank(e.key) < rank(s[0].key) then [e] + s
    else if rank(e.key) == rank(s[0].key) then s
    else [s[0]] + MapInsert(rank, s[1..], e)
  }

  lemma KeysCons<K, V>(e: Entry<K, V>, s: seq<Entry<K, V>>)
    ensures Keys([e] + s) == {e.key} + Keys(s)
  {
  }

  lemma KeysSnoc<K, V>(s: seq<Entry<K, V>>)
    requires s != []
    ensures Keys(s) == Keys(s[..|s| - 1]) + {s[|s| - 1].key}
  {
  }

  lemma {:induction false} KeysCount<K, V>(rank: K -> nat, s: seq<Entry<K, V>>)
    requires Sorted(rank, s)
    ensures |Keys(s)| == |s|
  {
    if s == [] {
      assert Keys(s) == {};
    } else {
      KeysCount(rank, s[..|s| - 1]);
      KeysSnoc(s);
      assert forall x :: x in Keys(s[..|s| - 1]) ==> rank(x) < rank(s[|s| - 1].key);
    }
  }

  /** The rank tells the key apart from every key in the map. */
  ghost predicate Distinguished<K, V>(rank: K -> nat, s: seq<Entry<K, V>>, key: K) {
    forall i :: 0 <= i < |s| && rank(s[i].key) == rank(key) ==> s[i].key == key
  }

  /** Insertion keeps the order, adds exactly the new key, and changes nothing when it is there. */
  lemma {:induction false} MapInsertFacts<K, V>(rank: K -> nat, s: seq<Entry<K, V>>, e: Entry<K, V>)
    requires Distinguished(rank, s, e.key) && Sorted(rank, s)
    ensures Sorted(rank, MapInsert(rank, s, e))
    ensures Keys(MapInsert(rank, s, e)) == Keys(s) + {e.key}
    ensures |MapInsert(rank, s, e)| == if e.key in Keys(s) then |s| else |s| + 1
  {
    MapInsertKeys(rank, s, e);
    MapInsertSorted(rank, s, e);
    KeysCount(rank, s);
    KeysCount(rank, MapInsert(rank, s, e));
  }

  lemma {:induction false} MapInsertKeys<K, V>(rank: K -> nat, s: seq<Entry<K, V>>, e: Entry<K, V>)
    requires Distinguished(rank, s, e.key)
    ensures Keys(MapInsert(rank, s, e)) == Keys(s) + {e.key}
  {
    if s == [] || rank(e.key) < rank(s[0].key) {
      KeysCons(e, s);
      assert [e] + [] == [e];
    } else if rank(e.key) == rank(s[0].key) {
      assert s[0] in s;
    } else {
      MapInsertKeys(rank, s[1..], e);
      KeysCons(s[0], s[1..]);
      KeysCons(s[0], MapInsert(rank, s[1..], e));
      assert [s[0]] + s[1..] == s;
    }
  }

  /** Without assuming that ranks tell keys apart: insertion loses nothing, adds at most the new
      entry, and leaves some entry of the new rank. */
  lemma {:induction false} MapInsertMembers<K, V>(rank: K -> nat, s: seq<Entry<K, V>>, e: Entry<K, V>)
    ensures forall x :: x in s ==> x in MapInsert(rank, s, e)
    ensures forall x :: x in MapInsert(rank, s, e) ==> x in s || x == e
    ensures exists x :: x in MapInsert(rank, s, e) && rank(x.key) == rank(e.key)
  {
    var r := MapInsert(rank, s, e);
    if s == [] || rank(e.key) < rank(s[0].key) {
      assert r[0] in r;
    } else if rank(e.key) == rank(s[0].key) {
      assert s[0] in r;
    } else {
      MapInsertMembers(rank, s[1..], e);
      assert s == [s[0]] + s[1..];
      var x :| x in MapInsert(rank, s[1..], e) && rank(x.key) == rank(e.key);
      assert x in r;
    }
  }

  lemma {:induction false} MapInsertSorted<K, V>(rank: K -> nat, s: seq<Entry<K, V>>, e: Entry<K, V>)
    requires Sorted(rank, s)
    ensures Sorted(rank, MapInsert(rank, s, e))
  {
    if s != [] && rank(e.key) > rank(s[0].key) {
      MapInsertSorted(rank, s[1..], e);
      MapInsertMembers(rank, s[1..], e);
      SortedCons(rank, s[0], MapInsert(rank, s[1..], e));
    }
  }

  /** The search for the insertion point: everything before it is nearer, what follows is farther. */
  lemma {:induction false} InsertionPoint<K, V>(rank: K -> nat, s: seq<Entry<K, V>>, e: Entry<K, V>, i: nat)
    requires i <= |s|
    requires forall j :: 0 <= j < i ==> rank(s[j].key) < rank(e.key)
    requires i < |s| ==> rank(e.key) <= rank(s[i].key)
    ensures MapInsert(rank, s, e) ==
            if i < |s| && rank(s[i].key) == rank(e.key) then s else s[..i] + [e] + s[i..]
  {
    if i == 0 {
      assert s[..0] + [e] + s[0..] == [e] + s;
      assert s == [] ==> [e] + s == [e];
    } else {
      InsertionPoint(rank, s[1..], e, i - 1);
      assert s[i..] == s[1..][i - 1..];
      assert s[..i] == [s[0]] + s[1..][..i - 1];
      Assoc([s[0]], s[1..][..i - 1], [e]);
      Assoc([s[0]], s[1..][..i - 1] + [e], s[i..]);
      assert s == [s[0]] + s[1..];
    }
  }

  lemma SortedCons<K, V>(rank: K -> nat, e: Entry<K, V>, s: seq<Entry<K, V>>)
    requires Sorted(rank, s)
    requires forall x :: x in s ==> rank(e.key) < rank(x.key)
    ensures Sorted(rank, [e] + s)
  {
  }

  // ------------------------------------------------------------------------------------------
  // The k nearest members of a set

  ghost predicate IsNearest<K(!new)>(rank: K -> nat, kept: set<K>, all: set<K>, k: nat) {
    && kept <= all
    && |kept| == Min(k, |all|)
    && forall near, far :: near in kept && far in all && far !in kept ==> rank(near) < rank(far)
  }

  lemma SubsetSize<T>(a: set<T>, b: set<T>)
    requires a <= b
    ensures |a| <= |b|
    ensures |a| == |b| ==> a == b
  {
    assert b == a + (b - a);
  }

  /** Only one set qualifies, so the nearest members are determined by the whole. */
  lemma NearestUnique<K(!new)>(rank: K -> nat, a: set<K>, b: set<K>, all: set<K>, k: nat)
    requires IsNearest(rank, a, all, k) && IsNearest(rank, b, all, k)
    ensures a == b
  {
    if a <= b {
      SubsetSize(a, b);
    } else {
      var x :| x in a && x !in b;
      assert forall y :: y in b ==> rank(y) < rank(x);
      assert b <= a;
      SubsetSize(b, a);
    }
  }

  lemma RoomLeft<K(!new)>(rank: K -> nat, max: nat, kept: set<K>, offered: set<K>, key: K)
    requires IsNearest(rank, kept, offered, max) && |kept| < max
    ensures IsNearest(rank, kept + {key}, offered + {key}, max)
  {
    SubsetSize(kept, offered);
    assert kept == offered;
  }

  lemma FarOffer<K(!new)>(rank: K -> nat, max: nat, kept: set<K>, offered: set<K>, key: K)
    requires IsNearest(rank, kept, offered, max) && |kept| == max
    requires forall k :: k in kept ==> rank(k) < rank(key)
    ensures IsNearest(rank, kept, offered + {key}, max)
  {
    SubsetSize(kept, offered + {key});
  }

  lemma Displace<K(!new)>(rank: K -> nat, max: nat, kept: set<K>, offered: set<K>, key: K, last: K)
    requires IsNearest(rank, kept, offered, max) && |kept| == max
    requires last in kept && key !in kept && rank(key) < rank(last)
    requires forall k :: k in kept && k != last ==> rank(k) < rank(last)
    ensures IsNearest(rank, kept - {last} + {key}, offered + {key}, max)
  {
  }
}
