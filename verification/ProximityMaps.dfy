/** The bounded map that keeps the entries nearest to a pivot (src/bittorrent/proximity_map.h). */
module ProximityMaps {
  import opened NodeIds
  import opened Nearest

  /** `ProximityMap::insert`. */
  ghost function Inserted<K, V>(rank: K -> nat, max: nat, s: seq<Entry<K, V>>, e: Entry<K, V>)
    : seq<Entry<K, V>>
  {
    if max == 0 then s
    else if |s| < max then MapInsert(rank, s, e)
    else if rank(s[|s| - 1].key) < rank(e.key) then s
    else MapInsert(rank, s[..|s| - 1], e)
  }

  /** `ProximityMap::would_insert`. */
  ghost predicate WouldInsert<K, V>(rank: K -> nat, max: nat, s: seq<Entry<K, V>>, key: K) {
    max != 0 && (|s| < max || rank(key) < rank(s[|s| - 1].key))
  }

  /** The one input that breaks the map: an id it already holds, other than the farthest, offered
      while it is full.  The farthest entry is then erased and nothing is added. */
  ghost predicate Shrinks<K, V>(max: nat, s: seq<Entry<K, V>>, key: K) {
    0 < max <= |s| && key in Keys(s) && key != s[|s| - 1].key
  }

  /** The map holds the nearest of everything offered so far, and goes on doing so if and only if
      the next id does not fall in the shrinking case. */
  lemma InsertKeepsNearest<K(!new), V>(rank: K -> nat, max: nat, s: seq<Entry<K, V>>, e: Entry<K, V>,
                                       offered: set<K>)
    requires Distinguished(rank, s, e.key) && Sorted(rank, s) && IsNearest(rank, Keys(s), offered, max)
    ensures Sorted(rank, Inserted(rank, max, s, e)) && |Inserted(rank, max, s, e)| <= max
    ensures IsNearest(rank, Keys(Inserted(rank, max, s, e)), offered + {e.key}, max) <==>
            !Shrinks(max, s, e.key)
  {
    KeysCount(rank, s);
    if max == 0 {
    } else if |s| < max {
      MapInsertFacts(rank, s, e);
      RoomLeft(rank, max, Keys(s), offered, e.key);
    } else {
      LastIsFarthest(rank, s);
      if rank(s[|s| - 1].key) < rank(e.key) {
        FarOffer(rank, max, Keys(s), offered, e.key);
      } else {
        ReplaceLast(rank, max, s, e, offered);
      }
    }
  }

  lemma ReplaceLast<K(!new), V>(rank: K -> nat, max: nat, s: seq<Entry<K, V>>, e: Entry<K, V>,
                                offered: set<K>)
    requires Distinguished(rank, s, e.key) && Sorted(rank, s) && IsNearest(rank, Keys(s), offered, max)
    requires 0 < max == |s| == |Keys(s)| && rank(e.key) <= rank(s[|s| - 1].key)
    ensures var r := MapInsert(rank, s[..|s| - 1], e);
            && Sorted(rank, r) && |r| <= max
            && (IsNearest(rank, Keys(r), offered + {e.key}, max) <==> !Shrinks(max, s, e.key))
  {
    hide IsNearest;
    hide MapInsert;
    hide Keys;
    var t, last := s[..|s| - 1], s[|s| - 1].key;
    LastIsFarthest(rank, s);
    MapInsertFacts(rank, t, e);
    KeysSnoc(s);
    ReplaceKey(rank, max, Keys(s), Keys(t), offered, e.key, last);
  }

  lemma ReplaceKey<K(!new)>(rank: K -> nat, max: nat, kept: set<K>, rest: set<K>, offered: set<K>, key: K, last: K)
    requires IsNearest(rank, kept, offered, max) && 0 < max == |kept|
    requires kept == rest + {last} && forall k :: k in rest ==> rank(k) < rank(last)
    requires rank(key) <= rank(last) && (rank(key) == rank(last) ==> key == last)
    ensures IsNearest(rank, rest + {key}, offered + {key}, max) <==> (key in kept ==> key == last)
  {
    if key == last {
      assert offered + {key} == offered;
    } else if key in kept {
      assert rest + {key} == kept - {last};
      SubsetSize(kept, offered + {key});
    } else {
      Displace(rank, max, kept, offered, key, last);
      assert rest == kept - {last};
    }
  }

  lemma LastIsFarthest<K, V>(rank: K -> nat, s: seq<Entry<K, V>>)
    requires Sorted(rank, s) && s != []
    ensures forall k :: k in Keys(s) && k != s[|s| - 1].key ==> rank(k) < rank(s[|s| - 1].key)
    ensures forall k :: k in Keys(s[..|s| - 1]) ==> rank(k) < rank(s[|s| - 1].key)
  {
  }

  /** A fresh id is stored exactly when `would_insert` said so; otherwise the map is full and every
      entry is strictly nearer. */
  lemma WouldInsertMeaning<K, V>(rank: K -> nat, max: nat, s: seq<Entry<K, V>>, e: Entry<K, V>)
    requires Distinguished(rank, s, e.key) && Sorted(rank, s) && |s| <= max && e.key !in Keys(s)
    ensures WouldInsert(rank, max, s, e.key) <==> e.key in Keys(Inserted(rank, max, s, e))
    ensures !WouldInsert(rank, max, s, e.key) ==>
              |s| == max && forall k :: k in Keys(s) ==> rank(k) < rank(e.key)
  {
    if 0 < |s| == max {
      assert s[|s| - 1].key in Keys(s);
      LastIsFarthest(rank, s);
      MapInsertFacts(rank, s[..|s| - 1], e);
    } else {
      MapInsertFacts(rank, s, e);
    }
  }

  // ------------------------------------------------------------------------------------------
  // The class

  /** `rank` is the distance from `pivot`. */
  ghost predicate Measures(rank: Id -> nat, pivot: Id) {
    forall x {:trigger Distance(pivot, x)} :: rank(x) == Distance(pivot, x)
  }

  lemma MeasuresDistinguishes<V>(rank: Id -> nat, pivot: Id, s: seq<Entry<Id, V>>, key: Id)
    requires Measures(rank, pivot)
    ensures Distinguished(rank, s, key)
  {
    forall i | 0 <= i < |s| && rank(s[i].key) == rank(key) ensures s[i].key == key {
      assert rank(key) == Distance(pivot, key) && rank(s[i].key) == Distance(pivot, s[i].key);
      DistanceInjective(pivot, s[i].key, key);
    }
  }

  method Nearer(pivot: Id, a: Id, b: Id, ghost rank: Id -> nat) returns (r: bool)
    requires Measures(rank, pivot)
    ensures r <==> rank(a) < rank(b)
  {
    assert rank(a) == Distance(pivot, a) && rank(b) == Distance(pivot, b);
    r := CloserTo(pivot, a, b);
  }

  class ProximityMap<V> {
    const pivot: Id
    const maxSize: nat
    ghost const rank: Id -> nat
    var entries: seq<Entry<Id, V>>

    ghost predicate Valid()
      reads this
    {
      Measures(rank, pivot) && Sorted(rank, entries) && |entries| <= maxSize
    }

    constructor (pivot: Id, maxSize: nat)
      ensures Valid() && this.pivot == pivot && this.maxSize == maxSize
      ensures entries == []
      ensures IsNearest(rank, Keys(entries), {}, maxSize)
    {
      this.pivot, this.maxSize, entries := pivot, maxSize, [];
      this.rank := id => Distance(pivot, id);
    }

    method Insert(id: Id, value: V)
      requires Valid()
      modifies this
      ensures Valid()
      ensures entries == Inserted(rank, maxSize, old(entries), Entry(id, value))
    {
      hide Sorted;
      hide Keys;
      hide MapInsert;
      hide Measures;
      MeasuresDistinguishes(rank, pivot, entries, id);
      KeysCount(rank, entries);
      InsertKeepsNearest(rank, maxSize, entries, Entry(id, value), Keys(entries));
      hide IsNearest;
      if maxSize == 0 {
        return;
      }
      if |entries| < maxSize {
        ParentInsert(Entry(id, value));
        return;
      }
      var last := entries[|entries| - 1];
      var lastIsCloser := Nearer(pivot, last.key, id, rank);
      if lastIsCloser {
        return;
      }
      entries := entries[..|entries| - 1];
      ParentInsert(Entry(id, value));
    }

    /** The tree insertion of `std::map`, as a search for the insertion point. */
    method ParentInsert(e: Entry<Id, V>)
      requires Measures(rank, pivot)
      modifies this
      ensures entries == MapInsert(rank, old(entries), e)
    {
      var i := 0;
      var more := true;
      while i < |entries| && more
        invariant 0 <= i <= |entries| && entries == old(entries)
        invariant forall j :: 0 <= j < i ==> rank(entries[j].key) < rank(e.key)
        invariant !more ==> i < |entries| && rank(e.key) <= rank(entries[i].key)
        decreases more, |entries| - i
      {
        more := Nearer(pivot, entries[i].key, e.key, rank);
        if more {
          i := i + 1;
        }
      }
      InsertionPoint(rank, entries, e, i);
      if i < |entries| {
        var before := Nearer(pivot, e.key, entries[i].key, rank);
        if !before {
          return;
        }
      }
      entries := entries[..i] + [e] + entries[i..];
    }

    method WouldInsertId(id: Id) returns (r: bool)
      requires Valid()
      ensures r <==> WouldInsert(rank, maxSize, entries, id)
    {
      if maxSize == 0 {
        return false;
      }
      if |entries| < maxSize {
        return true;
      }
      r := Nearer(pivot, id, entries[|entries| - 1].key, rank);
    }
  }
}
