/**
  nolocksortedmap.go: `NoLockSortedMap`, a map from keys to values kept as
  two index-aligned slices. The key slice is strictly ascending and is the
  only one searched; every shift applied to it is applied to the value slice
  at the same index.
*/
module SortedMap {
  import opened Ordered
  import Entries
  import Search
  import Slices

  class NoLockSortedMap<V(0)> {
    /** Backing array of the `keys` slice. */
    var keys: array<int>
    /** Length of the `keys` slice. */
    var nKeys: nat
    /** Backing array of the `values` slice; its length is the map's capacity. */
    var values: array<V>
    /** Length of the `values` slice. */
    var nValues: nat

    /** The map's invariant: two separate backing arrays, aligned lengths, strictly ascending keys. */
    ghost predicate Valid()
      reads this, keys, values
    {
      nKeys <= keys.Length && nValues <= values.Length
      && keys as object != values as object
      && Entries.WellFormed(Contents())
    }

    /** The two slices as a table. */
    ghost function Contents(): Entries.Table<V>
      reads this, keys, values
      requires nKeys <= keys.Length && nValues <= values.Length
    {
      Entries.Table(keys[..nKeys], values[..nValues])
    }

    /** `NewNoLockSortedMap(capacity)`: an empty map with `capacity` slots in each slice. */
    constructor (capacity: nat)
      ensures Valid() && fresh(keys) && fresh(values)
      ensures Contents() == Entries.Table([], []) && Capacity() == capacity
    {
      keys := new int[capacity];
      values := new V[capacity];
      nKeys, nValues := 0, 0;
    }

    /** The number of entries: the length of the value slice. */
    function Size(): (n: nat)
      reads this, keys, values
      requires Valid()
      ensures n == |Contents().keys| == |Contents().values|
    {
      nValues
    }

    /** The capacity of the value slice, never below the size. */
    function Capacity(): (c: nat)
      reads this, keys, values
      requires Valid()
      ensures c >= Size()
    {
      values.Length
    }

    /** When the value slice holds fewer than `newCap` slots, both slices move to fresh arrays of exactly `newCap` slots. */
    method ExtendCapacityTo(newCap: int)
      requires Valid()
      modifies this
      ensures Valid() && Contents() == old(Contents())
      ensures Capacity() == if old(Capacity()) < newCap then newCap else old(Capacity())
      ensures old(Capacity()) < newCap ==> fresh(keys) && fresh(values) && keys.Length == newCap
      ensures old(Capacity()) >= newCap ==> keys == old(keys) && values == old(values)
    {
      if values.Length < newCap {
        keys := Slices.Reallocate(keys, nKeys, newCap);
        values := Slices.Reallocate(values, nValues, newCap);
      }
    }

    /** Empties both slices and keeps their capacities. */
    method Clear()
      requires Valid()
      modifies this
      ensures Valid() && Contents() == Entries.Table([], [])
      ensures keys == old(keys) && values == old(values)
    {
      nKeys, nValues := 0, 0;
    }

    /**
      Adds the pair `(key, value)` if `key` is absent and returns the index
      where it now sits; returns -1 and changes nothing if `key` is present.
    */
    method Insert(key: int, value: V) returns (r: int)
      requires Valid()
      modifies this, keys, values
      ensures Valid()
      ensures Contents() == Entries.Insert(old(Contents()), key, value)
      ensures r == if key in old(Contents().keys) then -1 else LowerBound(old(Contents().keys), key)
      ensures Size() == old(Size()) + (if r == -1 then 0 else 1)
      ensures old(nKeys) < old(keys.Length) ==> keys == old(keys)
      ensures old(nValues) < old(values.Length) ==> values == old(values)
      ensures keys == old(keys) || fresh(keys)
      ensures values == old(values) || fresh(values)
    {
      ghost var t := Contents();
      var pos, present := Search.BinarySearch(keys, 0, nKeys, key);
      if present {
        Entries.InsertPlaces(t, key, value);
        r := -1;
      } else {
        InsertPair(pos, key, value);
        r := pos;
      }
    }

    /** The two `insertAt` calls of `Insert`: `key` and `value` go in at the search position of the new key. */
    method InsertPair(pos: nat, key: int, value: V)
      requires Valid()
      requires key !in Contents().keys && pos == LowerBound(Contents().keys, key)
      modifies this, keys, values
      ensures Valid()
      ensures Contents() == Entries.Insert(old(Contents()), key, value)
      ensures Size() == old(Size()) + 1
      ensures old(nKeys) < old(keys.Length) ==> keys == old(keys)
      ensures old(nValues) < old(values.Length) ==> values == old(values)
      ensures keys == old(keys) || fresh(keys)
      ensures values == old(values) || fresh(values)
    {
      ghost var t := Contents();
      ghost var u := Entries.Insert(t, key, value);
      Entries.InsertPlaces(t, key, value);
      assert u == Entries.Table(InsertAt(t.keys, pos, key), InsertAt(t.values, pos, value)) by {
        FoundIffPresent(t.keys, key);
      }
      keys := Slices.InsertAt(keys, nKeys, pos, key);
      nKeys := nKeys + 1;
      values := Slices.InsertAt(values, nValues, pos, value);
      nValues := nValues + 1;
      assert Contents() == u;
    }

    /**
      Removes `key` and its value if present and returns the index they had;
      returns -1 and changes nothing if `key` is absent.
    */
    method Delete(key: int) returns (r: int)
      requires Valid()
      modifies this, keys, values
      ensures Valid() && keys == old(keys) && values == old(values)
      ensures Contents() == Entries.Delete(old(Contents()), key)
      ensures r == if key in old(Contents().keys) then LowerBound(old(Contents().keys), key) else -1
    {
      ghost var t := Contents();
      var pos, present := Search.BinarySearch(keys, 0, nKeys, key);
      DeleteSortedCorrect(t.keys, key);
      if present {
        Slices.DeleteAt(keys, nKeys, pos);
        nKeys := nKeys - 1;
        Slices.DeleteAt(values, nValues, pos);
        nValues := nValues - 1;
        r := pos;
      } else {
        r := -1;
      }
    }

    /**
      Makes room for `|vs|` more entries, then inserts `(ks[i], vs[i])` for
      every index of `ks`, first to last; the source indexes `vs` by the
      indices of `ks`, so `vs` may not be shorter.
    */
    method InsertAll(ks: seq<int>, vs: seq<V>)
      requires Valid() && |ks| <= |vs|
      modifies this, keys, values
      ensures Valid()
      ensures Contents() == Entries.InsertAll(old(Contents()), ks, vs)
      ensures Capacity() == if old(Capacity()) < old(Size()) + |vs| then old(Size()) + |vs| else old(Capacity())
    {
      ExtendCapacityTo(nValues + |vs|);
      ghost var cap := values.Length;
      for i := 0 to |ks|
        invariant Valid()
        invariant Contents() == Entries.InsertAll(old(Contents()), ks[..i], vs)
        invariant nValues <= old(nValues) + i
        invariant values.Length == cap && cap >= old(nValues) + |vs|
        invariant keys == old(keys) || fresh(keys)
        invariant values == old(values) || fresh(values)
      {
        Entries.InsertAllStep(old(Contents()), ks, vs, i);
        var _ := Insert(ks[i], vs[i]);
      }
      assert ks[..|ks|] == ks;
    }

    /**
      Makes room for `|m|` more entries, then inserts every pair of `m` in
      whatever order the map is walked: keys already present keep their
      values whatever that order is.
    */
    method InsertAllByMap(m: map<int, V>)
      requires Valid()
      modifies this, keys, values
      ensures Valid()
      ensures Entries.AsMap(Contents()) == m + Entries.AsMap(old(Contents()))
      ensures Capacity() == if old(Capacity()) < old(Size()) + |m| then old(Size()) + |m| else old(Capacity())
    {
      ExtendCapacityTo(nValues + |m|);
      InsertEachOf(m);
    }

    /**
      The loop of `InsertAllByMap`, once the capacity is there: inserts every
      pair of `m` in whatever order the map is walked, without reallocating.
    */
    method InsertEachOf(m: map<int, V>)
      requires Valid() && Size() + |m| <= Capacity()
      modifies this, keys, values
      ensures Valid()
      ensures Entries.AsMap(Contents()) == m + Entries.AsMap(old(Contents()))
      ensures values == old(values)
      ensures keys == old(keys) || fresh(keys)
    {
      ghost var m0 := Entries.AsMap(Contents());
      var rem := m.Keys;
      while |rem| > 0
        invariant Valid() && rem <= m.Keys
        invariant Entries.AsMap(Contents()) == Restrict(m, m.Keys - rem) + m0
        invariant nValues + |rem| <= old(nValues) + |m|
        invariant values == old(values)
        invariant keys == old(keys) || fresh(keys)
        decreases |rem|
      {
        var k :| k in rem;
        InsertVisited(m, m.Keys - rem, m0, k);
        VisitOne(m.Keys, rem, k);
        rem := rem - {k};
      }
      RestrictAll(m, m.Keys - rem);
    }

    /**
      One iteration of `InsertAllByMap`: inserts the pair of `m` at `k`,
      which extends the visited part of `m` by `k` in the dictionary the map
      holds, the entries it held before still taking precedence.
    */
    method InsertVisited(m: map<int, V>, ghost done: set<int>, ghost m0: map<int, V>, k: int)
      requires Valid() && k in m
      requires Entries.AsMap(Contents()) == Restrict(m, done) + m0
      modifies this, keys, values
      ensures Valid()
      ensures Entries.AsMap(Contents()) == Restrict(m, done + {k}) + m0
      ensures Size() <= old(Size()) + 1
      ensures old(nValues) < old(values.Length) ==> values == old(values)
      ensures keys == old(keys) || fresh(keys)
      ensures values == old(values) || fresh(values)
    {
      ghost var t := Contents();
      var _ := Insert(k, m[k]);
      Entries.InsertCorrect(t, k, m[k]);
      InsertStep(m, done, m0, k);
    }

    /** Whether `key` is present. */
    method Contains(key: int) returns (b: bool)
      requires Valid()
      ensures b <==> key in Contents().keys
    {
      var _, found := Search.BinarySearch(keys, 0, nKeys, key);
      b := found;
    }

    /** The index of the first key above `key`: the number of keys `<= key`. */
    method GetIndexOfGreater(key: int) returns (r: nat)
      requires Valid()
      ensures r == UpperBound(Contents().keys, key)
      ensures forall i :: 0 <= i < |Contents().keys| ==> (i < r <==> Contents().keys[i] <= key)
    {
      var pos, present := Search.BinarySearch(keys, 0, nKeys, key);
      r := if present then pos + 1 else pos;
      UpperBoundFromLowerBound(Contents().keys, key);
      UpperBoundCounts(Contents().keys, key);
    }

    /** The index of the first key `>= key`: the number of keys below `key`. */
    method GetIndexOfGreaterOrEqual(key: int) returns (r: nat)
      requires Valid()
      ensures r == LowerBound(Contents().keys, key)
      ensures forall i :: 0 <= i < |Contents().keys| ==> (i < r <==> Contents().keys[i] < key)
    {
      var present;
      r, present := Search.BinarySearch(keys, 0, nKeys, key);
      LowerBoundCounts(Contents().keys, key);
    }

    /** The values of the keys above `key`, in key order: a suffix of the value slice. */
    method GetGreater(key: int) returns (r: seq<V>)
      requires Valid()
      ensures |r| == Size() - UpperBound(Contents().keys, key)
      ensures |r| <= Size() && r == Contents().values[Size() - |r|..]
      ensures forall i :: 0 <= i < Size() ==> (Size() - |r| <= i <==> Contents().keys[i] > key)
    {
      var pos := GetIndexOfGreater(key);
      r := values[pos..nValues];
    }

    /** The values of the keys `>= key`, in key order: a suffix of the value slice. */
    method GetGreaterOrEqual(key: int) returns (r: seq<V>)
      requires Valid()
      ensures |r| == Size() - LowerBound(Contents().keys, key)
      ensures |r| <= Size() && r == Contents().values[Size() - |r|..]
      ensures forall i :: 0 <= i < Size() ==> (Size() - |r| <= i <==> Contents().keys[i] >= key)
    {
      var pos := GetIndexOfGreaterOrEqual(key);
      r := values[pos..nValues];
    }

    /** The values of the keys below `key`, in key order: a prefix of the value slice. */
    method GetLess(key: int) returns (r: seq<V>)
      requires Valid()
      ensures |r| == LowerBound(Contents().keys, key)
      ensures |r| <= Size() && r == Contents().values[..|r|]
      ensures forall i :: 0 <= i < Size() ==> (i < |r| <==> Contents().keys[i] < key)
    {
      var pos := GetIndexOfGreaterOrEqual(key);
      r := values[..pos];
    }

    /** The values of the keys `<= key`, in key order: a prefix of the value slice. */
    method GetLessOrEqual(key: int) returns (r: seq<V>)
      requires Valid()
      ensures |r| == UpperBound(Contents().keys, key)
      ensures |r| <= Size() && r == Contents().values[..|r|]
      ensures forall i :: 0 <= i < Size() ==> (i < |r| <==> Contents().keys[i] <= key)
    {
      var pos := GetIndexOfGreater(key);
      r := values[..pos];
    }

    /**
      The values of the keys between `start` and `end`, both included, in key
      order; empty when `start > end` (see InclusiveRangeAsWritten for the
      source's panic).
    */
    method GetByInclusiveRange(start: int, end: int) returns (r: seq<V>)
      requires Valid()
      ensures var lo := LowerBound(Contents().keys, start);
        lo + |r| <= Size() && r == Contents().values[lo..lo + |r|]
        && forall i :: 0 <= i < Size() ==> (lo <= i < lo + |r| <==> start <= Contents().keys[i] <= end)
    {
      var startPos := GetIndexOfGreaterOrEqual(start);
      var endPos := GetIndexOfGreater(end);
      if startPos <= endPos {
        r := values[startPos..endPos];
      } else {
        r := [];
      }
    }
  }

  /** The pairs of `m` whose keys are in `d`. */
  function Restrict<V>(m: map<int, V>, d: set<int>): (r: map<int, V>)
    ensures r.Keys == m.Keys * d
    ensures forall k :: k in r ==> r[k] == m[k]
  {
    map k | k in m.Keys * d :: m[k]
  }

  /**
    One step of `InsertAllByMap`: inserting the pair of `m` at key `k`, which
    adds it only when `k` is new, extends the visited part of `m` by `k`,
    while the original entries still take precedence.
  */
  lemma InsertStep<V>(m: map<int, V>, d: set<int>, m0: map<int, V>, k: int)
    requires k in m
    ensures var a := Restrict(m, d) + m0;
      (if k in a then a else a[k := m[k]]) == Restrict(m, d + {k}) + m0
  {
    var a := Restrict(m, d) + m0;
    var b := Restrict(m, d + {k}) + m0;
    assert a.Keys + {k} == b.Keys;
  }

  /** Restricting `m` to a superset of its keys gives back `m`. */
  lemma RestrictAll<V>(m: map<int, V>, d: set<int>)
    requires m.Keys <= d
    ensures Restrict(m, d) == m
  {
    assert Restrict(m, d).Keys == m.Keys;
  }

  /** Visiting one more key `k` of the unvisited keys `rem` of `all` adds `k` to the visited ones and shrinks `rem` by one. */
  lemma VisitOne(all: set<int>, rem: set<int>, k: int)
    requires k in rem && rem <= all
    ensures (all - rem) + {k} == all - (rem - {k})
    ensures |rem - {k}| == |rem| - 1
  {
  }
}
