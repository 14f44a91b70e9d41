/**
  nolocksortedmapcalc.go: `NoLockSortedMapCalc`, the sorted map whose key is
  not passed in but computed from each value by the function the map was
  built with. Besides the plain operations it has inserts and deletes that
  search only after a hint index, and batch operations that chain those
  hints through a batch given in ascending key order.
*/
module SortedMapCalc {
  import opened Ordered
  import Entries
  import Search
  import Slices

  class NoLockSortedMapCalc<V(0)> {
    /** Backing array of the `keys` slice. */
    var keys: array<int>
    /** Length of the `keys` slice. */
    var nKeys: nat
    /** Backing array of the `values` slice; its length is the map's capacity. */
    var values: array<V>
    /** Length of the `values` slice. */
    var nValues: nat
    /** The key of each value. */
    const calcKey: V -> int

    /** The sorted map's invariant, and every key is the one computed from its value. */
    ghost predicate Valid()
      reads this, keys, values
    {
      nKeys <= keys.Length && nValues <= values.Length
      && keys as object != values as object
      && Entries.WellFormed(Contents())
      && Entries.KeyedBy(Contents(), calcKey)
    }

    /** The two slices as a table. */
    ghost function Contents(): Entries.Table<V>
      reads this, keys, values
      requires nKeys <= keys.Length && nValues <= values.Length
    {
      Entries.Table(keys[..nKeys], values[..nValues])
    }

    /** `NewNoLockSortedMapCalc(capacity, calcKey)`: an empty map with `capacity` slots in each slice. */
    constructor (capacity: nat, calcKey: V -> int)
      ensures Valid() && fresh(keys) && fresh(values)
      ensures Contents() == Entries.Table([], []) && Capacity() == capacity
      ensures this.calcKey == calcKey
    {
      keys := new int[capacity];
      values := new V[capacity];
      nKeys, nValues := 0, 0;
      this.calcKey := calcKey;
    }

    /** The number of entries: the length of the value slice. */
    function Size(): (n: nat)
      reads this, keys, values
      requires Valid()
      ensures n == |Contents().keys| == |Contents().values|
    {
      nValues
    }

    /** The capacity of the value slice, never below the size. */
    function Capacity(): (c: nat)
      reads this, keys, values
      requires Valid()
      ensures c >= Size()
    {
      values.Length
    }

    /** When the value slice holds fewer than `newCap` slots, both slices move to fresh arrays of exactly `newCap` slots. */
    method ExtendCapacityTo(newCap: int)
      requires Valid()
      modifies this
      ensures Valid() && Contents() == old(Contents())
      ensures Capacity() == if old(Capacity()) < newCap then newCap else old(Capacity())
      ensures old(Capacity()) < newCap ==> fresh(keys) && fresh(values) && keys.Length == newCap
      ensures old(Capacity()) >= newCap ==> keys == old(keys) && values == old(values)
    {
      if values.Length < newCap {
        keys := Slices.Reallocate(keys, nKeys, newCap);
        values := Slices.Reallocate(values, nValues, newCap);
      }
    }

    /** Empties both slices and keeps their capacities. */
    method Clear()
      requires Valid()
      modifies this
      ensures Valid() && Contents() == Entries.Table([], [])
      ensures keys == old(keys) && values == old(values)
    {
      nKeys, nValues := 0, 0;
    }

    /**
      The two `insertAt` calls shared by `Insert` and `InsertWithAfterHint`:
      `key` and `value` go in at the same index `pos`, the search position of
      the new key.
    */
    method InsertPair(pos: nat, key: int, value: V)
      requires Valid()
      requires key == calcKey(value) && key !in Contents().keys && pos == LowerBound(Contents().keys, key)
      modifies this, keys, values
      ensures Valid()
      ensures Contents() == Entries.Insert(old(Contents()), key, value)
      ensures Size() == old(Size()) + 1
      ensures pos < Size() && Contents().keys[pos] == key
      ensures old(nKeys) < old(keys.Length) ==> keys == old(keys)
      ensures old(nValues) < old(values.Length) ==> values == old(values)
      ensures keys == old(keys) || fresh(keys)
      ensures values == old(values) || fresh(values)
    {
      ghost var t := Contents();
      ghost var u := Entries.Insert(t, key, value);
      Entries.InsertPlaces(t, key, value);
      Entries.InsertKeyedBy(t, calcKey, value);
      assert u == Entries.Table(InsertAt(t.keys, pos, key), InsertAt(t.values, pos, value)) by {
        FoundIffPresent(t.keys, key);
      }
      keys := Slices.InsertAt(keys, nKeys, pos, key);
      nKeys := nKeys + 1;
      values := Slices.InsertAt(values, nValues, pos, value);
      nValues := nValues + 1;
      assert Contents() == u;
    }

    /**
      The two `deleteAt` calls shared by `Delete` and `DeleteWithAfterHint`:
      the key at `pos`, which is `key`, and its value go out together.
    */
    method DeletePair(pos: nat, key: int)
      requires Valid()
      requires pos < Size() && Contents().keys[pos] == key
      modifies this, keys, values
      ensures Valid() && keys == old(keys) && values == old(values)
      ensures Contents() == Entries.Table(DeleteAt(old(Contents()).keys, pos), DeleteAt(old(Contents()).values, pos))
    {
      ghost var t := Contents();
      assert Entries.Delete(t, key) == Entries.Table(DeleteAt(t.keys, pos), DeleteAt(t.values, pos)) by {
        LowerBoundUnique(t.keys, key, pos);
      }
      DeleteSortedCorrect(t.keys, key);
      Entries.DeleteKeyedBy(t, calcKey, key);
      Slices.DeleteAt(keys, nKeys, pos);
      nKeys := nKeys - 1;
      Slices.DeleteAt(values, nValues, pos);
      nValues := nValues - 1;
    }

    /**
      Adds `value` under its computed key if that key is absent and returns
      the index where it now sits; returns -1 and changes nothing otherwise.
    */
    method Insert(value: V) returns (r: int)
      requires Valid()
      modifies this, keys, values
      ensures Valid()
      ensures Contents() == Entries.Insert(old(Contents()), calcKey(value), value)
      ensures r == if calcKey(value) in old(Contents().keys) then -1 else LowerBound(old(Contents().keys), calcKey(value))
      ensures Size() == old(Size()) + (if r == -1 then 0 else 1)
      ensures old(nKeys) < old(keys.Length) ==> keys == old(keys)
      ensures old(nValues) < old(values.Length) ==> values == old(values)
      ensures keys == old(keys) || fresh(keys)
      ensures values == old(values) || fresh(values)
    {
      var key := calcKey(value);
      ghost var t := Contents();
      var pos, present := Search.BinarySearch(keys, 0, nKeys, key);
      if present {
        Entries.InsertPlaces(t, key, value);
        r := -1;
      } else {
        InsertPair(pos, key, value);
        r := pos;
      }
    }

    /**
      `Insert` that searches only `keys[afterIndex:]`. The insertion lands in
      order only when the key just before the hint is below the new key,
      that is when the hint is not past the new key's search position
      (HintBeforeLowerBound); under that condition it is exactly `Insert`,
      and the index it returns is still the key's search position afterwards.
    */
    method InsertWithAfterHint(value: V, afterIndex: int) returns (r: int)
      requires Valid()
      requires 0 <= afterIndex <= Size()
      requires afterIndex > 0 ==> Contents().keys[afterIndex - 1] < calcKey(value)
      modifies this, keys, values
      ensures Valid()
      ensures Contents() == Entries.Insert(old(Contents()), calcKey(value), value)
      ensures r == if calcKey(value) in old(Contents().keys) then -1 else LowerBound(old(Contents().keys), calcKey(value))
      ensures r >= 0 ==> afterIndex <= r < Size() && Contents().keys[r] == calcKey(value)
      ensures Size() == old(Size()) + (if r == -1 then 0 else 1)
      ensures old(nKeys) < old(keys.Length) ==> keys == old(keys)
      ensures old(nValues) < old(values.Length) ==> values == old(values)
      ensures keys == old(keys) || fresh(keys)
      ensures values == old(values) || fresh(values)
    {
      var key := calcKey(value);
      ghost var t := Contents();
      var pos, present := Search.BinarySearch(keys, afterIndex, nKeys, key);
      SearchAfterHint(t.keys, afterIndex, key, pos, present);
      if present {
        Entries.InsertPlaces(t, key, value);
        r := -1;
      } else {
        var actualPos := afterIndex + pos;
        InsertPair(actualPos, key, value);
        r := actualPos;
      }
    }

    /**
      Removes the entry whose key is the one computed from `value`, whatever
      value is stored with it, and returns the index it had; returns -1 and
      changes nothing if that key is absent.
    */
    method Delete(value: V) returns (r: int)
      requires Valid()
      modifies this, keys, values
      ensures Valid() && keys == old(keys) && values == old(values)
      ensures Contents() == Entries.Delete(old(Contents()), calcKey(value))
      ensures r == if calcKey(value) in old(Contents().keys) then LowerBound(old(Contents().keys), calcKey(value)) else -1
    {
      var key := calcKey(value);
      ghost var t := Contents();
      var pos, present := Search.BinarySearch(keys, 0, nKeys, key);
      assert keys[0..nKeys] == t.keys;
      FoundIffPresent(t.keys, key);
      if present {
        DeletePair(pos, key);
        r := pos;
      } else {
        r := -1;
      }
    }

    /**
      `Delete` that searches only `keys[afterIndex:]`, which the source
      slices, so the hint must lie within the key slice: the new table and
      the returned index are those of DeleteAfter (see DeleteAfterCorrect).
    */
    method DeleteWithAfterHint(value: V, afterIndex: int) returns (r: int)
      requires Valid()
      requires 0 <= afterIndex <= Size()
      modifies this, keys, values
      ensures Valid() && keys == old(keys) && values == old(values)
      ensures Contents() == DeleteAfter(old(Contents()), afterIndex, calcKey(value)).0
      ensures r == DeleteAfter(old(Contents()), afterIndex, calcKey(value)).1
    {
      var key := calcKey(value);
      ghost var t := Contents();
      var pos, present := Search.BinarySearch(keys, afterIndex, nKeys, key);
      DeleteAfterAt(t, afterIndex, key, pos, present);
      if present {
        DeletePair(afterIndex + pos, key);
        r := afterIndex + pos;
      } else {
        r := -1;
      }
    }

    /** Makes room for `|vs|` more entries, then inserts every value of `vs` in turn. */
    method InsertAll(vs: seq<V>)
      requires Valid()
      modifies this, keys, values
      ensures Valid()
      ensures Contents() == Entries.InsertAll(old(Contents()), Entries.KeysOf(calcKey, vs), vs)
      ensures Capacity() == if old(Capacity()) < old(Size()) + |vs| then old(Size()) + |vs| else old(Capacity())
    {
      ghost var ks := Entries.KeysOf(calcKey, vs);
      ExtendCapacityTo(nValues + |vs|);
      ghost var cap := values.Length;
      for i := 0 to |vs|
        invariant Valid()
        invariant Contents() == Entries.InsertAll(old(Contents()), ks[..i], vs)
        invariant nValues <= old(nValues) + i
        invariant values.Length == cap && cap >= old(nValues) + |vs|
        invariant keys == old(keys) || fresh(keys)
        invariant values == old(values) || fresh(values)
      {
        Entries.InsertAllStep(old(Contents()), ks, vs, i);
        var _ := Insert(vs[i]);
      }
      assert ks[..|vs|] == ks;
    }

    /**
      Makes room for `|vs|` more entries, then inserts the values of `vs` in
      turn, each searching only after the index of the previous one. The
      batch must be in strictly ascending key order, and every value but the
      last must be new: a present key returns -1, and the next call would
      then slice the keys at -1. Under those conditions it does what
      `InsertAll` does.
    */
    method InsertAllOrdered(vs: seq<V>)
      requires Valid()
      requires StrictlyAscending(Entries.KeysOf(calcKey, vs))
      requires forall n :: 0 <= n < |vs| - 1 ==> calcKey(vs[n]) !in Contents().keys
      modifies this, keys, values
      ensures Valid()
      ensures Contents() == Entries.InsertAll(old(Contents()), Entries.KeysOf(calcKey, vs), vs)
      ensures Capacity() == if old(Capacity()) < old(Size()) + |vs| then old(Size()) + |vs| else old(Capacity())
    {
      ghost var ks := Entries.KeysOf(calcKey, vs);
      ghost var t0 := Contents();
      ExtendCapacityTo(nValues + |vs|);
      ghost var cap := values.Length;
      var hint := 0;
      for i := 0 to |vs|
        invariant Valid()
        invariant Contents() == Entries.InsertAll(t0, ks[..i], vs)
        invariant i < |vs| ==> 0 <= hint <= Size() && (hint > 0 ==> Contents().keys[hint - 1] < ks[i])
        invariant nValues <= old(nValues) + i
        invariant values.Length == cap && cap >= old(nValues) + |vs|
        invariant keys == old(keys) || fresh(keys)
        invariant values == old(values) || fresh(values)
      {
        Entries.InsertAllStep(t0, ks, vs, i);
        ghost var last := i == |vs| - 1;
        if !last {
          OrderedAbsentStep(t0, ks, vs, i);
        }
        hint := InsertOrderedStep(vs[i], hint, last, if last then 0 else ks[i + 1]);
      }
      assert ks[..|vs|] == ks;
    }

    /**
      One iteration of `InsertAllOrdered`: inserts `value` searching from a
      valid `hint`. Unless `value` is the last of the batch, its key is new
      and below `nextKey`, and the index it now sits at is a valid hint for
      `nextKey`.
    */
    method InsertOrderedStep(value: V, hint: int, ghost last: bool, ghost nextKey: int) returns (next: int)
      requires Valid()
      requires 0 <= hint <= Size() && (hint > 0 ==> Contents().keys[hint - 1] < calcKey(value))
      requires !last ==> calcKey(value) !in Contents().keys && calcKey(value) < nextKey
      modifies this, keys, values
      ensures Valid()
      ensures Contents() == Entries.Insert(old(Contents()), calcKey(value), value)
      ensures !last ==> 0 <= next <= Size() && (next > 0 ==> Contents().keys[next - 1] < nextKey)
      ensures Size() <= old(Size()) + 1
      ensures old(nValues) < old(values.Length) ==> values == old(values)
      ensures keys == old(keys) || fresh(keys)
      ensures values == old(values) || fresh(values)
    {
      next := InsertWithAfterHint(value, hint);
      if !last {
        assert Contents().keys[next] == calcKey(value);
      }
    }

    /** Makes room for `|vs|` more entries, as the source does, then deletes the key of every value of `vs` in turn. */
    method DeleteAll(vs: seq<V>)
      requires Valid()
      modifies this, keys, values
      ensures Valid()
      ensures Contents() == Entries.DeleteAll(old(Contents()), Entries.KeysOf(calcKey, vs))
      ensures Capacity() == if old(Capacity()) < old(Size()) + |vs| then old(Size()) + |vs| else old(Capacity())
    {
      ghost var ks := Entries.KeysOf(calcKey, vs);
      ExtendCapacityTo(nValues + |vs|);
      ghost var cap := values.Length;
      for i := 0 to |vs|
        invariant Valid()
        invariant Contents() == Entries.DeleteAll(old(Contents()), ks[..i])
        invariant values.Length == cap
        invariant keys == old(keys) || fresh(keys)
        invariant values == old(values) || fresh(values)
      {
        Entries.DeleteAllStep(old(Contents()), ks, i);
        var _ := Delete(vs[i]);
      }
      assert ks[..|vs|] == ks;
    }

    /**
      Makes room for `|vs|` more entries, then deletes the keys of `vs` in
      turn, each searching only from the index the previous one had. The
      batch must be in strictly ascending key order, and every value but the
      last must have its key present: an absent key returns -1, and the
      next call would then slice the keys at -1. Under those conditions it
      does what `DeleteAll` does.
    */
    method DeleteAllOrdered(vs: seq<V>)
      requires Valid()
      requires StrictlyAscending(Entries.KeysOf(calcKey, vs))
      requires forall n :: 0 <= n < |vs| - 1 ==> calcKey(vs[n]) in Contents().keys
      modifies this, keys, values
      ensures Valid()
      ensures Contents() == Entries.DeleteAll(old(Contents()), Entries.KeysOf(calcKey, vs))
      ensures Capacity() == if old(Capacity()) < old(Size()) + |vs| then old(Size()) + |vs| else old(Capacity())
    {
      ghost var ks := Entries.KeysOf(calcKey, vs);
      ghost var t0 := Contents();
      ExtendCapacityTo(nValues + |vs|);
      ghost var cap := values.Length;
      var hint := 0;
      for i := 0 to |vs|
        invariant Valid()
        invariant Contents() == Entries.DeleteAll(t0, ks[..i])
        invariant i < |vs| ==> 0 <= hint <= Size() && (hint > 0 ==> Contents().keys[hint - 1] < ks[i])
        invariant values.Length == cap
        invariant keys == old(keys) || fresh(keys)
        invariant values == old(values) || fresh(values)
      {
        Entries.DeleteAllStep(t0, ks, i);
        ghost var last := i == |vs| - 1;
        if !last {
          OrderedPresentStep(t0, ks, i);
        }
        hint := DeleteOrderedStep(vs[i], hint, last, if last then 0 else ks[i + 1]);
      }
      assert ks[..|vs|] == ks;
    }

    /**
      One iteration of `DeleteAllOrdered`: deletes the key of `value`
      searching from a valid `hint`. Unless `value` is the last of the batch,
      its key is present and below `nextKey`, and the index it had is a
      valid hint for `nextKey`.
    */
    method DeleteOrderedStep(value: V, hint: int, ghost last: bool, ghost nextKey: int) returns (next: int)
      requires Valid()
      requires 0 <= hint <= Size() && (hint > 0 ==> Contents().keys[hint - 1] < calcKey(value))
      requires !last ==> calcKey(value) in Contents().keys && calcKey(value) < nextKey
      modifies this, keys, values
      ensures Valid() && keys == old(keys) && values == old(values)
      ensures Contents() == Entries.Delete(old(Contents()), calcKey(value))
      ensures !last ==> 0 <= next <= Size() && (next > 0 ==> Contents().keys[next - 1] < nextKey)
    {
      ghost var t := Contents();
      if !last {
        DeleteAfterChains(t, hint, calcKey(value), nextKey);
      } else {
        DeleteAfterWithHint(t, hint, calcKey(value));
      }
      next := DeleteWithAfterHint(value, hint);
    }

    /** Whether `key` is present. */
    method Contains(key: int) returns (b: bool)
      requires Valid()
      ensures b <==> key in Contents().keys
    {
      var _, found := Search.BinarySearch(keys, 0, nKeys, key);
      b := found;
    }

    /** The index of the first key above `key`: the number of keys `<= key`. */
    method GetIndexOfGreater(key: int) returns (r: nat)
      requires Valid()
      ensures r == UpperBound(Contents().keys, key)
      ensures forall i :: 0 <= i < |Contents().keys| ==> (i < r <==> Contents().keys[i] <= key)
    {
      var pos, present := Search.BinarySearch(keys, 0, nKeys, key);
      r := if present then pos + 1 else pos;
      UpperBoundFromLowerBound(Contents().keys, key);
      UpperBoundCounts(Contents().keys, key);
    }

    /** The index of the first key `>= key`: the number of keys below `key`. */
    method GetIndexOfGreaterOrEqual(key: int) returns (r: nat)
      requires Valid()
      ensures r == LowerBound(Contents().keys, key)
      ensures forall i :: 0 <= i < |Contents().keys| ==> (i < r <==> Contents().keys[i] < key)
    {
      var present;
      r, present := Search.BinarySearch(keys, 0, nKeys, key);
      LowerBoundCounts(Contents().keys, key);
    }

    /** The values of the keys above `key`, in key order: a suffix of the value slice. */
    method GetGreater(key: int) returns (r: seq<V>)
      requires Valid()
      ensures |r| == Size() - UpperBound(Contents().keys, key)
      ensures |r| <= Size() && r == Contents().values[Size() - |r|..]
      ensures forall i :: 0 <= i < Size() ==> (Size() - |r| <= i <==> Contents().keys[i] > key)
    {
      var pos := GetIndexOfGreater(key);
      r := values[pos..nValues];
    }

    /** The values of the keys `>= key`, in key order: a suffix of the value slice. */
    method GetGreaterOrEqual(key: int) returns (r: seq<V>)
      requires Valid()
      ensures |r| == Size() - LowerBound(Contents().keys, key)
      ensures |r| <= Size() && r == Contents().values[Size() - |r|..]
      ensures forall i :: 0 <= i < Size() ==> (Size() - |r| <= i <==> Contents().keys[i] >= key)
    {
      var pos := GetIndexOfGreaterOrEqual(key);
      r := values[pos..nValues];
    }

    /** The values of the keys below `key`, in key order: a prefix of the value slice. */
    method GetLess(key: int) returns (r: seq<V>)
      requires Valid()
      ensures |r| == LowerBound(Contents().keys, key)
      ensures |r| <= Size() && r == Contents().values[..|r|]
      ensures forall i :: 0 <= i < Size() ==> (i < |r| <==> Contents().keys[i] < key)
    {
      var pos := GetIndexOfGreaterOrEqual(key);
      r := values[..pos];
    }

    /** The values of the keys `<= key`, in key order: a prefix of the value slice. */
    method GetLessOrEqual(key: int) returns (r: seq<V>)
      requires Valid()
      ensures |r| == UpperBound(Contents().keys, key)
      ensures |r| <= Size() && r == Contents().values[..|r|]
      ensures forall i :: 0 <= i < Size() ==> (i < |r| <==> Contents().keys[i] <= key)
    {
      var pos := GetIndexOfGreater(key);
      r := values[..pos];
    }

    /**
      The values of the keys between `start` and `end`, both included, in key
      order; empty when `start > end` (see InclusiveRangeAsWritten for the
      source's panic).
    */
    method GetByInclusiveRange(start: int, end: int) returns (r: seq<V>)
      requires Valid()
      ensures var lo := LowerBound(Contents().keys, start);
        lo + |r| <= Size() && r == Contents().values[lo..lo + |r|]
        && forall i :: 0 <= i < Size() ==> (lo <= i < lo + |r| <==> start <= Contents().keys[i] <= end)
    {
      var startPos := GetIndexOfGreaterOrEqual(start);
      var endPos := GetIndexOfGreater(end);
      if startPos <= endPos {
        r := values[startPos..endPos];
      } else {
        r := [];
      }
    }
  }


  /**
    `DeleteWithAfterHint` on a table: the key is looked up in the keys from
    index `h` on; when it is found there at index `p`, the entry at `p` is
    removed and `p` is returned, otherwise the table is kept and -1 is
    returned.
  */
  function DeleteAfter<V>(t: Entries.Table<V>, h: nat, k: int): (Entries.Table<V>, int)
    requires |t.keys| == |t.values| && h <= |t.keys|
  {
    var p := h + LowerBound(t.keys[h..], k);
    if p < |t.keys| && t.keys[p] == k then (Entries.Table(DeleteAt(t.keys, p), DeleteAt(t.values, p)), p)
    else (t, -1)
  }

  /**
    A search of the keys from a hint `h` that is not past the lower bound of
    `k` finds what a search of all the keys finds, shifted by `h`.
  */
  lemma SearchAfterHint(s: seq<int>, h: nat, k: int, q: nat, found: bool)
    requires StrictlyAscending(s) && h <= |s| && (h > 0 ==> s[h - 1] < k)
    requires q == LowerBound(s[h..], k)
    requires found <==> h + q < |s| && s[h + q] == k
    ensures h + q == LowerBound(s, k)
    ensures found <==> k in s
  {
    HintBeforeLowerBound(s, h, k);
    LowerBoundAfterHint(s, h, k);
    FoundIffPresent(s, k);
  }

  /** DeleteAfter in terms of a search of the keys from `h` on, which gave position `q` and `found`. */
  lemma DeleteAfterAt<V>(t: Entries.Table<V>, h: nat, k: int, q: nat, found: bool)
    requires |t.keys| == |t.values| && h <= |t.keys|
    requires q == LowerBound(t.keys[h..], k)
    requires found <==> h + q < |t.keys| && t.keys[h + q] == k
    ensures DeleteAfter(t, h, k).1 == if found then h + q else -1
    ensures found ==> DeleteAfter(t, h, k).0 == Entries.Table(DeleteAt(t.keys, h + q), DeleteAt(t.values, h + q))
    ensures !found ==> DeleteAfter(t, h, k).0 == t
  {
  }

  /**
    Deleting after a hint removes nothing but a key found at or after the
    hint, and removes it at its search position, as map deletion does.
  */
  lemma DeleteAfterCorrect<V>(t: Entries.Table<V>, h: nat, k: int)
    requires Entries.WellFormed(t) && h <= |t.keys|
    ensures DeleteAfter(t, h, k).1 == -1 <==> k !in t.keys[h..]
    ensures DeleteAfter(t, h, k).1 == -1 ==> DeleteAfter(t, h, k).0 == t
    ensures DeleteAfter(t, h, k).1 != -1 ==>
      DeleteAfter(t, h, k).0 == Entries.Delete(t, k) && DeleteAfter(t, h, k).1 == LowerBound(t.keys, k)
  {
    var s := t.keys[h..];
    var q := LowerBound(s, k);
    var p := h + q;
    var found := p < |t.keys| && t.keys[p] == k;
    DeleteAfterAt(t, h, k, q, found);
    assert found <==> k in s by {
      FoundIffPresent(s, k);
      assert q < |s| ==> s[q] == t.keys[p];
    }
    if found {
      assert p == LowerBound(t.keys, k) by {
        forall i | 0 <= i < p ensures t.keys[i] < k {
          if i >= h {
            assert t.keys[i] == s[i - h];
          }
        }
        LowerBoundUnique(t.keys, k, p);
      }
    }
  }

  /**
    When the key just before the hint is below the key, deleting after the
    hint is exactly map deletion, and it finds the key exactly when the key
    is present.
  */
  lemma DeleteAfterWithHint<V>(t: Entries.Table<V>, h: nat, k: int)
    requires Entries.WellFormed(t) && h <= |t.keys| && (h > 0 ==> t.keys[h - 1] < k)
    ensures DeleteAfter(t, h, k).0 == Entries.Delete(t, k)
    ensures DeleteAfter(t, h, k).1 == -1 <==> k !in t.keys
  {
    DeleteAfterCorrect(t, h, k);
    HintBeforeLowerBound(t.keys, h, k);
    LowerBoundAfterHint(t.keys, h, k);
    if DeleteAfter(t, h, k).1 == -1 {
      FoundIffPresent(t.keys, k);
    }
  }

  /**
    What one step of `DeleteAllOrdered` needs of DeleteAfter: with the key
    just before the hint below `k`, a present `k` is deleted as map deletion
    does, and the index it had is a valid hint for any key above `k`.
  */
  lemma DeleteAfterChains<V>(t: Entries.Table<V>, h: nat, k: int, y: int)
    requires Entries.WellFormed(t) && h <= |t.keys| && (h > 0 ==> t.keys[h - 1] < k)
    requires k in t.keys && k < y
    ensures DeleteAfter(t, h, k).0 == Entries.Delete(t, k)
    ensures var (u, r) := DeleteAfter(t, h, k);
      0 <= r <= |u.keys| && (r > 0 ==> u.keys[r - 1] < y)
  {
    DeleteAfterWithHint(t, h, k);
    DeleteAfterCorrect(t, h, k);
    var p := LowerBound(t.keys, k);
    FoundIffPresent(t.keys, k);
    if p > 0 {
      assert DeleteAt(t.keys, p)[p - 1] == t.keys[p - 1];
    }
  }


  /**
    The key `ks[i]` that `InsertAllOrdered` inserts next is still absent
    when it was absent before the batch: the keys inserted so far are
    smaller than it.
  */
  lemma OrderedAbsentStep<V>(t0: Entries.Table<V>, ks: seq<int>, vs: seq<V>, i: nat)
    requires Entries.WellFormed(t0) && StrictlyAscending(ks) && |ks| <= |vs|
    requires i < |ks| && ks[i] !in t0.keys
    ensures ks[i] !in Entries.InsertAll(t0, ks[..i], vs).keys
  {
    var u := Entries.InsertAll(t0, ks[..i], vs);
    assert ks[i] !in ks[..i] by {
      assert forall j :: 0 <= j < i ==> ks[..i][j] < ks[i];
    }
    Entries.AsMapLookup(t0);
    Entries.InsertAllCorrect(t0, ks[..i], vs);
    assert ks[i] !in Entries.AsMap(u);
    Entries.AsMapLookup(u);
  }

  /**
    The key `ks[i]` that `DeleteAllOrdered` deletes next is still present
    when it was present before the batch: the keys deleted so far are
    smaller than it.
  */
  lemma OrderedPresentStep<V>(t0: Entries.Table<V>, ks: seq<int>, i: nat)
    requires Entries.WellFormed(t0) && StrictlyAscending(ks)
    requires i < |ks| && ks[i] in t0.keys
    ensures ks[i] in Entries.DeleteAll(t0, ks[..i]).keys
  {
    var u := Entries.DeleteAll(t0, ks[..i]);
    assert ks[i] !in ks[..i] by {
      assert forall j :: 0 <= j < i ==> ks[..i][j] < ks[i];
    }
    Entries.AsMapLookup(t0);
    Entries.DeleteAllCorrect(t0, ks[..i]);
    assert ks[i] in Entries.AsMap(u);
    Entries.AsMapLookup(u);
  }
}
