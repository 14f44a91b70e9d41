/**
  nolocksortedset.go: `NoLockSortedSet`, a set of keys kept as one strictly
  ascending slice. Every operation starts with a binary search; insertion and
  deletion shift the slice in place through utils.go's helpers, and the range
  queries return the prefix or suffix cut at the lower or upper bound.
*/
module SortedSet {
  import opened Ordered
  import Search
  import Slices

  class NoLockSortedSet {
    /** Backing array of the `values` slice; its length is the slice's capacity. */
    var values: array<int>
    /** Length of the `values` slice. */
    var size: nat

    /** The set's invariant: the slice fits its backing array and is strictly ascending. */
    ghost predicate Valid()
      reads this, values
    {
      size <= values.Length && StrictlyAscending(values[..size])
    }

    /** The elements of the set, in ascending order. */
    ghost function Elements(): seq<int>
      reads this, values
      requires size <= values.Length
    {
      values[..size]
    }

    /** `NewNoLockSortedSet(capacity)`: an empty set with exactly `capacity` slots. */
    constructor (capacity: nat)
      ensures Valid() && fresh(values)
      ensures Elements() == [] && Capacity() == capacity
    {
      values := new int[capacity];
      size := 0;
    }

    /** The number of elements. */
    function Size(): (n: nat)
      reads this, values
      requires Valid()
      ensures n == |Elements()|
    {
      size
    }

    /** The number of slots of the backing array, never below the size. */
    function Capacity(): (c: nat)
      reads this, values
      requires Valid()
      ensures c >= Size()
    {
      values.Length
    }

    /** Grows the capacity to exactly `newCap` when it is smaller; the elements are untouched either way. */
    method ExtendCapacityTo(newCap: int)
      requires Valid()
      modifies this
      ensures Valid() && Elements() == old(Elements())
      ensures Capacity() == if old(Capacity()) < newCap then newCap else old(Capacity())
      ensures old(Capacity()) < newCap ==> fresh(values)
      ensures old(Capacity()) >= newCap ==> values == old(values)
    {
      if values.Length < newCap {
        values := Slices.Reallocate(values, size, newCap);
      }
    }

    /** Empties the set and keeps its capacity. */
    method Clear()
      requires Valid()
      modifies this
      ensures Valid() && Elements() == [] && values == old(values)
    {
      size := 0;
    }

    /**
      Inserts `value` if absent and returns the index where it now sits;
      returns -1 and changes nothing if it is already present.
    */
    method Insert(value: int) returns (r: int)
      requires Valid()
      modifies this, values
      ensures Valid()
      ensures Elements() == InsertSorted(old(Elements()), value)
      ensures r == if value in old(Elements()) then -1 else LowerBound(old(Elements()), value)
      ensures r >= 0 ==> r < |Elements()| && Elements()[r] == value
      ensures |Elements()| == |old(Elements())| + (if r == -1 then 0 else 1)
      ensures value in Elements()
      ensures old(size) < old(values.Length) ==> values == old(values)
      ensures values == old(values) || fresh(values)
    {
      ghost var s := Elements();
      var pos, present := Search.BinarySearch(values, 0, size, value);
      InsertSortedCorrect(s, value);
      if present {
        r := -1;
      } else {
        values := Slices.InsertAt(values, size, pos, value);
        size := size + 1;
        r := pos;
      }
    }

    /**
      Deletes `value` if present and returns the index it had; returns -1 and
      changes nothing if it is absent.
    */
    method Delete(value: int) returns (r: int)
      requires Valid()
      modifies this, values
      ensures Valid() && values == old(values)
      ensures Elements() == DeleteSorted(old(Elements()), value)
      ensures r == if value in old(Elements()) then LowerBound(old(Elements()), value) else -1
      ensures r >= 0 ==> r < |old(Elements())| && old(Elements())[r] == value
      ensures |Elements()| == |old(Elements())| - (if r == -1 then 0 else 1)
      ensures value !in Elements()
    {
      ghost var s := Elements();
      var pos, present := Search.BinarySearch(values, 0, size, value);
      DeleteSortedCorrect(s, value);
      if present {
        Slices.DeleteAt(values, size, pos);
        size := size - 1;
        r := pos;
      } else {
        r := -1;
      }
    }

    /**
      Makes room for `|xs|` more elements, then inserts every element of `xs`
      in turn: the result is the union of the old set and `xs`.
    */
    method InsertAll(xs: seq<int>)
      requires Valid()
      modifies this, values
      ensures Valid()
      ensures Elements() == InsertAllSorted(old(Elements()), xs)
      ensures Capacity() == if old(Capacity()) < old(Size()) + |xs| then old(Size()) + |xs| else old(Capacity())
      ensures values == old(values) || fresh(values)
    {
      ExtendCapacityTo(size + |xs|);
      ghost var cap := values.Length;
      for i := 0 to |xs|
        invariant Valid()
        invariant Elements() == InsertAllSorted(old(Elements()), xs[..i])
        invariant size <= old(size) + i
        invariant values.Length == cap && cap >= old(size) + |xs|
        invariant values == old(values) || fresh(values)
      {
        var _ := Insert(xs[i]);
        assert xs[..i + 1][..i] == xs[..i];
      }
      assert xs[..|xs|] == xs;
    }

    /** Whether `value` is an element. */
    method Contains(value: int) returns (b: bool)
      requires Valid()
      ensures b <==> value in Elements()
    {
      var _, found := Search.BinarySearch(values, 0, size, value);
      b := found;
    }

    /** The index of the first element above `value`: the number of elements `<= value`. */
    method GetIndexOfGreater(value: int) returns (r: nat)
      requires Valid()
      ensures r == UpperBound(Elements(), value)
      ensures forall i :: 0 <= i < |Elements()| ==> (i < r <==> Elements()[i] <= value)
    {
      var pos, present := Search.BinarySearch(values, 0, size, value);
      r := if present then pos + 1 else pos;
      UpperBoundFromLowerBound(Elements(), value);
      UpperBoundCounts(Elements(), value);
    }

    /** The index of the first element `>= value`: the number of elements below `value`. */
    method GetIndexOfGreaterOrEqual(value: int) returns (r: nat)
      requires Valid()
      ensures r == LowerBound(Elements(), value)
      ensures forall i :: 0 <= i < |Elements()| ==> (i < r <==> Elements()[i] < value)
    {
      var present;
      r, present := Search.BinarySearch(values, 0, size, value);
      LowerBoundCounts(Elements(), value);
    }

    /** The elements above `value`, ascending: a suffix of the set. */
    method GetGreater(value: int) returns (r: seq<int>)
      requires Valid()
      ensures |r| == |Elements()| - UpperBound(Elements(), value)
      ensures |r| <= |Elements()| && r == Elements()[|Elements()| - |r|..]
      ensures forall y :: y in r <==> y in Elements() && y > value
    {
      var pos := GetIndexOfGreater(value);
      r := values[pos..size];
      SuffixMembers(Elements(), pos);
    }

    /** The elements `>= value`, ascending: a suffix of the set. */
    method GetGreaterOrEqual(value: int) returns (r: seq<int>)
      requires Valid()
      ensures |r| == |Elements()| - LowerBound(Elements(), value)
      ensures |r| <= |Elements()| && r == Elements()[|Elements()| - |r|..]
      ensures forall y :: y in r <==> y in Elements() && y >= value
    {
      var pos := GetIndexOfGreaterOrEqual(value);
      r := values[pos..size];
      SuffixMembers(Elements(), pos);
    }

    /** The elements below `value`, ascending: a prefix of the set. */
    method GetLess(value: int) returns (r: seq<int>)
      requires Valid()
      ensures |r| == LowerBound(Elements(), value)
      ensures |r| <= |Elements()| && r == Elements()[..|r|]
      ensures forall y :: y in r <==> y in Elements() && y < value
    {
      var pos := GetIndexOfGreaterOrEqual(value);
      r := values[..pos];
      PrefixMembers(Elements(), pos);
    }

    /** The elements `<= value`, ascending: a prefix of the set. */
    method GetLessOrEqual(value: int) returns (r: seq<int>)
      requires Valid()
      ensures |r| == UpperBound(Elements(), value)
      ensures |r| <= |Elements()| && r == Elements()[..|r|]
      ensures forall y :: y in r <==> y in Elements() && y <= value
    {
      var pos := GetIndexOfGreater(value);
      r := values[..pos];
      PrefixMembers(Elements(), pos);
    }

    /**
      The elements between `start` and `end`, both included, ascending; empty
      when `start > end` (see InclusiveRangeAsWritten for the source's panic).
    */
    method GetByInclusiveRange(start: int, end: int) returns (r: seq<int>)
      requires Valid()
      ensures r == InclusiveRange(Elements(), start, end)
      ensures StrictlyAscending(r)
      ensures forall y :: y in r <==> y in Elements() && start <= y <= end
    {
      var startPos := GetIndexOfGreaterOrEqual(start);
      var endPos := GetIndexOfGreater(end);
      ghost var s := Elements();
      InclusiveRangeExact(s, start, end);
      if startPos <= endPos {
        r := values[startPos..endPos];
        assert r == s[startPos..endPos];
      } else {
        r := [];
      }
    }
  }
}
