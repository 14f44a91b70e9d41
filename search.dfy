/**
  The binary search every container operation starts with: Go's
  `slices.BinarySearch` applied to a window `a[lo:hi]` of a backing array.
*/
module Search {
  import opened Ordered

  /**
    Returns the position, relative to `lo`, of the first element of
    `a[lo..hi]` that is not below `x`, and whether that element is `x`.
  */
  method BinarySearch(a: array<int>, lo: nat, hi: nat, x: int) returns (pos: nat, found: bool)
    requires lo <= hi <= a.Length
    requires Sorted(a[lo..hi])
    ensures pos <= hi - lo
    ensures pos == LowerBound(a[lo..hi], x)
    ensures found <==> pos < hi - lo && a[lo + pos] == x
    ensures found <==> x in a[lo..hi]
  {
    ghost var s := a[lo..hi];
    var l, h := lo, hi;
    while l < h
      invariant lo <= l <= h <= hi
      invariant forall i :: 0 <= i < l - lo ==> s[i] < x
      invariant forall i :: h - lo <= i < |s| ==> s[i] >= x
      decreases h - l
    {
      var m := l + (h - l) / 2;
      assert a[m] == s[m - lo];
      if a[m] < x {
        l := m + 1;
      } else {
        h := m;
      }
    }
    pos := l - lo;
    found := l < hi && a[l] == x;
    assert l < hi ==> a[l] == s[pos];
    LowerBoundUnique(s, x, pos);
    FoundIffPresent(s, x);
  }
}
