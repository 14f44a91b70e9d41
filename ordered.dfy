/**
  Pure facts about the ascending sequences that every container of the
  package keeps: the two search boundaries (lower and upper bound), the
  positional insert and delete of utils.go, the set-level insert, delete
  and batch insert built from them, and the inclusive range query.
*/
module Ordered {

  /** Every element is smaller than every later one: sorted and duplicate-free. */
  predicate StrictlyAscending(s: seq<int>) {
    forall i, j :: 0 <= i < j < |s| ==> s[i] < s[j]
  }

  /** Non-decreasing order: all that a binary search needs of its input. */
  predicate Sorted(s: seq<int>) {
    forall i, j :: 0 <= i < j < |s| ==> s[i] <= s[j]
  }

  /** Length of the longest prefix of `s` below `x`: the position a binary search reports. */
  function LowerBound(s: seq<int>, x: int): (r: nat)
    ensures r <= |s|
    ensures forall i :: 0 <= i < r ==> s[i] < x
    ensures r < |s| ==> s[r] >= x
  {
    if s == [] || s[0] >= x then 0 else 1 + LowerBound(s[1..], x)
  }

  /** Length of the longest prefix of `s` not above `x`. */
  function UpperBound(s: seq<int>, x: int): (r: nat)
    ensures r <= |s|
    ensures forall i :: 0 <= i < r ==> s[i] <= x
    ensures r < |s| ==> s[r] > x
  {
    if s == [] || s[0] > x then 0 else 1 + UpperBound(s[1..], x)
  }

  /** Any split point with everything before it below `x` and an element `>= x` at it is the lower bound. */
  lemma {:induction false} LowerBoundUnique(s: seq<int>, x: int, p: nat)
    requires p <= |s|
    requires forall i :: 0 <= i < p ==> s[i] < x
    requires p < |s| ==> s[p] >= x
    ensures p == LowerBound(s, x)
  {
    if p > 0 {
      LowerBoundUnique(s[1..], x, p - 1);
    }
  }

  /** Any split point with everything before it `<= x` and an element `> x` at it is the upper bound. */
  lemma {:induction false} UpperBoundUnique(s: seq<int>, x: int, p: nat)
    requires p <= |s|
    requires forall i :: 0 <= i < p ==> s[i] <= x
    requires p < |s| ==> s[p] > x
    ensures p == UpperBound(s, x)
  {
    if p > 0 {
      UpperBoundUnique(s[1..], x, p - 1);
    }
  }

  /** On a sorted sequence the lower bound counts the elements below `x`: exactly the indices before it hold them. */
  lemma LowerBoundCounts(s: seq<int>, x: int)
    requires Sorted(s)
    ensures forall i :: 0 <= i < |s| ==> (i < LowerBound(s, x) <==> s[i] < x)
  {
    var p := LowerBound(s, x);
    forall i | p <= i < |s| ensures s[i] >= x {
      assert s[p] <= s[i];
    }
  }

  /** On a sorted sequence the upper bound counts the elements `<= x`. */
  lemma UpperBoundCounts(s: seq<int>, x: int)
    requires Sorted(s)
    ensures forall i :: 0 <= i < |s| ==> (i < UpperBound(s, x) <==> s[i] <= x)
  {
    var p := UpperBound(s, x);
    forall i | p <= i < |s| ensures s[i] > x {
      assert s[p] <= s[i];
    }
  }

  /** Without duplicates the two boundaries differ by one exactly when `x` is present, and coincide otherwise. */
  lemma UpperBoundFromLowerBound(s: seq<int>, x: int)
    requires StrictlyAscending(s)
    ensures UpperBound(s, x) == LowerBound(s, x) + (if x in s then 1 else 0)
  {
    var p := LowerBound(s, x);
    LowerBoundCounts(s, x);
    if p < |s| && s[p] == x {
      UpperBoundUnique(s, x, p + 1);
    } else {
      UpperBoundUnique(s, x, p);
    }
  }

  /** `s` with `v` placed at index `pos` and the tail moved one slot later. */
  function InsertAt<T>(s: seq<T>, pos: nat, v: T): seq<T>
    requires pos <= |s|
  {
    s[..pos] + [v] + s[pos..]
  }

  /** `s` with the element at index `pos` removed and the tail moved one slot earlier. */
  function DeleteAt<T>(s: seq<T>, pos: nat): seq<T>
    requires pos < |s|
  {
    s[..pos] + s[pos + 1..]
  }

  /** Positional insertion, element by element. */
  lemma InsertAtElements<T>(s: seq<T>, pos: nat, v: T)
    requires pos <= |s|
    ensures |InsertAt(s, pos, v)| == |s| + 1
    ensures InsertAt(s, pos, v)[pos] == v
    ensures InsertAt(s, pos, v)[..pos] == s[..pos]
    ensures InsertAt(s, pos, v)[pos + 1..] == s[pos..]
  {
    var r := InsertAt(s, pos, v);
    assert r == (s[..pos] + [v]) + s[pos..];
    assert |s[..pos] + [v]| == pos + 1;
  }

  /** Positional insertion adds `v` and keeps every other element. */
  lemma InsertAtMembers<T>(s: seq<T>, pos: nat, v: T)
    requires pos <= |s|
    ensures forall y :: y in InsertAt(s, pos, v) <==> y in s || y == v
  {
    assert s == s[..pos] + s[pos..];
  }

  /** Deleting what was just inserted at the same index gives back the original sequence. */
  lemma DeleteAtInsertAt<T>(s: seq<T>, pos: nat, v: T)
    requires pos <= |s|
    ensures DeleteAt(InsertAt(s, pos, v), pos) == s
  {
    var r := InsertAt(s, pos, v);
    InsertAtElements(s, pos, v);
    assert r[..pos] + r[pos + 1..] == s[..pos] + s[pos..];
    assert s[..pos] + s[pos..] == s;
  }

  /** Inserting an absent `v` at its lower bound keeps a strictly ascending sequence strictly ascending. */
  lemma InsertAtLowerBoundAscending(s: seq<int>, v: int)
    requires StrictlyAscending(s) && v !in s
    ensures StrictlyAscending(InsertAt(s, LowerBound(s, v), v))
  {
    var p := LowerBound(s, v);
    var r := InsertAt(s, p, v);
    LowerBoundCounts(s, v);
    assert forall i :: 0 <= i < |r| ==> r[i] == (if i < p then s[i] else if i == p then v else s[i - 1]);
    forall i, j | 0 <= i < j < |r| ensures r[i] < r[j] {
      if j == p {
        assert r[i] == s[i];
      } else if i == p {
        assert r[j] == s[j - 1] && s[j - 1] != v;
      }
    }
  }

  /** Deleting any index keeps a strictly ascending sequence strictly ascending. */
  lemma DeleteAtAscending(s: seq<int>, pos: nat)
    requires StrictlyAscending(s) && pos < |s|
    ensures StrictlyAscending(DeleteAt(s, pos))
  {
    var r := DeleteAt(s, pos);
    assert forall i :: 0 <= i < |r| ==> r[i] == (if i < pos then s[i] else s[i + 1]);
  }

  /** Set insertion as the containers perform it: nothing if the search finds `x`, else insertion at the search position. */
  function InsertSorted(s: seq<int>, x: int): seq<int> {
    var p := LowerBound(s, x);
    if p < |s| && s[p] == x then s else InsertAt(s, p, x)
  }

  /** Set deletion as the containers perform it: removal at the search position when it holds `x`. */
  function DeleteSorted(s: seq<int>, x: int): seq<int> {
    var p := LowerBound(s, x);
    if p < |s| && s[p] == x then DeleteAt(s, p) else s
  }

  /** The search finds `x` exactly when `x` is present. */
  lemma FoundIffPresent(s: seq<int>, x: int)
    requires Sorted(s)
    ensures (LowerBound(s, x) < |s| && s[LowerBound(s, x)] == x) <==> x in s
  {
    LowerBoundCounts(s, x);
  }

  /** Set insertion keeps the order, adds exactly `x`, and grows the length by one exactly when `x` was absent. */
  lemma InsertSortedCorrect(s: seq<int>, x: int)
    requires StrictlyAscending(s)
    ensures StrictlyAscending(InsertSorted(s, x))
    ensures forall y :: y in InsertSorted(s, x) <==> y in s || y == x
    ensures |InsertSorted(s, x)| == |s| + (if x in s then 0 else 1)
    ensures x !in s ==> InsertSorted(s, x)[LowerBound(s, x)] == x
  {
    FoundIffPresent(s, x);
    if x !in s {
      var p := LowerBound(s, x);
      InsertAtLowerBoundAscending(s, x);
      InsertAtElements(s, p, x);
      InsertAtMembers(s, p, x);
    }
  }

  /** Set deletion keeps the order, removes exactly `x`, and shrinks the length by one exactly when `x` was present. */
  lemma DeleteSortedCorrect(s: seq<int>, x: int)
    requires StrictlyAscending(s)
    ensures StrictlyAscending(DeleteSorted(s, x))
    ensures forall y :: y in DeleteSorted(s, x) <==> y in s && y != x
    ensures |DeleteSorted(s, x)| == |s| - (if x in s then 1 else 0)
  {
    FoundIffPresent(s, x);
    var p := LowerBound(s, x);
    if x in s {
      DeleteAtAscending(s, p);
      DeleteAtMembers(s, p);
    }
  }

  /** Deleting index `pos` of a strictly ascending sequence removes exactly the element there. */
  lemma DeleteAtMembers(s: seq<int>, pos: nat)
    requires StrictlyAscending(s) && pos < |s|
    ensures forall y :: y in DeleteAt(s, pos) <==> y in s && y != s[pos]
  {
    var r := DeleteAt(s, pos);
    assert forall i :: 0 <= i < |r| ==> r[i] == (if i < pos then s[i] else s[i + 1]);
    forall y | y in s && y != s[pos] ensures y in r {
      var i :| 0 <= i < |s| && s[i] == y;
      if i < pos { assert r[i] == y; } else { assert r[i - 1] == y; }
    }
    forall y | y in r ensures y in s && y != s[pos] {
      var i :| 0 <= i < |r| && r[i] == y;
      if i < pos { assert s[i] < s[pos]; } else { assert s[pos] < s[i + 1]; }
    }
  }

  /** Two strictly ascending sequences with the same elements are equal. */
  lemma {:induction false} AscendingUnique(a: seq<int>, b: seq<int>)
    requires StrictlyAscending(a) && StrictlyAscending(b)
    requires forall y :: y in a <==> y in b
    ensures a == b
  {
    assert a != [] ==> a[0] in a;
    assert b != [] ==> b[0] in b;
    if a != [] && b != [] {
      assert a[0] == b[0] by {
        assert b[0] in a && a[0] in b;
        var i :| 0 <= i < |a| && a[i] == b[0];
        var j :| 0 <= j < |b| && b[j] == a[0];
        assert a[0] <= a[i] && b[0] <= b[j];
      }
      forall y ensures y in a[1..] <==> y in b[1..] {
        if y in a[1..] {
          var i :| 1 <= i < |a| && a[i] == y;
          assert a[0] < y && y in b;
        }
        if y in b[1..] {
          var j :| 1 <= j < |b| && b[j] == y;
          assert b[0] < y && y in a;
        }
      }
      AscendingUnique(a[1..], b[1..]);
      assert a == [a[0]] + a[1..] && b == [b[0]] + b[1..];
    }
  }

  /** Removing an element that was just added restores the set; adding back a removed element restores it too. */
  lemma InsertDeleteInverse(s: seq<int>, x: int)
    requires StrictlyAscending(s)
    ensures x !in s ==> DeleteSorted(InsertSorted(s, x), x) == s
    ensures x in s ==> InsertSorted(DeleteSorted(s, x), x) == s
  {
    if x !in s {
      InsertSortedCorrect(s, x);
      DeleteSortedCorrect(InsertSorted(s, x), x);
      AscendingUnique(DeleteSorted(InsertSorted(s, x), x), s);
    } else {
      DeleteSortedCorrect(s, x);
      InsertSortedCorrect(DeleteSorted(s, x), x);
      AscendingUnique(InsertSorted(DeleteSorted(s, x), x), s);
    }
  }

  /** Set insertion of every element of `xs`, first to last. */
  function InsertAllSorted(s: seq<int>, xs: seq<int>): seq<int>
    decreases |xs|
  {
    if xs == [] then s else InsertSorted(InsertAllSorted(s, xs[..|xs| - 1]), xs[|xs| - 1])
  }

  /** Batch insertion keeps the order and yields the union of the old elements and the batch. */
  lemma {:induction false} InsertAllSortedCorrect(s: seq<int>, xs: seq<int>)
    requires StrictlyAscending(s)
    ensures StrictlyAscending(InsertAllSorted(s, xs))
    ensures forall y :: y in InsertAllSorted(s, xs) <==> y in s || y in xs
    ensures |InsertAllSorted(s, xs)| <= |s| + |xs|
    decreases |xs|
  {
    if xs != [] {
      var init := xs[..|xs| - 1];
      InsertAllSortedCorrect(s, init);
      InsertSortedCorrect(InsertAllSorted(s, init), xs[|xs| - 1]);
      assert xs == init + [xs[|xs| - 1]];
    }
  }

  /** The outcome of a Go call that may panic. */
  datatype Outcome<T> = Returned(value: T) | Panicked

  /**
    The inclusive range query exactly as the source computes it: the slice
    expression `values[startPos:endPos]` panics when `startPos > endPos`.
  */
  function InclusiveRangeAsWritten(s: seq<int>, start: int, end: int): Outcome<seq<int>> {
    var lo := LowerBound(s, start);
    var hi := UpperBound(s, end);
    if lo <= hi then Returned(s[lo..hi]) else Panicked
  }

  /** The inclusive range query with crossed bounds read as the empty range. */
  function InclusiveRange(s: seq<int>, start: int, end: int): seq<int> {
    var lo := LowerBound(s, start);
    var hi := UpperBound(s, end);
    if lo <= hi then s[lo..hi] else []
  }

  /** The range query returns, in ascending order, exactly the elements between the bounds, both included. */
  lemma InclusiveRangeExact(s: seq<int>, start: int, end: int)
    requires StrictlyAscending(s)
    ensures StrictlyAscending(InclusiveRange(s, start, end))
    ensures forall y :: y in InclusiveRange(s, start, end) <==> y in s && start <= y <= end
    ensures start > end ==> InclusiveRange(s, start, end) == []
  {
    var lo := LowerBound(s, start);
    var hi := UpperBound(s, end);
    LowerBoundCounts(s, start);
    UpperBoundCounts(s, end);
    if lo <= hi {
      var r := s[lo..hi];
      forall y ensures y in r <==> y in s && start <= y <= end {
        if y in s && start <= y <= end {
          var i :| 0 <= i < |s| && s[i] == y;
          assert r[i - lo] == y;
        }
      }
    }
  }

  /** The source's range query panics exactly when some element lies strictly between `end` and `start`. */
  lemma InclusiveRangeAsWrittenPanicsIff(s: seq<int>, start: int, end: int)
    requires StrictlyAscending(s)
    ensures InclusiveRangeAsWritten(s, start, end) == Panicked <==> exists y :: y in s && end < y < start
    ensures InclusiveRangeAsWritten(s, start, end) != Panicked ==>
              InclusiveRangeAsWritten(s, start, end) == Returned(InclusiveRange(s, start, end))
  {
    var lo := LowerBound(s, start);
    var hi := UpperBound(s, end);
    LowerBoundCounts(s, start);
    UpperBoundCounts(s, end);
    if lo > hi {
      assert s[hi] in s && end < s[hi] < start;
    }
  }

  /** A concrete crossed range that makes the source panic: the set {3} queried with start 4 and end 2. */
  lemma InclusiveRangeAsWrittenPanicExample()
    ensures InclusiveRangeAsWritten([3], 4, 2) == Panicked
    ensures InclusiveRange([3], 4, 2) == []
  {
    assert LowerBound([3], 4) == 1 by { LowerBoundUnique([3], 4, 1); }
    assert UpperBound([3], 2) == 0 by { UpperBoundUnique([3], 2, 0); }
  }

  /**
    When the hint `h` is not past the lower bound of `x`, searching the
    suffix from `h` finds `x` at the same absolute position as searching the
    whole sequence: the lower bound is `h` plus the suffix's lower bound.
  */
  lemma LowerBoundAfterHint(s: seq<int>, h: nat, x: int)
    requires h <= LowerBound(s, x)
    ensures LowerBound(s, x) == h + LowerBound(s[h..], x)
    ensures x in s <==> x in s[h..]
  {
    var q := LowerBound(s[h..], x);
    assert forall i :: h <= i < h + q ==> s[i] == s[h..][i - h];
    LowerBoundUnique(s, x, h + q);
    assert s == s[..h] + s[h..];
  }

  /**
    For a sorted sequence, an index `h` is not past the lower bound of `x`
    exactly when the element just before `h`, if there is one, is below `x`.
  */
  lemma HintBeforeLowerBound(s: seq<int>, h: nat, x: int)
    requires Sorted(s) && h <= |s|
    ensures h <= LowerBound(s, x) <==> (h > 0 ==> s[h - 1] < x)
  {
    if h > 0 && s[h - 1] < x {
      assert forall i :: 0 <= i < h ==> s[i] < x;
    }
  }

  /** The members of a suffix are the elements at the indices it covers. */
  lemma SuffixMembers(s: seq<int>, p: nat)
    requires p <= |s|
    ensures forall y :: y in s[p..] <==> exists i :: p <= i < |s| && s[i] == y
  {
    forall y | y in s[p..] ensures exists i :: p <= i < |s| && s[i] == y {
      var j :| 0 <= j < |s| - p && s[p..][j] == y;
      assert s[p + j] == y;
    }
  }

  /** The members of a prefix are the elements at the indices it covers. */
  lemma PrefixMembers(s: seq<int>, p: nat)
    requires p <= |s|
    ensures forall y :: y in s[..p] <==> exists i :: 0 <= i < p && s[i] == y
  {
    forall y | y in s[..p] ensures exists i :: 0 <= i < p && s[i] == y {
      var j :| 0 <= j < p && s[..p][j] == y;
    }
  }
}
