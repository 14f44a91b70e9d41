/**
  Go slices as the containers use them: a backing array whose length is the
  slice's capacity, with the slice's length kept by the caller. This module
  models the builtins `append` and `copy`, the reallocation
  `append(make([]T, 0, n), s...)`, and the two shift helpers of utils.go.
*/
module Slices {
  import Ordered

  /** Capacity this model gives the new backing array when `append` outgrows a full one; only growth is relied on. */
  function GrownCapacity(cap: nat): nat {
    2 * cap + 1
  }

  /** `append(make([]T, 0, newCap), buf[:len]...)`: a fresh backing array of exactly `newCap` slots holding the same elements. */
  method Reallocate<T(0)>(buf: array<T>, len: nat, newCap: nat) returns (res: array<T>)
    requires len <= buf.Length && len <= newCap
    ensures fresh(res) && res.Length == newCap
    ensures res[..len] == buf[..len]
  {
    res := new T[newCap];
    var i := 0;
    while i < len
      invariant 0 <= i <= len
      invariant forall j :: 0 <= j < i ==> res[j] == buf[j]
    {
      res[i] := buf[i];
      i := i + 1;
    }
  }

  /** The builtin `append(buf[:len], v)`: in place while a slot is free, otherwise into a larger fresh array. */
  method Append<T(0)>(buf: array<T>, len: nat, v: T) returns (res: array<T>)
    requires len <= buf.Length
    modifies buf
    ensures len < buf.Length ==> res == buf
    ensures len == buf.Length ==> fresh(res) && unchanged(buf)
    ensures res.Length > len
    ensures res[..len + 1] == old(buf[..len]) + [v]
    ensures res[..len] == old(buf[..len]) && res[len] == v
  {
    if len < buf.Length {
      buf[len] := v;
      res := buf;
    } else {
      res := Reallocate(buf, len, GrownCapacity(buf.Length));
      res[len] := v;
    }
    assert res[..len + 1] == res[..len] + [res[len]];
  }

  /** The contents of a backing array after `copy(a[dst:dst+n], a[src:src+n])`: the source window read in full, then written over the destination window. */
  function Moved<T>(a: seq<T>, dst: nat, src: nat, n: nat): (r: seq<T>)
    requires dst + n <= |a| && src + n <= |a|
    ensures |r| == |a|
    ensures r[dst..dst + n] == a[src..src + n]
    ensures forall i :: 0 <= i < |a| && !(dst <= i < dst + n) ==> r[i] == a[i]
  {
    a[..dst] + a[src..src + n] + a[dst + n..]
  }

  /**
    The builtin `copy(a[dst:dst+n], a[src:src+n])` within one backing array:
    the result is as if the source window were read before anything is
    written, whichever way the two windows overlap.
  */
  method Copy<T>(a: array<T>, dst: nat, src: nat, n: nat)
    requires dst + n <= a.Length && src + n <= a.Length
    modifies a
    ensures a[..] == Moved(old(a[..]), dst, src, n)
  {
    ghost var o := a[..];
    if dst <= src {
      var k := 0;
      while k < n
        invariant 0 <= k <= n
        invariant forall i :: dst <= i < dst + k ==> a[i] == o[i - dst + src]
        invariant forall i :: 0 <= i < a.Length && !(dst <= i < dst + k) ==> a[i] == o[i]
      {
        a[dst + k] := a[src + k];
        k := k + 1;
      }
    } else {
      var k := n;
      while k > 0
        invariant 0 <= k <= n
        invariant forall i :: dst + k <= i < dst + n ==> a[i] == o[i - dst + src]
        invariant forall i :: 0 <= i < a.Length && !(dst + k <= i < dst + n) ==> a[i] == o[i]
      {
        k := k - 1;
        a[dst + k] := a[src + k];
      }
    }
    ghost var m := Moved(o, dst, src, n);
    forall i | 0 <= i < a.Length ensures a[i] == m[i] {
      if dst <= i < dst + n {
        assert m[dst..dst + n][i - dst] == o[src..src + n][i - dst];
      }
    }
  }

  /**
    After `append` has put `v` at index `len`, moving `a[pos:len]` one slot
    later and storing `v` at `pos` leaves `s` with `v` inserted at `pos` in
    the first `len + 1` slots.
  */
  lemma MovedInsert<T>(a: seq<T>, len: nat, pos: nat, v: T)
    requires pos <= len < |a| && a[len] == v
    ensures Moved(a, pos + 1, pos, len - pos)[pos := v][..len + 1] == Ordered.InsertAt(a[..len], pos, v)
  {
    var r := Moved(a, pos + 1, pos, len - pos)[pos := v];
    var e := Ordered.InsertAt(a[..len], pos, v);
    forall i | 0 <= i < len + 1 ensures r[i] == e[i] {
      if i > pos {
        assert r[i] == Moved(a, pos + 1, pos, len - pos)[pos + 1..len + 1][i - pos - 1];
        assert e[i] == a[..len][pos..][i - pos - 1];
      }
    }
  }

  /** Moving `a[pos+1:len]` one slot earlier leaves `a[..len]` without its element at `pos` in the first `len - 1` slots. */
  lemma MovedDelete<T>(a: seq<T>, len: nat, pos: nat)
    requires pos < len <= |a|
    ensures Moved(a, pos, pos + 1, len - pos - 1)[..len - 1] == Ordered.DeleteAt(a[..len], pos)
  {
    var r := Moved(a, pos, pos + 1, len - pos - 1);
    var e := Ordered.DeleteAt(a[..len], pos);
    forall i | 0 <= i < len - 1 ensures r[i] == e[i] {
      if i >= pos {
        assert r[i] == r[pos..len - 1][i - pos];
        assert e[i] == a[..len][pos + 1..][i - pos];
      }
    }
  }

  /**
    utils.go `insertAt`: append `v`, move `buf[pos:len]` one slot later with
    an overlapping copy, then store `v` at `pos`. The new length is `len + 1`.
  */
  method InsertAt<T(0)>(buf: array<T>, len: nat, pos: nat, v: T) returns (res: array<T>)
    requires pos <= len <= buf.Length
    modifies buf
    ensures len < buf.Length ==> res == buf
    ensures len == buf.Length ==> fresh(res)
    ensures res.Length > len
    ensures res[..len + 1] == Ordered.InsertAt(old(buf[..len]), pos, v)
  {
    res := Append(buf, len, v);
    ghost var a := res[..];
    Copy(res, pos + 1, pos, len - pos);
    res[pos] := v;
    MovedInsert(a, len, pos, v);
  }

  /**
    utils.go `deleteAt`: `append(buf[:pos], buf[pos+1:len]...)` moves the
    tail one slot earlier in the same backing array. The new length is `len - 1`.
  */
  method DeleteAt<T>(buf: array<T>, len: nat, pos: nat)
    requires pos < len <= buf.Length
    modifies buf
    ensures buf[..len - 1] == Ordered.DeleteAt(old(buf[..len]), pos)
  {
    ghost var a := buf[..];
    Copy(buf, pos, pos + 1, len - pos - 1);
    MovedDelete(a, len, pos);
  }
}
