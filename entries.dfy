/**
  Pure model of the two index-aligned slices, `keys` and `values`, that the
  map containers keep. The keys alone decide search and order; every
  positional change to them is mirrored on the values.
*/
module Entries {
  import opened Ordered

  /** The contents of a map container: `keys[i]` is paired with `values[i]`. */
  datatype Table<V> = Table(keys: seq<int>, values: seq<V>)

  /** The invariant of a map container: aligned lengths and strictly ascending keys. */
  predicate WellFormed<V>(t: Table<V>) {
    |t.keys| == |t.values| && StrictlyAscending(t.keys)
  }

  /** The value-keyed container's extra invariant: each key is computed from its value. */
  predicate KeyedBy<V>(t: Table<V>, calcKey: V -> int) {
    |t.keys| == |t.values| && forall i :: 0 <= i < |t.keys| ==> t.keys[i] == calcKey(t.values[i])
  }

  /** The keys `calcKey` computes for a batch of values, in order. */
  function KeysOf<V>(calcKey: V -> int, vs: seq<V>): (ks: seq<int>)
    ensures |ks| == |vs|
    ensures forall i :: 0 <= i < |vs| ==> ks[i] == calcKey(vs[i])
  {
    seq(|vs|, i requires 0 <= i < |vs| => calcKey(vs[i]))
  }

  /** Map insertion: nothing if the key search finds `k`, else `k` and `v` inserted at the same search position. */
  function Insert<V>(t: Table<V>, k: int, v: V): (r: Table<V>)
    requires |t.keys| == |t.values|
    ensures |r.keys| == |r.values|
    ensures r.keys == InsertSorted(t.keys, k)
  {
    var p := LowerBound(t.keys, k);
    if p < |t.keys| && t.keys[p] == k then t
    else Table(InsertAt(t.keys, p, k), InsertAt(t.values, p, v))
  }

  /** Map deletion: the key found by the search and its value are removed at the same index. */
  function Delete<V>(t: Table<V>, k: int): (r: Table<V>)
    requires |t.keys| == |t.values|
    ensures |r.keys| == |r.values|
    ensures r.keys == DeleteSorted(t.keys, k)
  {
    var p := LowerBound(t.keys, k);
    if p < |t.keys| && t.keys[p] == k then Table(DeleteAt(t.keys, p), DeleteAt(t.values, p))
    else t
  }

  /** Insertion of the pairs `(ks[i], vs[i])` for every index of `ks`, first to last. */
  function InsertAll<V>(t: Table<V>, ks: seq<int>, vs: seq<V>): (r: Table<V>)
    requires |t.keys| == |t.values| && |ks| <= |vs|
    ensures |r.keys| == |r.values|
    decreases |ks|
  {
    if ks == [] then t else Insert(InsertAll(t, ks[..|ks| - 1], vs), ks[|ks| - 1], vs[|ks| - 1])
  }

  /** Deletion of every key of `ks`, first to last. */
  function DeleteAll<V>(t: Table<V>, ks: seq<int>): (r: Table<V>)
    requires |t.keys| == |t.values|
    ensures |r.keys| == |r.values|
    decreases |ks|
  {
    if ks == [] then t else Delete(DeleteAll(t, ks[..|ks| - 1]), ks[|ks| - 1])
  }

  /** Batch insertion of one more pair is one more map insertion. */
  lemma InsertAllStep<V>(t: Table<V>, ks: seq<int>, vs: seq<V>, i: nat)
    requires |t.keys| == |t.values| && i < |ks| <= |vs|
    ensures InsertAll(t, ks[..i + 1], vs) == Insert(InsertAll(t, ks[..i], vs), ks[i], vs[i])
  {
    assert ks[..i + 1][..i] == ks[..i];
  }

  /** Batch deletion of one more key is one more map deletion. */
  lemma DeleteAllStep<V>(t: Table<V>, ks: seq<int>, i: nat)
    requires |t.keys| == |t.values| && i < |ks|
    ensures DeleteAll(t, ks[..i + 1]) == Delete(DeleteAll(t, ks[..i]), ks[i])
  {
    assert ks[..i + 1][..i] == ks[..i];
  }

  /** The table read as a dictionary. */
  ghost function AsMap<V>(t: Table<V>): (m: map<int, V>)
    requires WellFormed(t)
  {
    map i | 0 <= i < |t.keys| :: t.keys[i] := t.values[i]
  }

  /** The dictionary holds exactly the table's keys, each with the value at its index. */
  lemma AsMapLookup<V>(t: Table<V>)
    requires WellFormed(t)
    ensures forall k :: k in AsMap(t) <==> k in t.keys
    ensures forall i :: 0 <= i < |t.keys| ==> AsMap(t)[t.keys[i]] == t.values[i]
  {
    forall k | k in t.keys ensures k in AsMap(t) {
      var i :| 0 <= i < |t.keys| && t.keys[i] == k;
    }
  }

  /** A well-formed table is determined by its dictionary: the key order cannot differ. */
  lemma AsMapDeterminesTable<V>(t: Table<V>, u: Table<V>)
    requires WellFormed(t) && WellFormed(u)
    requires AsMap(t) == AsMap(u)
    ensures t == u
  {
    AsMapLookup(t);
    AsMapLookup(u);
    AscendingUnique(t.keys, u.keys);
    forall i | 0 <= i < |t.values| ensures t.values[i] == u.values[i] {
      assert AsMap(t)[t.keys[i]] == t.values[i];
    }
  }

  /** Index-wise effect of positional insertion. */
  lemma InsertAtIndex<T>(s: seq<T>, p: nat, v: T)
    requires p <= |s|
    ensures |InsertAt(s, p, v)| == |s| + 1
    ensures forall i :: 0 <= i < |s| + 1 ==>
      InsertAt(s, p, v)[i] == (if i < p then s[i] else if i == p then v else s[i - 1])
  {
    var r := InsertAt(s, p, v);
    forall i | 0 <= i < |s| + 1 ensures r[i] == (if i < p then s[i] else if i == p then v else s[i - 1]) {
      if i > p {
        assert r[i] == s[p..][i - p - 1];
      }
    }
  }

  /** Index-wise effect of positional deletion. */
  lemma DeleteAtIndex<T>(s: seq<T>, p: nat)
    requires p < |s|
    ensures |DeleteAt(s, p)| == |s| - 1
    ensures forall i :: 0 <= i < |s| - 1 ==> DeleteAt(s, p)[i] == (if i < p then s[i] else s[i + 1])
  {
    var r := DeleteAt(s, p);
    forall i | 0 <= i < |s| - 1 ensures r[i] == (if i < p then s[i] else s[i + 1]) {
      if i >= p {
        assert r[i] == s[p + 1..][i - p];
      }
    }
  }

  /** A dictionary with the table's keys and, at each key, the value at that key's index is the table's dictionary. */
  lemma AsMapEquals<V>(t: Table<V>, m: map<int, V>)
    requires WellFormed(t)
    requires forall k :: k in m <==> k in t.keys
    requires forall i :: 0 <= i < |t.keys| ==> t.keys[i] in m && m[t.keys[i]] == t.values[i]
    ensures AsMap(t) == m
  {
    AsMapLookup(t);
    forall k | k in m ensures AsMap(t)[k] == m[k] {
      var i :| 0 <= i < |t.keys| && t.keys[i] == k;
    }
  }

  /** Map insertion keeps the invariant, and a new key `k` lands with `v` at the search position. */
  lemma InsertPlaces<V>(t: Table<V>, k: int, v: V)
    requires WellFormed(t)
    ensures WellFormed(Insert(t, k, v))
    ensures k in t.keys ==> Insert(t, k, v) == t
    ensures k !in t.keys ==> var p := LowerBound(t.keys, k);
              Insert(t, k, v).keys[p] == k && Insert(t, k, v).values[p] == v
  {
    InsertSortedCorrect(t.keys, k);
    FoundIffPresent(t.keys, k);
    if k !in t.keys {
      var p := LowerBound(t.keys, k);
      InsertAtIndex(t.keys, p, k);
      InsertAtIndex(t.values, p, v);
    }
  }

  /**
    Map insertion keeps the invariant, leaves an existing key's value alone,
    and adds exactly the pair `(k, v)` when `k` is new.
  */
  lemma InsertCorrect<V>(t: Table<V>, k: int, v: V)
    requires WellFormed(t)
    ensures WellFormed(Insert(t, k, v))
    ensures AsMap(Insert(t, k, v)) == if k in AsMap(t) then AsMap(t) else AsMap(t)[k := v]
  {
    InsertPlaces(t, k, v);
    AsMapLookup(t);
    if k !in t.keys {
      var r := Insert(t, k, v);
      var p := LowerBound(t.keys, k);
      FoundIffPresent(t.keys, k);
      InsertAtIndex(t.keys, p, k);
      InsertAtIndex(t.values, p, v);
      var want := AsMap(t)[k := v];
      forall x ensures x in want <==> x in r.keys {
        InsertSortedCorrect(t.keys, k);
      }
      forall i | 0 <= i < |r.keys| ensures r.keys[i] in want && want[r.keys[i]] == r.values[i] {
        if i < p {
          assert r.keys[i] == t.keys[i] != k;
        } else if i > p {
          assert r.keys[i] == t.keys[i - 1] != k;
        }
      }
      AsMapEquals(r, want);
    }
  }

  /** Map deletion keeps the invariant and removes exactly the key `k` with its value. */
  lemma DeleteCorrect<V>(t: Table<V>, k: int)
    requires WellFormed(t)
    ensures WellFormed(Delete(t, k))
    ensures AsMap(Delete(t, k)) == AsMap(t) - {k}
  {
    DeleteSortedCorrect(t.keys, k);
    FoundIffPresent(t.keys, k);
    if k in t.keys {
      DeletePresent(t, k, LowerBound(t.keys, k));
    } else {
      AsMapLookup(t);
      assert AsMap(t) - {k} == AsMap(t);
    }
  }

  /** The present-key case of DeleteCorrect: the pair at the search position goes, all others stay. */
  lemma DeletePresent<V>(t: Table<V>, k: int, p: nat)
    requires WellFormed(t) && p == LowerBound(t.keys, k) && p < |t.keys| && t.keys[p] == k
    requires WellFormed(Table(DeleteAt(t.keys, p), DeleteAt(t.values, p)))
    ensures AsMap(Table(DeleteAt(t.keys, p), DeleteAt(t.values, p))) == AsMap(t) - {k}
  {
    var r := Table(DeleteAt(t.keys, p), DeleteAt(t.values, p));
    var want := AsMap(t) - {k};
    assert forall x :: x in want <==> x in r.keys by {
      AsMapLookup(t);
      DeleteSortedCorrect(t.keys, k);
      assert r.keys == DeleteSorted(t.keys, k);
    }
    assert forall i :: 0 <= i < |r.keys| ==> r.keys[i] in want && want[r.keys[i]] == r.values[i] by {
      AsMapLookup(t);
      DeleteAtIndex(t.keys, p);
      DeleteAtIndex(t.values, p);
      forall i | 0 <= i < |r.keys| ensures r.keys[i] in want && want[r.keys[i]] == r.values[i] {
        if i < p {
          assert t.keys[i] < t.keys[p];
        } else {
          assert t.keys[p] < t.keys[i + 1];
        }
      }
    }
    AsMapEquals(r, want);
  }

  /** Deleting a key that was just inserted restores the table. */
  lemma InsertDeleteInverse<V>(t: Table<V>, k: int, v: V)
    requires WellFormed(t) && k !in t.keys
    ensures Delete(Insert(t, k, v), k) == t
  {
    var p := LowerBound(t.keys, k);
    var r, w := InsertAt(t.keys, p, k), InsertAt(t.values, p, v);
    assert Insert(t, k, v) == Table(r, w) by {
      FoundIffPresent(t.keys, k);
    }
    assert LowerBound(r, k) == p && p < |r| && r[p] == k by {
      InsertAtElements(t.keys, p, k);
      assert forall i :: 0 <= i < p ==> r[i] == r[..p][i] == t.keys[i];
      LowerBoundUnique(r, k, p);
    }
    assert DeleteAt(r, p) == t.keys && DeleteAt(w, p) == t.values by {
      DeleteAtInsertAt(t.keys, p, k);
      DeleteAtInsertAt(t.values, p, v);
    }
  }

  /** The index of the first occurrence of `k` in `ks`. */
  function FirstIndex(ks: seq<int>, k: int): (i: nat)
    requires k in ks
    ensures i < |ks| && ks[i] == k
    ensures forall j :: 0 <= j < i ==> ks[j] != k
  {
    if ks[0] == k then 0 else 1 + FirstIndex(ks[1..], k)
  }

  /**
    Batch insertion keeps the invariant and yields the old keys together with
    the batch's keys; an old key keeps its value, and a new key gets the value
    paired with its first occurrence in the batch.
  */
  lemma {:induction false} InsertAllCorrect<V>(t: Table<V>, ks: seq<int>, vs: seq<V>)
    requires WellFormed(t) && |ks| <= |vs|
    ensures WellFormed(InsertAll(t, ks, vs))
    ensures forall k :: k in AsMap(InsertAll(t, ks, vs)) <==> k in AsMap(t) || k in ks
    ensures forall k :: k in AsMap(t) ==> AsMap(InsertAll(t, ks, vs))[k] == AsMap(t)[k]
    ensures forall k :: k in ks && k !in AsMap(t) ==> AsMap(InsertAll(t, ks, vs))[k] == vs[FirstIndex(ks, k)]
    decreases |ks|
  {
    if ks != [] {
      var n := |ks|;
      var init, last := ks[..n - 1], ks[n - 1];
      assert ks == init + [last];
      InsertAllCorrect(t, init, vs);
      var mid := InsertAll(t, init, vs);
      InsertCorrect(mid, last, vs[n - 1]);
      var r := InsertAll(t, ks, vs);
      assert r == Insert(mid, last, vs[n - 1]);
      var m0, mm, mr := AsMap(t), AsMap(mid), AsMap(r);
      assert mr == if last in mm then mm else mm[last := vs[n - 1]];
      forall k ensures k in mr <==> k in m0 || k in ks {
        assert k in ks <==> k in init || k == last;
      }
      forall k | k in m0 ensures mr[k] == m0[k] {
        assert k in mm && mm[k] == m0[k];
      }
      forall k | k in ks && k !in m0 ensures mr[k] == vs[FirstIndex(ks, k)] {
        FirstIndexOfPrefix(ks, k);
        if k in init {
          assert k in mm && mr[k] == mm[k] == vs[FirstIndex(init, k)];
        } else {
          assert k == last && k !in mm;
        }
      }
    }
  }

  /** The first occurrence of `k` in a non-empty `ks` lies in the prefix without the last element when `k` occurs there. */
  lemma FirstIndexOfPrefix(ks: seq<int>, k: int)
    requires k in ks
    ensures k in ks[..|ks| - 1] ==> FirstIndex(ks, k) == FirstIndex(ks[..|ks| - 1], k)
    ensures k !in ks[..|ks| - 1] ==> FirstIndex(ks, k) == |ks| - 1
  {
    var init := ks[..|ks| - 1];
    assert forall m :: 0 <= m < |init| ==> init[m] == ks[m];
    if k in init {
      var i := FirstIndex(init, k);
      assert ks[i] == k;
    }
  }

  /** Batch deletion keeps the invariant, removes exactly the batch's keys, and leaves the other pairs alone. */
  lemma {:induction false} DeleteAllCorrect<V>(t: Table<V>, ks: seq<int>)
    requires WellFormed(t)
    ensures WellFormed(DeleteAll(t, ks))
    ensures forall k :: k in AsMap(DeleteAll(t, ks)) <==> k in AsMap(t) && k !in ks
    ensures forall k :: k in AsMap(DeleteAll(t, ks)) ==> AsMap(DeleteAll(t, ks))[k] == AsMap(t)[k]
    decreases |ks|
  {
    if ks != [] {
      var n := |ks|;
      var init := ks[..n - 1];
      DeleteAllCorrect(t, init);
      var mid := DeleteAll(t, init);
      DeleteCorrect(mid, ks[n - 1]);
      assert DeleteAll(t, ks) == Delete(mid, ks[n - 1]);
      assert ks == init + [ks[n - 1]];
    }
  }

  /** Map insertion of `(calcKey(v), v)` keeps every key computed from its value. */
  lemma InsertKeyedBy<V>(t: Table<V>, calcKey: V -> int, v: V)
    requires KeyedBy(t, calcKey)
    ensures KeyedBy(Insert(t, calcKey(v), v), calcKey)
  {
    var p := LowerBound(t.keys, calcKey(v));
    if !(p < |t.keys| && t.keys[p] == calcKey(v)) {
      InsertAtIndex(t.keys, p, calcKey(v));
      InsertAtIndex(t.values, p, v);
    }
  }

  /** Map deletion keeps every key computed from its value. */
  lemma DeleteKeyedBy<V>(t: Table<V>, calcKey: V -> int, k: int)
    requires KeyedBy(t, calcKey)
    ensures KeyedBy(Delete(t, k), calcKey)
  {
    var p := LowerBound(t.keys, k);
    if p < |t.keys| && t.keys[p] == k {
      DeleteAtIndex(t.keys, p);
      DeleteAtIndex(t.values, p);
    }
  }
}
