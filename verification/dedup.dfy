/**
 Order-preserving de-duplication, the shared meaning of pandas'
 `drop_duplicates` (keep the first row of each key) and of
 `list(dict.fromkeys(xs))` (keep the first occurrence of each element, in
 insertion order).
 */
module Dedup {

  /** No element occurs twice. */
  predicate Distinct<T(==)>(s: seq<T>) {
    forall i, j :: 0 <= i < j < |s| ==> s[i] != s[j]
  }

  /** Position `i` holds the first occurrence of its element. */
  predicate IsFirst<T(==)>(s: seq<T>, i: int) {
    0 <= i < |s| && forall j :: 0 <= j < i ==> s[j] != s[i]
  }

  /** A strictly increasing sequence of positions. */
  predicate Increasing(idx: seq<nat>) {
    forall a, b :: 0 <= a < b < |idx| ==> idx[a] < idx[b]
  }

  /** The position of the first occurrence of `x` in `s`. */
  function FirstIndex<T(==)>(s: seq<T>, x: T): (i: nat)
    requires x in s
    ensures i < |s| && s[i] == x && IsFirst(s, i)
  {
    if s[0] == x then 0
    else
      var j := FirstIndex(s[1..], x);
      j + 1
  }

  /** Two first occurrences of the same element are the same position. */
  lemma FirstIsUnique<T>(s: seq<T>, i: int, j: int)
    requires IsFirst(s, i) && IsFirst(s, j) && s[i] == s[j]
    ensures i == j
  {
  }

  /** Up to `n`, a prefix has the same first occurrences as the whole. */
  lemma PrefixFirst<T>(s: seq<T>, n: nat)
    requires n <= |s|
    ensures forall i :: 0 <= i < n ==> (IsFirst(s[..n], i) <==> IsFirst(s, i))
  {
  }

  /** The positions of first occurrences, in increasing order: exactly the
      rows `drop_duplicates` keeps. */
  function FirstOccurrences<T(==)>(s: seq<T>): (idx: seq<nat>)
    ensures |idx| <= |s|
    ensures Increasing(idx)
    ensures forall k :: 0 <= k < |idx| ==> IsFirst(s, idx[k])
    ensures forall i :: IsFirst(s, i) ==> i in idx
    decreases |s|
  {
    if s == [] then []
    else
      var n := |s| - 1;
      var p := FirstOccurrences(s[..n]);
      PrefixFirst(s, n);
      assert s[..n + 1] == s;
      if s[n] in s[..n] then p else p + [n]
  }

  /** The elements of `s` at the positions `idx`, in that order. */
  function Select<T>(s: seq<T>, idx: seq<nat>): seq<T>
    requires forall k :: 0 <= k < |idx| ==> idx[k] < |s|
  {
    seq(|idx|, k requires 0 <= k < |idx| => s[idx[k]])
  }

  /** `r` lists elements of `s` in the order of their first occurrence in `s`. */
  predicate OrderedBy<T(==)>(s: seq<T>, r: seq<T>) {
    && (forall k :: 0 <= k < |r| ==> r[k] in s)
    && (forall a, b :: 0 <= a < b < |r| ==> FirstIndex(s, r[a]) < FirstIndex(s, r[b]))
  }

  /** `list(dict.fromkeys(s))`: every element of `s` once, in order of first
      occurrence. */
  function FromKeys<T(==)>(s: seq<T>): (r: seq<T>)
    ensures |r| <= |s|
    ensures Distinct(r)
    ensures forall i :: 0 <= i < |s| ==> s[i] in r
    ensures OrderedBy(s, r)
  {
    var idx := FirstOccurrences(s);
    var r := Select(s, idx);
    assert forall k :: 0 <= k < |r| ==> FirstIndex(s, r[k]) == idx[k] by {
      forall k | 0 <= k < |r| ensures FirstIndex(s, r[k]) == idx[k] {
        FirstIsUnique(s, FirstIndex(s, r[k]), idx[k]);
      }
    }
    assert forall i :: 0 <= i < |s| ==> s[i] in r by {
      forall i | 0 <= i < |s| ensures s[i] in r {
        var f := FirstIndex(s, s[i]);
        var k :| 0 <= k < |idx| && idx[k] == f;
        assert r[k] == s[i];
      }
    }
    r
  }

  /** The head of a sequence ordered by first occurrence comes first. */
  lemma HeadComesFirst<T>(s: seq<T>, r: seq<T>, x: T)
    requires OrderedBy(s, r) && r != [] && x in r
    ensures FirstIndex(s, r[0]) <= FirstIndex(s, x)
  {
    var b :| 0 <= b < |r| && r[b] == x;
    if b > 0 {
      assert FirstIndex(s, r[0]) < FirstIndex(s, r[b]);
    }
  }

  /** Distinct sequences holding the same elements of `s`, both ordered by
      first occurrence in `s`, are equal. */
  lemma {:induction false} OrderedByUnique<T>(s: seq<T>, r1: seq<T>, r2: seq<T>)
    requires Distinct(r1) && Distinct(r2)
    requires forall x :: x in r1 <==> x in r2
    requires OrderedBy(s, r1) && OrderedBy(s, r2)
    ensures r1 == r2
    decreases |r1|
  {
    assert r2 != [] ==> r1 != [] by {
      if r2 != [] { assert r2[0] in r1; }
    }
    if r1 != [] {
      assert r2 != [] by { assert r1[0] in r2; }
      HeadComesFirst(s, r1, r2[0]);
      HeadComesFirst(s, r2, r1[0]);
      assert r1[0] == r2[0] by {
        assert s[FirstIndex(s, r1[0])] == r1[0];
        assert s[FirstIndex(s, r2[0])] == r2[0];
      }
      var t1, t2 := r1[1..], r2[1..];
      assert forall x :: x in t1 <==> x in r1 && x != r1[0] by {
        assert r1 == [r1[0]] + t1;
      }
      assert forall x :: x in t2 <==> x in r2 && x != r2[0] by {
        assert r2 == [r2[0]] + t2;
      }
      assert OrderedBy(s, t1) && OrderedBy(s, t2) by {
        assert forall a :: 0 <= a < |t1| ==> t1[a] == r1[a + 1];
        assert forall a :: 0 <= a < |t2| ==> t2[a] == r2[a + 1];
      }
      OrderedByUnique(s, t1, t2);
      assert r1 == [r1[0]] + t1 && r2 == [r2[0]] + t2;
    }
  }

  /** `FromKeys` is characterised by its contract: any distinct sequence with
      the elements of `s` in first-occurrence order is `FromKeys(s)`. */
  lemma FromKeysCharacterised<T>(s: seq<T>, r: seq<T>)
    requires Distinct(r)
    requires forall x :: x in r <==> x in s
    requires OrderedBy(s, r)
    ensures r == FromKeys(s)
  {
    OrderedByUnique(s, r, FromKeys(s));
  }

  /** A sequence without repeats is left as it is. */
  lemma FromKeysOfDistinct<T>(s: seq<T>)
    requires Distinct(s)
    ensures FromKeys(s) == s
  {
    assert forall a :: 0 <= a < |s| ==> FirstIndex(s, s[a]) == a by {
      forall a | 0 <= a < |s| ensures FirstIndex(s, s[a]) == a {
        var i := FirstIndex(s, s[a]);
        assert s[i] == s[a];
      }
    }
    FromKeysCharacterised(s, s);
  }

  /** De-duplicating twice is de-duplicating once. */
  lemma FromKeysIdempotent<T>(s: seq<T>)
    ensures FromKeys(FromKeys(s)) == FromKeys(s)
  {
    FromKeysOfDistinct(FromKeys(s));
  }

  /** Adding one element at the end appends it exactly when it is new. */
  lemma FromKeysSnoc<T>(s: seq<T>, n: nat)
    requires n < |s|
    ensures FromKeys(s[..n + 1]) ==
            if s[n] in FromKeys(s[..n]) then FromKeys(s[..n]) else FromKeys(s[..n]) + [s[n]]
  {
    var t := s[..n + 1];
    assert t[..n] == s[..n];
    assert t[n] == s[n];
  }

  /** The elements of `s` satisfying `keep`, in order. */
  function Filter<T>(keep: T -> bool, s: seq<T>): seq<T> {
    if s == [] then []
    else (if keep(s[0]) then [s[0]] else []) + Filter(keep, s[1..])
  }

  /** Filtering distributes over concatenation. */
  lemma {:induction false} FilterAppend<T>(keep: T -> bool, a: seq<T>, b: seq<T>)
    ensures Filter(keep, a + b) == Filter(keep, a) + Filter(keep, b)
    decreases |a|
  {
    if a == [] {
      assert a + b == b;
    } else {
      var x, t := a[0], a[1..];
      assert a == [x] + t;
      assert a + b == [x] + (t + b);
      FilterCons(keep, x, t + b);
      FilterCons(keep, x, t);
      FilterAppend(keep, t, b);
    }
  }

  /** Filtering `[x] + s` decides `x` and filters the rest. */
  lemma FilterCons<T>(keep: T -> bool, x: T, s: seq<T>)
    ensures Filter(keep, [x] + s) == (if keep(x) then [x] else []) + Filter(keep, s)
  {
    assert ([x] + s)[1..] == s;
  }

  /** How CPython builds `dict.fromkeys(s)`: one pass, inserting each element
      that is not yet a key; the keys come out in insertion order. */
  method DictFromKeys<T(==)>(s: seq<T>) returns (keys: seq<T>)
    ensures keys == FromKeys(s)
  {
    keys := [];
    var seen: set<T> := {};
    for i := 0 to |s|
      invariant keys == FromKeys(s[..i])
      invariant forall x :: x in seen <==> x in keys
    {
      FromKeysSnoc(s, i);
      if s[i] !in seen {
        keys := keys + [s[i]];
        seen := seen + {s[i]};
      }
    }
    assert s[..|s|] == s;
  }
}
