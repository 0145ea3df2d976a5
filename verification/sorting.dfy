/**
 * `Array.prototype.sort` with a numeric comparator, as the source uses it:
 * a stable sort by an integer key (a day number or a timestamp).
 */
module Sorting {
  import opened Seqs

  ghost predicate SortedBy<T>(s: seq<T>, key: T -> int)
  {
    forall i, j :: 0 <= i < j < |s| ==> key(s[i]) <= key(s[j])
  }

  ghost predicate StrictlySortedBy<T>(s: seq<T>, key: T -> int)
  {
    forall i, j :: 0 <= i < j < |s| ==> key(s[i]) < key(s[j])
  }

  /** Inserts `x` into sorted `s` after every element whose key is not greater than its own. */
  function Insert<T>(x: T, s: seq<T>, key: T -> int): (r: seq<T>)
    requires SortedBy(s, key)
    ensures |r| == |s| + 1
    ensures multiset(r) == multiset(s) + multiset{x}
    ensures SortedBy(r, key)
  {
    if s == [] || key(s[|s| - 1]) <= key(x) then s + [x]
    else
      var init, last := s[..|s| - 1], s[|s| - 1];
      assert s == init + [last];
      var ins := Insert(x, init, key);
      AppendAboveAll(ins, init, x, last, key);
      ins + [last]
  }

  /** A sorted `p` holding the elements of `q` and `x`, all keyed at most `key(last)`, stays sorted with `last` appended. */
  lemma AppendAboveAll<T>(p: seq<T>, q: seq<T>, x: T, last: T, key: T -> int)
    requires SortedBy(p, key) && multiset(p) == multiset(q) + multiset{x}
    requires forall k :: 0 <= k < |q| ==> key(q[k]) <= key(last)
    requires key(x) <= key(last)
    ensures SortedBy(p + [last], key)
  {
    forall k | 0 <= k < |p| ensures key(p[k]) <= key(last) {
      assert p[k] in multiset(p);
      if p[k] != x {
        assert p[k] in multiset(q);
        var k' :| 0 <= k' < |q| && q[k'] == p[k];
      }
    }
  }

  /** A sorted sequence without its last element is sorted and keyed at most as that element. */
  lemma SortedInit<T>(s: seq<T>, key: T -> int)
    requires SortedBy(s, key) && s != []
    ensures SortedBy(s[..|s| - 1], key)
    ensures |s| > 1 ==> key(s[|s| - 2]) <= key(s[|s| - 1])
  {
  }

  /** Inserting an element whose key is not below the last one's appends it. */
  lemma InsertAtEnd<T>(x: T, p: seq<T>, key: T -> int)
    requires SortedBy(p, key)
    requires p == [] || key(p[|p| - 1]) <= key(x)
    ensures Insert(x, p, key) == p + [x]
  {
  }

  /** Insertion sort: ascending by `key`, equal keys kept in input order (Grouping.SortByStable). */
  function SortBy<T>(s: seq<T>, key: T -> int): (r: seq<T>)
    ensures |r| == |s|
    ensures multiset(r) == multiset(s)
    ensures SortedBy(r, key)
  {
    if s == [] then []
    else
      assert s == s[..|s| - 1] + [s[|s| - 1]];
      Insert(s[|s| - 1], SortBy(s[..|s| - 1], key), key)
  }

  /** Sorting keeps every total: the same elements are summed in another order. */
  lemma {:induction false} SortByTotal<T>(s: seq<T>, key: T -> int, w: T -> real)
    ensures Total(SortBy(s, key), w) == Total(s, w)
    decreases |s|
  {
    if s != [] {
      var init, last := s[..|s| - 1], s[|s| - 1];
      SortByTotal(init, key, w);
      InsertTotal(last, SortBy(init, key), key, w);
    }
  }

  lemma {:induction false} InsertTotal<T>(x: T, s: seq<T>, key: T -> int, w: T -> real)
    requires SortedBy(s, key)
    ensures Total(Insert(x, s, key), w) == Total(s, w) + w(x)
    decreases |s|
  {
    if s == [] || key(s[|s| - 1]) <= key(x) {
      InsertAtEnd(x, s, key);
      TotalAppend(s, x, w);
    } else {
      var init, last := s[..|s| - 1], s[|s| - 1];
      InsertBelowLast(x, s, key);
      var ins := Insert(x, init, key);
      InsertTotal(x, init, key, w);
      TotalAppend(ins, last, w);
      assert Total(s, w) == Total(init, w) + w(last);
    }
  }

  /** A sequence that is already in order is left as it is. */
  lemma {:induction false} SortBySortedIdentity<T>(s: seq<T>, key: T -> int)
    requires SortedBy(s, key)
    ensures SortBy(s, key) == s
    decreases |s|
  {
    if s != [] {
      SortedInit(s, key);
      SortBySortedIdentity(s[..|s| - 1], key);
      SortedIdentityStep(s, key);
    }
  }

  /** A sorted sequence whose prefix sorts to itself sorts to itself: its last element stays last. */
  lemma SortedIdentityStep<T>(s: seq<T>, key: T -> int)
    requires s != [] && SortedBy(s, key)
    requires SortBy(s[..|s| - 1], key) == s[..|s| - 1]
    ensures SortBy(s, key) == s
  {
    var init, last := s[..|s| - 1], s[|s| - 1];
    SortedInit(s, key);
    InsertAtEnd(last, init, key);
    assert init + [last] == s;
  }

  /** With pairwise different keys, the sorted sequence is strictly ascending. */
  lemma {:induction false} SortByStrict<T>(s: seq<T>, key: T -> int)
    requires forall i, j :: 0 <= i < j < |s| ==> key(s[i]) != key(s[j])
    ensures StrictlySortedBy(SortBy(s, key), key)
    decreases |s|
  {
    if s != [] {
      var init, last := s[..|s| - 1], s[|s| - 1];
      SortByStrict(init, key);
      var r := SortBy(init, key);
      forall y | y in r ensures key(y) != key(last) {
        assert y in multiset(init);
        var k :| 0 <= k < |init| && init[k] == y;
      }
      InsertStrict(last, r, key);
    }
  }

  lemma {:induction false} InsertStrict<T>(x: T, s: seq<T>, key: T -> int)
    requires StrictlySortedBy(s, key)
    requires forall y :: y in s ==> key(y) != key(x)
    ensures StrictlySortedBy(Insert(x, s, key), key)
    decreases |s|
  {
    if s == [] || key(s[|s| - 1]) <= key(x) {
      InsertAtEnd(x, s, key);
      assert s == [] || key(s[|s| - 1]) < key(x) by {
        if s != [] {
          assert s[|s| - 1] in s;
        }
      }
    } else {
      var init, last := s[..|s| - 1], s[|s| - 1];
      assert SortedBy(s, key);
      assert SortedBy(init, key) && Insert(x, s, key) == Insert(x, init, key) + [last] by {
        InsertBelowLast(x, s, key);
      }
      var ins := Insert(x, init, key);
      assert StrictlySortedBy(ins, key) by {
        InsertStrict(x, init, key);
      }
      assert forall k :: 0 <= k < |ins| ==> key(ins[k]) < key(last) by {
        forall k | 0 <= k < |ins| ensures key(ins[k]) < key(last) {
          assert ins[k] in multiset(ins);
          if ins[k] != x {
            assert ins[k] in multiset(init);
            var j :| 0 <= j < |init| && init[j] == ins[k];
            assert s[j] == init[j];
          }
        }
      }
      StrictAppend(ins, last, key);
    }
  }

  /** A strictly ascending sequence stays strictly ascending with an element keyed above all of it appended. */
  lemma StrictAppend<T>(p: seq<T>, last: T, key: T -> int)
    requires StrictlySortedBy(p, key)
    requires forall k :: 0 <= k < |p| ==> key(p[k]) < key(last)
    ensures StrictlySortedBy(p + [last], key)
  {
  }

  /** The first element of the sorted sequence has the least key and the last one the greatest. */
  lemma SortByEnds<T>(s: seq<T>, key: T -> int)
    requires s != []
    ensures SortBy(s, key)[0] in s && SortBy(s, key)[|s| - 1] in s
    ensures forall x :: x in s ==> key(SortBy(s, key)[0]) <= key(x) <= key(SortBy(s, key)[|s| - 1])
  {
    var r := SortBy(s, key);
    assert r[0] in multiset(s) && r[|s| - 1] in multiset(s);
    forall x | x in s ensures key(r[0]) <= key(x) <= key(r[|s| - 1]) {
      assert x in multiset(r);
    }
  }

  /** Inserting below the last element of `p` inserts into the rest and keeps that element last. */
  lemma InsertBelowLast<T>(x: T, p: seq<T>, key: T -> int)
    requires SortedBy(p, key)
    requires p != [] && key(p[|p| - 1]) > key(x)
    ensures SortedBy(p[..|p| - 1], key)
    ensures Insert(x, p, key) == Insert(x, p[..|p| - 1], key) + [p[|p| - 1]]
  {
  }

  /** Splitting `p` at `j < |p|` is splitting its prefix without the last element, that element appended. */
  lemma SplitBeforeLast<T>(p: seq<T>, j: int, x: T)
    requires 0 <= j < |p|
    ensures var init := p[..|p| - 1];
      init[..j] + [x] + init[j..] + [p[|p| - 1]] == p[..j] + [x] + p[j..]
  {
    var init := p[..|p| - 1];
    assert init[..j] == p[..j];
    assert init[j..] + [p[|p| - 1]] == p[j..];
  }

  /** Every element of the sorted sequence comes from some index of the input. */
  lemma SortedFrom<T>(s: seq<T>, key: T -> int, i: int) returns (j: int)
    requires 0 <= i < |s|
    ensures 0 <= j < |s| && SortBy(s, key)[i] == s[j]
  {
    assert SortBy(s, key)[i] in multiset(s);
    j :| 0 <= j < |s| && s[j] == SortBy(s, key)[i];
  }

  /** Where the shifting loop stops, the insertion puts `x`. */
  lemma {:induction false} InsertAt<T>(x: T, p: seq<T>, j: int, key: T -> int)
    requires SortedBy(p, key)
    requires 0 <= j <= |p|
    requires j == 0 || key(p[j - 1]) <= key(x)
    requires forall k :: j <= k < |p| ==> key(p[k]) > key(x)
    ensures Insert(x, p, key) == p[..j] + [x] + p[j..]
    decreases |p|
  {
    if j < |p| {
      var init := p[..|p| - 1];
      InsertBelowLast(x, p, key);
      InsertAt(x, init, j, key);
      SplitBeforeLast(p, j, x);
    }
  }

  /** Moves `a[i]` left past the greater elements of the sorted prefix `a[..i]`. */
  method InsertInPlace<T>(a: array<T>, i: int, key: T -> int)
    requires 0 <= i < a.Length
    requires SortedBy(a[..i], key)
    modifies a
    ensures a[..i + 1] == Insert(old(a[i]), old(a[..i]), key)
    ensures forall k :: i < k < a.Length ==> a[k] == old(a[k])
  {
    var x := a[i];
    ghost var p := a[..i];
    var j := i;
    while j > 0 && key(a[j - 1]) > key(x)
      invariant 0 <= j <= i
      invariant forall k :: 0 <= k < j ==> a[k] == p[k]
      invariant forall k :: j < k <= i ==> a[k] == p[k - 1]
      invariant forall k :: j <= k < i ==> key(p[k]) > key(x)
      invariant forall k :: i < k < a.Length ==> a[k] == old(a[k])
    {
      a[j] := a[j - 1];
      j := j - 1;
    }
    a[j] := x;
    assert a[..i + 1] == p[..j] + [x] + p[j..] by {
      Shifted(a[..i + 1], p, j, x);
    }
    InsertAt(x, p, j, key);
  }

  /** A sequence that agrees with `p` below `j`, holds `x` at `j` and `p` shifted by one above it, is `p` with `x` inserted at `j`. */
  lemma Shifted<T>(b: seq<T>, p: seq<T>, j: int, x: T)
    requires |b| == |p| + 1 && 0 <= j <= |p|
    requires forall k :: 0 <= k < j ==> b[k] == p[k]
    requires b[j] == x
    requires forall k :: j < k < |b| ==> b[k] == p[k - 1]
    ensures b == p[..j] + [x] + p[j..]
  {
  }

  /**
   * `grp.sort((a, b) => key(a) - key(b))` on an array, in place: insertion
   * sort, one element at a time.
   */
  method SortInPlace<T>(a: array<T>, key: T -> int)
    modifies a
    ensures a[..] == SortBy(old(a[..]), key)
  {
    ghost var s := a[..];
    var i := 0;
    while i < a.Length
      invariant 0 <= i <= a.Length
      invariant a[..i] == SortBy(s[..i], key)
      invariant forall k :: i <= k < a.Length ==> a[k] == s[k]
    {
      InsertInPlace(a, i, key);
      SortByPrefixStep(s, i, key);
      i := i + 1;
    }
    assert s[..a.Length] == s;
  }

  /** Sorting one more element of a prefix inserts it into the sorted shorter prefix. */
  lemma SortByPrefixStep<T>(s: seq<T>, i: int, key: T -> int)
    requires 0 <= i < |s|
    ensures SortBy(s[..i + 1], key) == Insert(s[i], SortBy(s[..i], key), key)
  {
    assert s[..i + 1][..i] == s[..i];
  }
}
