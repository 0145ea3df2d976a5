/**
 * Bucketing by key, as `(groups[key] ||= []).push(item)` over a
 * `Record<string, T[]>` does it: each bucket keeps its members in input
 * order, and `Object.entries` yields the buckets in the order their keys were
 * first seen.
 */
module Grouping {
  import opened Seqs
  import opened Sorting

  /** The members of bucket `k`: the items whose key is `k`, in input order. */
  function Members<T, K(==)>(items: seq<T>, key: T -> K, k: K): (ms: seq<T>)
    ensures |ms| <= |items|
    ensures forall x :: x in ms ==> x in items && key(x) == k
  {
    if items == [] then []
    else
      var init, last := items[..|items| - 1], items[|items| - 1];
      if key(last) == k then Members(init, key, k) + [last] else Members(init, key, k)
  }

  /** The distinct keys of `items`, in order of first occurrence. */
  function Keys<T, K(==, !new)>(items: seq<T>, key: T -> K): (ks: seq<K>)
    ensures Distinct(ks)
    ensures forall k :: k in ks <==> Members(items, key, k) != []
  {
    if items == [] then []
    else
      var init, last := items[..|items| - 1], items[|items| - 1];
      var ks := Keys(init, key);
      if key(last) in ks then ks else ks + [key(last)]
  }

  /** The buckets after `items`, as the grouping loop builds them: each item appended to the bucket of its key. */
  function GroupsMap<T, K(==)>(items: seq<T>, key: T -> K): map<K, seq<T>>
  {
    if items == [] then map[]
    else
      var g, last := GroupsMap(items[..|items| - 1], key), items[|items| - 1];
      g[key(last) := if key(last) in g then g[key(last)] + [last] else [last]]
  }

  /** The buckets hold exactly the keys seen, each with its members in input order. */
  lemma {:induction false} GroupsMapBuckets<T, K(!new)>(items: seq<T>, key: T -> K)
    ensures forall k :: k in GroupsMap(items, key) <==> k in Keys(items, key)
    ensures forall k :: k in GroupsMap(items, key) ==> GroupsMap(items, key)[k] == Members(items, key, k)
    decreases |items|
  {
    if items != [] {
      var init, last := items[..|items| - 1], items[|items| - 1];
      GroupsMapBuckets(init, key);
      forall k ensures k in Keys(items, key) <==> Members(init, key, k) != [] || k == key(last) {
        assert k in Keys(items, key) <==> Members(items, key, k) != [];
      }
    }
  }

  /**
   * The grouping loop: one pass over `items`, appending each item to the
   * bucket of its key and recording each key the first time it is seen.
   */
  method GroupBy<T, K(==, !new)>(items: seq<T>, key: T -> K) returns (order: seq<K>, groups: map<K, seq<T>>)
    ensures order == Keys(items, key)
    ensures forall k :: k in groups <==> k in order
    ensures forall k :: k in groups ==> groups[k] == Members(items, key, k)
  {
    order, groups := [], map[];
    var i := 0;
    while i < |items|
      invariant 0 <= i <= |items|
      invariant order == Keys(items[..i], key)
      invariant groups == GroupsMap(items[..i], key)
    {
      var x := items[i];
      KeysStep(items, key, i);
      GroupsMapStep(items, key, i);
      assert key(x) in groups <==> key(x) in order by {
        GroupsMapBuckets(items[..i], key);
      }
      if key(x) in groups {
        groups := groups[key(x) := groups[key(x)] + [x]];
      } else {
        groups := groups[key(x) := [x]];
        order := order + [key(x)];
      }
      i := i + 1;
    }
    assert items[..|items|] == items;
    GroupsMapBuckets(items, key);
  }

  /** The buckets of a prefix one item longer: that item appended to the bucket of its key. */
  lemma GroupsMapStep<T, K>(items: seq<T>, key: T -> K, i: int)
    requires 0 <= i < |items|
    ensures var g := GroupsMap(items[..i], key);
      GroupsMap(items[..i + 1], key)
      == g[key(items[i]) := if key(items[i]) in g then g[key(items[i])] + [items[i]] else [items[i]]]
  {
    assert items[..i + 1][..i] == items[..i];
  }

  /** The keys of a prefix one item longer: that item's key is appended when it is new. */
  lemma KeysStep<T, K(!new)>(items: seq<T>, key: T -> K, i: int)
    requires 0 <= i < |items|
    ensures Keys(items[..i + 1], key)
      == if key(items[i]) in Keys(items[..i], key) then Keys(items[..i], key) else Keys(items[..i], key) + [key(items[i])]
  {
    assert items[..i + 1][..i] == items[..i];
  }

  /** Sorting keeps the elements: the same items are in the sorted sequence. */
  lemma SortByMembers<T>(s: seq<T>, key: T -> int)
    ensures forall x :: x in SortBy(s, key) <==> x in s
  {
    forall x ensures x in SortBy(s, key) <==> x in s {
      assert x in SortBy(s, key) <==> x in multiset(SortBy(s, key));
      assert x in s <==> x in multiset(s);
    }
  }

  /** The bucket `k` after one more item: that item is appended when its key is `k`. */
  lemma MembersSnoc<T, K>(p: seq<T>, x: T, key: T -> K, k: K)
    ensures Members(p + [x], key, k) == if key(x) == k then Members(p, key, k) + [x] else Members(p, key, k)
  {
    assert (p + [x])[..|p|] == p;
  }

  /** Inserting `x` into a sorted sequence puts it last in its own bucket and leaves every other bucket as it is. */
  lemma {:induction false} InsertMembers<T>(x: T, p: seq<T>, key: T -> int, k: int)
    requires SortedBy(p, key)
    ensures Members(Insert(x, p, key), key, k) == if key(x) == k then Members(p, key, k) + [x] else Members(p, key, k)
    decreases |p|
  {
    if p == [] || key(p[|p| - 1]) <= key(x) {
      InsertAtEnd(x, p, key);
      MembersSnoc(p, x, key, k);
    } else {
      assert SortedBy(p[..|p| - 1], key) by {
        SortedInit(p, key);
      }
      InsertMembers(x, p[..|p| - 1], key, k);
      InsertMembersStep(x, p, key, k);
    }
  }

  /** InsertMembers for `x` inserted before the last element of `p`, given it for the rest of `p`. */
  lemma InsertMembersStep<T>(x: T, p: seq<T>, key: T -> int, k: int)
    requires SortedBy(p, key) && p != [] && key(p[|p| - 1]) > key(x)
    requires SortedBy(p[..|p| - 1], key)
    requires var init := p[..|p| - 1];
      Members(Insert(x, init, key), key, k) == if key(x) == k then Members(init, key, k) + [x] else Members(init, key, k)
    ensures Members(Insert(x, p, key), key, k) == if key(x) == k then Members(p, key, k) + [x] else Members(p, key, k)
  {
    var init, last := p[..|p| - 1], p[|p| - 1];
    var ins := Insert(x, init, key);
    var mi, mins := Members(init, key, k), Members(ins, key, k);
    assert Insert(x, p, key) == ins + [last] by {
      InsertBelowLast(x, p, key);
    }
    MembersInit(p, key, k);
    assert Members(ins + [last], key, k) == if key(last) == k then mins + [last] else mins by {
      MembersSnoc(ins, last, key, k);
    }
    if key(x) == k {
      assert key(last) != k && mins == mi + [x];
    } else {
      assert mins == mi;
    }
  }

  /** The sort is stable: the items of each key come out in their input order. */
  lemma {:induction false} SortByStable<T>(s: seq<T>, key: T -> int, k: int)
    ensures Members(SortBy(s, key), key, k) == Members(s, key, k)
    decreases |s|
  {
    if s != [] {
      SortByStable(s[..|s| - 1], key, k);
      SortByStableStep(s, key, k);
    }
  }

  /** SortByStable for `s`, given it for `s` without its last element. */
  lemma SortByStableStep<T>(s: seq<T>, key: T -> int, k: int)
    requires s != []
    requires Members(SortBy(s[..|s| - 1], key), key, k) == Members(s[..|s| - 1], key, k)
    ensures Members(SortBy(s, key), key, k) == Members(s, key, k)
  {
    var init, last := s[..|s| - 1], s[|s| - 1];
    var sorted := SortBy(init, key);
    assert SortBy(s, key) == Insert(last, sorted, key);
    assert Members(Insert(last, sorted, key), key, k)
      == if key(last) == k then Members(sorted, key, k) + [last] else Members(sorted, key, k) by {
      InsertMembers(last, sorted, key, k);
    }
    MembersInit(s, key, k);
  }

  /** The bucket `k` of a non-empty sequence: that of its prefix, with the last item appended when its key is `k`. */
  lemma MembersInit<T, K>(s: seq<T>, key: T -> K, k: K)
    requires s != []
    ensures Members(s, key, k)
      == if key(s[|s| - 1]) == k then Members(s[..|s| - 1], key, k) + [s[|s| - 1]] else Members(s[..|s| - 1], key, k)
  {
  }

  /** Every item is a member of its own bucket, and of no other: the buckets partition the input. */
  lemma {:induction false} MembersCount<T, K>(items: seq<T>, key: T -> K, k: K, x: T)
    ensures multiset(Members(items, key, k))[x] == if key(x) == k then multiset(items)[x] else 0
    decreases |items|
  {
    if items != [] {
      var init, last := items[..|items| - 1], items[|items| - 1];
      MembersCount(init, key, k, x);
      assert items == init + [last];
    }
  }

  /** The sum, over the keys `ks`, of the totals of their buckets. */
  ghost function BucketTotals<T, K>(ks: seq<K>, items: seq<T>, key: T -> K, w: T -> real): real
  {
    if ks == [] then 0.0 else Total(Members(items, key, ks[0]), w) + BucketTotals(ks[1..], items, key, w)
  }

  lemma {:induction false} BucketTotalsAppendKey<T, K>(ks: seq<K>, k: K, items: seq<T>, key: T -> K, w: T -> real)
    ensures BucketTotals(ks + [k], items, key, w) == BucketTotals(ks, items, key, w) + Total(Members(items, key, k), w)
    decreases |ks|
  {
    if ks != [] {
      assert (ks + [k])[1..] == ks[1..] + [k];
      BucketTotalsAppendKey(ks[1..], k, items, key, w);
    }
  }

  lemma {:induction false} BucketTotalsAppendItem<T, K>(ks: seq<K>, items: seq<T>, x: T, key: T -> K, w: T -> real)
    requires Distinct(ks)
    ensures BucketTotals(ks, items + [x], key, w)
         == BucketTotals(ks, items, key, w) + (if key(x) in ks then w(x) else 0.0)
    decreases |ks|
  {
    if ks != [] {
      assert (items + [x])[..|items|] == items;
      BucketTotalsAppendItem(ks[1..], items, x, key, w);
      if key(x) == ks[0] {
        TotalAppend(Members(items, key, ks[0]), x, w);
        assert key(x) !in ks[1..];
      }
    }
  }

  /**
   * Conservation: the bucket totals over all keys add up to the total of the
   * input, whatever the weight (a volume, or 1 for counting members).
   */
  lemma {:induction false} BucketsPartition<T, K(!new)>(items: seq<T>, key: T -> K, w: T -> real)
    ensures BucketTotals(Keys(items, key), items, key, w) == Total(items, w)
    decreases |items|
  {
    if items != [] {
      BucketsPartition(items[..|items| - 1], key, w);
      BucketsPartitionStep(items, key, w);
    }
  }

  /** One more item adds its weight to the bucket totals, in a bucket of its own key, old or new. */
  lemma BucketsPartitionStep<T, K(!new)>(items: seq<T>, key: T -> K, w: T -> real)
    requires items != []
    ensures var init := items[..|items| - 1];
      BucketTotals(Keys(items, key), items, key, w)
      == BucketTotals(Keys(init, key), init, key, w) + w(items[|items| - 1])
  {
    var init, last := items[..|items| - 1], items[|items| - 1];
    var ks := Keys(init, key);
    assert BucketTotals(ks, items, key, w)
        == BucketTotals(ks, init, key, w) + (if key(last) in ks then w(last) else 0.0) by {
      assert items == init + [last];
      BucketTotalsAppendItem(ks, init, last, key, w);
    }
    if key(last) !in ks {
      assert Members(items, key, key(last)) == [last] by {
        assert Members(init, key, key(last)) == [];
      }
      BucketTotalsAppendKey(ks, key(last), items, key, w);
      TotalAppend([], last, w);
    }
  }

  /** Bucketing commutes with a map that keeps the key. */
  lemma {:induction false} MembersMap<T, U, K>(items: seq<T>, f: T -> U, key: T -> K, key': U -> K, k: K)
    requires forall x :: key'(f(x)) == key(x)
    ensures Members(MapSeq(items, f), key', k) == MapSeq(Members(items, key, k), f)
    decreases |items|
  {
    if items != [] {
      var init := items[..|items| - 1];
      assert MapSeq(items, f)[..|items| - 1] == MapSeq(init, f);
      MembersMap(init, f, key, key', k);
    }
  }

  lemma {:induction false} KeysMap<T, U, K(!new)>(items: seq<T>, f: T -> U, key: T -> K, key': U -> K)
    requires forall x :: key'(f(x)) == key(x)
    ensures Keys(MapSeq(items, f), key') == Keys(items, key)
    decreases |items|
  {
    if items != [] {
      var init := items[..|items| - 1];
      assert MapSeq(items, f)[..|items| - 1] == MapSeq(init, f);
      KeysMap(init, f, key, key');
    }
  }

  /** Bucketing keeps order: the members of a bucket of a sorted input are sorted. */
  lemma {:induction false} MembersSorted<T, K>(items: seq<T>, key: T -> K, k: K, order: T -> int)
    requires SortedBy(items, order)
    ensures SortedBy(Members(items, key, k), order)
    decreases |items|
  {
    if items != [] {
      var init, last := items[..|items| - 1], items[|items| - 1];
      assert SortedBy(init, order);
      MembersSorted(init, key, k, order);
      forall y | y in Members(init, key, k) ensures order(y) <= order(last) {
        var j :| 0 <= j < |init| && init[j] == y;
      }
    }
  }

  /** When no two items share a key, every item is a bucket of its own, in input order. */
  lemma {:induction false} SingletonBuckets<T, K(!new)>(items: seq<T>, key: T -> K)
    requires forall i, j :: 0 <= i < j < |items| ==> key(items[i]) != key(items[j])
    ensures Keys(items, key) == MapSeq(items, key)
    ensures forall i :: 0 <= i < |items| ==> Members(items, key, key(items[i])) == [items[i]]
    decreases |items|
  {
    if items != [] {
      var init, last := items[..|items| - 1], items[|items| - 1];
      assert Keys(init, key) == MapSeq(init, key)
          && forall i :: 0 <= i < |init| ==> Members(init, key, key(init[i])) == [init[i]] by {
        SingletonBuckets(init, key);
      }
      assert Members(init, key, key(last)) == [] by {
        NoMembers(init, key, key(last));
      }
      MapSeqInit(items, key);
      forall i | 0 <= i < |items| ensures Members(items, key, key(items[i])) == [items[i]] {
        if i < |init| {
          assert key(last) != key(init[i]);
        }
      }
    }
  }

  /** A key no item has names an empty bucket. */
  lemma {:induction false} NoMembers<T, K>(items: seq<T>, key: T -> K, k: K)
    requires forall i :: 0 <= i < |items| ==> key(items[i]) != k
    ensures Members(items, key, k) == []
    decreases |items|
  {
    if items != [] {
      NoMembers(items[..|items| - 1], key, k);
    }
  }

  /** A sequence holding one value per key, each its bucket's total, sums to the bucket totals. */
  lemma {:induction false} TotalPerBucket<T, K, U>(vs: seq<U>, v: U -> real, ks: seq<K>, items: seq<T>, key: T -> K, w: T -> real)
    requires |vs| == |ks|
    requires forall i :: 0 <= i < |ks| ==> v(vs[i]) == Total(Members(items, key, ks[i]), w)
    ensures Total(vs, v) == BucketTotals(ks, items, key, w)
    decreases |ks|
  {
    if ks != [] {
      TotalPerBucket(vs[1..], v, ks[1..], items, key, w);
      assert vs == [vs[0]] + vs[1..];
      TotalConcat([vs[0]], vs[1..], v);
      assert [vs[0]][..0] == [];
    }
  }

  /** In a bucket of a sorted input, the first member is least and the last member greatest. */
  lemma SortedBucketEnds<T, K>(items: seq<T>, key: T -> K, k: K, order: T -> int)
    requires SortedBy(items, order)
    requires Members(items, key, k) != []
    ensures var ms := Members(items, key, k);
      forall x :: x in ms ==> order(ms[0]) <= order(x) <= order(ms[|ms| - 1])
  {
    var ms := Members(items, key, k);
    MembersSorted(items, key, k, order);
    forall x | x in ms ensures order(ms[0]) <= order(x) <= order(ms[|ms| - 1]) {
      var j :| 0 <= j < |ms| && ms[j] == x;
    }
  }

  /** Bucketing a concatenation concatenates the buckets: members keep their input order. */
  lemma {:induction false} MembersConcat<T, K>(a: seq<T>, b: seq<T>, key: T -> K, k: K)
    ensures Members(a + b, key, k) == Members(a, key, k) + Members(b, key, k)
    decreases |b|
  {
    if b == [] {
      assert a + b == a;
    } else {
      var b' := b[..|b| - 1];
      assert (a + b)[..|a + b| - 1] == a + b';
      MembersConcat(a, b', key, k);
    }
  }
}
