/** Sequence helpers shared by the resampler and the indicator engine. */
module Seqs {

  /** `s.map(f)`. */
  function MapSeq<T, U>(s: seq<T>, f: T -> U): (r: seq<U>)
    ensures |r| == |s|
    ensures forall i :: 0 <= i < |s| ==> r[i] == f(s[i])
  {
    seq(|s|, i requires 0 <= i < |s| => f(s[i]))
  }

  /** The prefix of length `i + 1` is the prefix of length `i` and element `i`. */
  lemma PrefixStep<T>(s: seq<T>, i: int)
    requires 0 <= i < |s|
    ensures s[..i + 1] == s[..i] + [s[i]]
  {
  }

  /** Mapping a sequence maps its prefix and then its last element. */
  lemma MapSeqInit<T, U>(s: seq<T>, f: T -> U)
    requires s != []
    ensures MapSeq(s, f) == MapSeq(s[..|s| - 1], f) + [f(s[|s| - 1])]
  {
    var m := MapSeq(s[..|s| - 1], f) + [f(s[|s| - 1])];
    assert forall i :: 0 <= i < |s| ==> m[i] == f(s[i]);
  }

  /** `s.reduce((a, x) => a + w(x), 0)`: the sum of the weights of the elements, left to right. */
  function Total<T>(s: seq<T>, w: T -> real): real
  {
    if s == [] then 0.0 else Total(s[..|s| - 1], w) + w(s[|s| - 1])
  }

  /** Appending one element adds its weight. */
  lemma TotalAppend<T>(s: seq<T>, x: T, w: T -> real)
    ensures Total(s + [x], w) == Total(s, w) + w(x)
  {
    assert (s + [x])[..|s|] == s;
  }

  /** The total of a concatenation is the sum of the totals. */
  lemma {:induction false} TotalConcat<T>(s: seq<T>, t: seq<T>, w: T -> real)
    ensures Total(s + t, w) == Total(s, w) + Total(t, w)
    decreases |t|
  {
    if t == [] {
      assert s + t == s;
    } else {
      var t' := t[..|t| - 1];
      assert s + t == (s + t') + [t[|t| - 1]];
      TotalAppend(s + t', t[|t| - 1], w);
      TotalConcat(s, t', w);
      TotalAppend(t', t[|t| - 1], w);
      assert t' + [t[|t| - 1]] == t;
    }
  }

  /** Every pair of positions holds different values. */
  ghost predicate Distinct<K>(ks: seq<K>)
  {
    forall i, j :: 0 <= i < j < |ks| ==> ks[i] != ks[j]
  }

  /** `Math.max(...s.map(f))` of a non-empty sequence. */
  function MaxOf<T>(s: seq<T>, f: T -> real): (m: real)
    requires s != []
    ensures exists x :: x in s && f(x) == m
    ensures forall x :: x in s ==> f(x) <= m
  {
    if |s| == 1 then f(s[0])
    else
      var rest := MaxOf(s[..|s| - 1], f);
      assert forall x :: x in s ==> x in s[..|s| - 1] || x == s[|s| - 1];
      if f(s[|s| - 1]) > rest then f(s[|s| - 1]) else rest
  }

  /** `Math.min(...s.map(f))` of a non-empty sequence. */
  function MinOf<T>(s: seq<T>, f: T -> real): (m: real)
    requires s != []
    ensures exists x :: x in s && f(x) == m
    ensures forall x :: x in s ==> m <= f(x)
  {
    if |s| == 1 then f(s[0])
    else
      var rest := MinOf(s[..|s| - 1], f);
      assert forall x :: x in s ==> x in s[..|s| - 1] || x == s[|s| - 1];
      if f(s[|s| - 1]) < rest then f(s[|s| - 1]) else rest
  }

  /** The maximum is determined by the values alone: reading them through a map gives the same maximum. */
  lemma {:induction false} MaxOfMap<T, U>(s: seq<T>, f: T -> U, g: U -> real, h: T -> real)
    requires s != []
    requires forall x :: x in s ==> h(x) == g(f(x))
    ensures MaxOf(MapSeq(s, f), g) == MaxOf(s, h)
    decreases |s|
  {
    if |s| > 1 {
      assert MapSeq(s, f)[..|s| - 1] == MapSeq(s[..|s| - 1], f);
      MaxOfMap(s[..|s| - 1], f, g, h);
    }
  }

  /** The minimum is determined by the values alone: reading them through a map gives the same minimum. */
  lemma {:induction false} MinOfMap<T, U>(s: seq<T>, f: T -> U, g: U -> real, h: T -> real)
    requires s != []
    requires forall x :: x in s ==> h(x) == g(f(x))
    ensures MinOf(MapSeq(s, f), g) == MinOf(s, h)
    decreases |s|
  {
    if |s| > 1 {
      assert MapSeq(s, f)[..|s| - 1] == MapSeq(s[..|s| - 1], f);
      MinOfMap(s[..|s| - 1], f, g, h);
    }
  }

  /** A total is determined by the weights alone: weighing through a map gives the same total. */
  lemma {:induction false} TotalMap<T, U>(s: seq<T>, f: T -> U, g: U -> real, h: T -> real)
    requires forall x :: x in s ==> h(x) == g(f(x))
    ensures Total(MapSeq(s, f), g) == Total(s, h)
    decreases |s|
  {
    if s != [] {
      assert MapSeq(s, f)[..|s| - 1] == MapSeq(s[..|s| - 1], f);
      TotalMap(s[..|s| - 1], f, g, h);
    }
  }
}
