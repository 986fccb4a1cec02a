/** Sorting by a key, largest first. */
module Ordering {
  import opened Options

  ghost predicate Descending(keys: seq<real>) {
    forall i, j :: 0 <= i < j < |keys| ==> keys[i] >= keys[j]
  }

  ghost function Keys<T, K>(xs: seq<T>, key: T -> K): (keys: seq<K>)
    ensures |keys| == |xs|
    ensures forall i :: 0 <= i < |xs| ==> keys[i] == key(xs[i])
  {
    seq(|xs|, i requires 0 <= i < |xs| => key(xs[i]))
  }

  /** What an unstable sort may leave behind: equal keys can come in any order. */
  ghost predicate IsSortOf<T>(before: seq<T>, after: seq<T>, key: T -> real) {
    multiset(after) == multiset(before) && Descending(Keys(after, key))
  }

  /** sort.Slice with a greater-than on the key. Callers learn only that it sorts. */
  method SortSlice<T>(a: array<T>, key: T -> real)
    modifies a
    ensures IsSortOf(old(a[..]), a[..], key)
  {
    ExchangeSort(a, key);
  }

  method Swap<T>(a: array<T>, i: nat, j: nat)
    requires i < j < a.Length
    modifies a
    ensures a[i] == old(a[j]) && a[j] == old(a[i])
    ensures forall k :: 0 <= k < a.Length && k != i && k != j ==> a[k] == old(a[k])
    ensures multiset(a[..]) == multiset(old(a[..]))
  {
    a[i], a[j] := a[j], a[i];
  }

  ghost predicate NoneAbove<T>(a: array<T>, from: nat, top: real, key: T -> real)
    reads a
  {
    forall q :: from <= q < a.Length ==> key(a[q]) <= top
  }

  /** Every later element with a larger key is exchanged forward. */
  method ExchangeSort<T>(a: array<T>, key: T -> real)
    modifies a
    ensures IsSortOf(old(a[..]), a[..], key)
  {
    var i := 0;
    while i < a.Length - 1
      invariant 0 <= i && (i < a.Length || i == 0)
      invariant forall p :: 0 < p < i ==> key(a[p - 1]) >= key(a[p])
      invariant i > 0 ==> NoneAbove(a, i, key(a[i - 1]), key)
      invariant multiset(a[..]) == multiset(old(a[..]))
    {
      ghost var top := if i > 0 then Some(key(a[i - 1])) else None;
      ExchangePass(a, i, key, top);
      i := i + 1;
    }
    assert forall p :: 0 < p < a.Length ==> key(a[p - 1]) >= key(a[p]);
    AdjacentDescending(Keys(a[..], key));
  }

  /** The inner loop: a largest key among those from i on ends up at i. */
  method ExchangePass<T>(a: array<T>, i: nat, key: T -> real, ghost top: Option<real>)
    requires i < a.Length && (top.Some? ==> NoneAbove(a, i, top.value, key))
    modifies a
    ensures forall p :: 0 <= p < i ==> a[p] == old(a[p])
    ensures NoneAbove(a, i, key(a[i]), key) && (top.Some? ==> key(a[i]) <= top.value)
    ensures multiset(a[..]) == multiset(old(a[..]))
  {
    var j := i + 1;
    while j < a.Length
      invariant i < j <= a.Length
      invariant forall p :: 0 <= p < i ==> a[p] == old(a[p])
      invariant top.Some? ==> NoneAbove(a, i, top.value, key)
      invariant multiset(a[..]) == multiset(old(a[..]))
      invariant forall q :: i < q < j ==> key(a[q]) <= key(a[i])
    {
      if key(a[i]) < key(a[j]) {
        Swap(a, i, j);
      }
      j := j + 1;
    }
  }

  lemma {:induction false} AdjacentDescending(keys: seq<real>)
    requires forall p :: 0 < p < |keys| ==> keys[p - 1] >= keys[p]
    ensures Descending(keys)
  {
    if keys != [] {
      var init, last := keys[..|keys| - 1], keys[|keys| - 1];
      AdjacentDescending(init);
      if init != [] {
        assert keys[|init| - 1] >= keys[|init|];
        assert forall i :: 0 <= i < |init| ==> init[i] >= init[|init| - 1];
      }
    }
  }

  // ---------------------------------------------------------------- what a sort determines

  lemma HeadIsLargest(keys: seq<real>, k: real)
    requires Descending(keys) && k in multiset(keys)
    ensures keys[0] >= k
  {
    var i :| 0 <= i < |keys| && keys[i] == k;
  }

  lemma HeadAndTail(keys: seq<real>) returns (head: real, tail: seq<real>)
    requires Descending(keys) && keys != []
    ensures keys == [head] + tail && head == keys[0]
    ensures head in multiset(keys) && Descending(tail)
    ensures multiset(tail) == multiset(keys) - multiset{head}
  {
    head, tail := keys[0], keys[1..];
  }

  lemma {:induction false} DescendingIsUnique(a: seq<real>, b: seq<real>)
    requires Descending(a) && Descending(b) && multiset(a) == multiset(b)
    ensures a == b
    decreases |a|
  {
    assert |a| == |multiset(a)| == |multiset(b)| == |b|;
    if |a| > 0 {
      var x, arest := HeadAndTail(a);
      var y, brest := HeadAndTail(b);
      assert x == y by {
        HeadIsLargest(a, y);
        HeadIsLargest(b, x);
      }
      DescendingIsUnique(arest, brest);
    }
  }

  /** Removes one occurrence of x, which leaves all keys but that of x. */
  lemma TakeOut<T, K>(xs: seq<T>, x: T, key: T -> K) returns (rest: seq<T>)
    requires x in multiset(xs)
    ensures |rest| == |xs| - 1
    ensures multiset(rest) == multiset(xs) - multiset{x}
    ensures multiset(Keys(xs, key)) == multiset(Keys(rest, key)) + multiset{key(x)}
  {
    var k :| 0 <= k < |xs| && xs[k] == x;
    var keys := Keys(xs, key);
    rest := xs[..k] + xs[k + 1..];
    assert xs == xs[..k] + [xs[k]] + xs[k + 1..];
    assert keys == keys[..k] + [keys[k]] + keys[k + 1..];
    assert Keys(rest, key) == keys[..k] + keys[k + 1..];
  }

  lemma {:induction false} SameElementsSameKeys<T, K>(xs: seq<T>, ys: seq<T>, key: T -> K)
    requires multiset(xs) == multiset(ys)
    ensures multiset(Keys(xs, key)) == multiset(Keys(ys, key))
    decreases |xs|
  {
    assert |xs| == |multiset(xs)| == |multiset(ys)| == |ys|;
    if |xs| > 0 {
      var x := xs[0];
      var xrest := TakeOut(xs, x, key);
      var yrest := TakeOut(ys, x, key);
      SameElementsSameKeys(xrest, yrest, key);
    }
  }

  /** All outcomes of an unstable sort show the same sequence of keys. */
  lemma SortedKeysAreUnique<T>(before: seq<T>, one: seq<T>, other: seq<T>, key: T -> real)
    requires IsSortOf(before, one, key) && IsSortOf(before, other, key)
    ensures Keys(one, key) == Keys(other, key)
  {
    SameElementsSameKeys(one, other, key);
    DescendingIsUnique(Keys(one, key), Keys(other, key));
  }

  // ---------------------------------------------------------------- the best few

  function Cut<T>(xs: seq<T>, max: nat): seq<T> {
    if |xs| > max then xs[..max] else xs
  }

  lemma CutOfSort<T>(before: seq<T>, after: seq<T>, max: nat, key: T -> real)
    requires IsSortOf(before, after, key)
    ensures |Cut(after, max)| == if |before| > max then max else |before|
    ensures Descending(Keys(Cut(after, max), key))
    ensures multiset(Cut(after, max)) <= multiset(before)
  {
    var top := Cut(after, max);
    assert |before| == |multiset(before)| == |multiset(after)| == |after|;
    assert Keys(top, key) == Keys(after, key)[..|top|];
    assert after == top + after[|top|..];
  }

  /** Nothing that the cut leaves out has a larger key than anything it keeps. */
  lemma CutKeepsLargest<T>(before: seq<T>, after: seq<T>, max: nat, key: T -> real, kept: T, out: T)
    requires IsSortOf(before, after, key)
    requires kept in Cut(after, max) && out in multiset(before) - multiset(Cut(after, max))
    ensures key(kept) >= key(out)
  {
    var top := Cut(after, max);
    var rest := after[|top|..];
    assert after == top + rest;
    assert out in multiset(rest);
    var i :| 0 <= i < |top| && top[i] == kept;
    var j :| 0 <= j < |rest| && rest[j] == out;
    assert Keys(after, key)[i] >= Keys(after, key)[|top| + j];
  }
}
