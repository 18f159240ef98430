/** Order-preserving selection from a sequence: Python's list comprehension
    `[x for x in xs if p(x)]`. */
module Seqs {

  /** `ys` can be obtained from `xs` by dropping elements, so the elements
      of `ys` appear in `xs` in the same relative order. */
  predicate IsSubsequence<T(==)>(ys: seq<T>, xs: seq<T>)
    decreases |xs|
  {
    if |ys| == 0 then true
    else if |xs| == 0 then false
    else if ys[0] == xs[0] then IsSubsequence(ys[1..], xs[1..])
    else IsSubsequence(ys, xs[1..])
  }

  /** The elements of `xs` that satisfy `p`, in their original order. */
  function Filter<T(==)>(p: T -> bool, xs: seq<T>): (r: seq<T>)
    ensures |r| <= |xs|
    ensures |r| == |xs| <==> forall i :: 0 <= i < |xs| ==> p(xs[i])
    ensures forall i :: 0 <= i < |r| ==> p(r[i])
  {
    if |xs| == 0 then []
    else
      assert xs == [xs[0]] + xs[1..];
      var rest := Filter(p, xs[1..]);
      if p(xs[0]) then [xs[0]] + rest else rest
  }

  /** The selection keeps the elements it keeps in their original order. */
  lemma {:induction false} FilterIsSubsequence<T>(p: T -> bool, xs: seq<T>)
    ensures IsSubsequence(Filter(p, xs), xs)
    decreases |xs|
  {
    if |xs| != 0 {
      var rest := Filter(p, xs[1..]);
      FilterIsSubsequence(p, xs[1..]);
      if p(xs[0]) {
        assert ([xs[0]] + rest)[1..] == rest;
      }
    }
  }

  /** Every element that satisfies `p` is selected. */
  lemma FilterKeeps<T>(p: T -> bool, xs: seq<T>, i: nat)
    requires i < |xs| && p(xs[i])
    ensures xs[i] in Filter(p, xs)
  {
    FilterMultiplicity(p, xs, xs[i]);
    assert xs[i] in multiset(xs);
  }

  /** The selection holds every element that satisfies `p` as often as `xs`
      does, and nothing else. */
  lemma {:induction false} FilterMultiplicity<T>(p: T -> bool, xs: seq<T>, x: T)
    ensures multiset(Filter(p, xs))[x] == if p(x) then multiset(xs)[x] else 0
    decreases |xs|
  {
    if |xs| != 0 {
      assert xs == [xs[0]] + xs[1..];
      FilterMultiplicity(p, xs[1..], x);
    }
  }

  /** Selecting from a concatenation selects from each part. */
  lemma {:induction false} FilterAppend<T>(p: T -> bool, xs: seq<T>, ys: seq<T>)
    ensures Filter(p, xs + ys) == Filter(p, xs) + Filter(p, ys)
    decreases |xs|
  {
    if |xs| == 0 {
      assert xs + ys == ys;
    } else {
      assert (xs + ys)[1..] == xs[1..] + ys;
      FilterAppend(p, xs[1..], ys);
    }
  }

  /** Selecting with a predicate every element satisfies keeps everything. */
  lemma FilterAll<T>(p: T -> bool, xs: seq<T>)
    requires forall i :: 0 <= i < |xs| ==> p(xs[i])
    ensures Filter(p, xs) == xs
  {
    FilterIsSubsequence(p, xs);
    SubsequenceOfSameLength(Filter(p, xs), xs);
  }

  /** A subsequence as long as the sequence it is taken from is that sequence. */
  lemma {:induction false} SubsequenceOfSameLength<T>(ys: seq<T>, xs: seq<T>)
    requires IsSubsequence(ys, xs) && |ys| == |xs|
    ensures ys == xs
    decreases |xs|
  {
    if |xs| != 0 {
      if ys[0] == xs[0] {
        SubsequenceOfSameLength(ys[1..], xs[1..]);
        assert ys == [ys[0]] + ys[1..];
        assert xs == [xs[0]] + xs[1..];
      } else {
        SubsequenceNotLonger(ys, xs[1..]);
      }
    }
  }

  /** A subsequence is never longer than the sequence it is taken from. */
  lemma {:induction false} SubsequenceNotLonger<T>(ys: seq<T>, xs: seq<T>)
    requires IsSubsequence(ys, xs)
    ensures |ys| <= |xs|
    decreases |xs|
  {
    if |ys| != 0 {
      if ys[0] == xs[0] {
        SubsequenceNotLonger(ys[1..], xs[1..]);
      } else {
        SubsequenceNotLonger(ys, xs[1..]);
      }
    }
  }

  /** Every element of a subsequence occurs in the sequence it is taken from. */
  lemma {:induction false} SubsequenceMember<T>(ys: seq<T>, xs: seq<T>, j: nat)
    requires IsSubsequence(ys, xs) && j < |ys|
    ensures exists k :: 0 <= k < |xs| && xs[k] == ys[j]
    decreases |xs|
  {
    if ys[0] == xs[0] {
      if j != 0 {
        SubsequenceMember(ys[1..], xs[1..], j - 1);
        var k :| 0 <= k < |xs[1..]| && xs[1..][k] == ys[1..][j - 1];
        assert xs[k + 1] == ys[j];
      }
    } else {
      SubsequenceMember(ys, xs[1..], j);
      var k :| 0 <= k < |xs[1..]| && xs[1..][k] == ys[j];
      assert xs[k + 1] == ys[j];
    }
  }

  /** When only the first element fails `p`, the selection is the rest. */
  lemma FilterDropsFirst<T>(p: T -> bool, xs: seq<T>)
    requires |xs| != 0 && !p(xs[0])
    requires forall k :: 0 < k < |xs| ==> p(xs[k])
    ensures Filter(p, xs) == xs[1..]
  {
    var tail := xs[1..];
    assert forall k :: 0 <= k < |tail| ==> tail[k] == xs[k + 1];
    FilterAll(p, tail);
  }

  /** When the one element at position `i` is the only one failing `p`, the
      selection is `xs` with that element cut out. */
  lemma {:induction false} FilterDropsOne<T>(p: T -> bool, xs: seq<T>, i: nat)
    requires i < |xs| && !p(xs[i])
    requires forall k :: 0 <= k < |xs| && k != i ==> p(xs[k])
    ensures Filter(p, xs) == xs[..i] + xs[i + 1..]
    decreases |xs|
  {
    if i == 0 {
      FilterDropsFirst(p, xs);
    } else {
      var tail := xs[1..];
      assert forall k :: 0 <= k < |tail| ==> tail[k] == xs[k + 1];
      FilterDropsOne(p, tail, i - 1);
      assert xs[..i] + xs[i + 1..] == [xs[0]] + (tail[..i - 1] + tail[i..]);
    }
  }
}
