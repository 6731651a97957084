/**
 * The two array methods the store is built on, `Array.prototype.find` and
 * `Array.prototype.filter`, as functions over sequences, with the facts about
 * them that the deck and card operations rely on.
 */
module Seqs {
  import opened Wrappers

  /** `find`: the position of the first element satisfying `p`, if any. */
  function Find<T>(xs: seq<T>, p: T -> bool): (r: Option<nat>)
    ensures r.Some? ==> r.value < |xs| && p(xs[r.value])
    ensures r.Some? ==> forall k :: 0 <= k < r.value ==> !p(xs[k])
    ensures r.None? ==> forall k :: 0 <= k < |xs| ==> !p(xs[k])
  {
    if xs == [] then None
    else if p(xs[0]) then Some(0)
    else match Find(xs[1..], p)
      case None => None
      case Some(i) => Some(i + 1)
  }

  /** `r` is obtained from `xs` by dropping elements, keeping the order of the rest. */
  predicate IsSubseq<T(==)>(r: seq<T>, xs: seq<T>)
  {
    r == [] || (xs != [] && ((r[0] == xs[0] && IsSubseq(r[1..], xs[1..])) || IsSubseq(r, xs[1..])))
  }

  /**
   * `filter`: the elements satisfying `p`, in their original order, each kept
   * as often as it occurs, and nothing else.
   */
  function Filter<T(!new)>(xs: seq<T>, p: T -> bool): (r: seq<T>)
    ensures forall x :: x in r <==> x in xs && p(x)
  {
    if xs == [] then []
    else
      var rest := Filter(xs[1..], p);
      assert xs == [xs[0]] + xs[1..];
      if p(xs[0]) then [xs[0]] + rest else rest
  }

  /** `filter` keeps the order of what it keeps. */
  lemma {:induction false} FilterIsSubseq<T(!new)>(xs: seq<T>, p: T -> bool)
    ensures IsSubseq(Filter(xs, p), xs)
  {
    if xs != [] {
      FilterIsSubseq(xs[1..], p);
      var rest := Filter(xs[1..], p);
      if p(xs[0]) {
        assert ([xs[0]] + rest)[1..] == rest;
      }
    }
  }

  /** `filter` keeps each passing element exactly as many times as it occurs. */
  lemma {:induction false} FilterCount<T(!new)>(xs: seq<T>, p: T -> bool)
    ensures forall x :: multiset(Filter(xs, p))[x] == if p(x) then multiset(xs)[x] else 0
  {
    if xs != [] {
      FilterCount(xs[1..], p);
      assert xs == [xs[0]] + xs[1..];
    }
  }

  /** Filtering keeps everything when every element passes. */
  lemma {:induction false} FilterKeepsAll<T(!new)>(xs: seq<T>, p: T -> bool)
    requires forall k :: 0 <= k < |xs| ==> p(xs[k])
    ensures Filter(xs, p) == xs
  {
    if xs != [] {
      FilterKeepsAll(xs[1..], p);
    }
  }

  /** When exactly one element fails `p`, filtering removes that element and nothing else. */
  lemma {:induction false} FilterRemovesOne<T(!new)>(xs: seq<T>, p: T -> bool, i: nat)
    requires i < |xs| && !p(xs[i])
    requires forall k :: 0 <= k < |xs| && k != i ==> p(xs[k])
    ensures Filter(xs, p) == xs[..i] + xs[i + 1..]
  {
    var tail := xs[1..];
    if i == 0 {
      assert forall k :: 0 <= k < |tail| ==> p(tail[k]) by {
        forall k | 0 <= k < |tail| ensures p(tail[k]) {
          assert tail[k] == xs[k + 1];
        }
      }
      FilterKeepsAll(tail, p);
    } else {
      assert forall k :: 0 <= k < |tail| && k != i - 1 ==> p(tail[k]) by {
        forall k | 0 <= k < |tail| && k != i - 1 ensures p(tail[k]) {
          assert tail[k] == xs[k + 1];
        }
      }
      FilterRemovesOne(tail, p, i - 1);
      assert xs[..i] == [xs[0]] + tail[..i - 1];
      assert xs[i + 1..] == tail[i..];
    }
  }

  /** Every element of a subsequence is an element of the sequence. */
  lemma {:induction false} SubseqMembers<T>(r: seq<T>, xs: seq<T>)
    requires IsSubseq(r, xs)
    ensures forall x :: x in r ==> x in xs
  {
    if r != [] {
      if r[0] == xs[0] && IsSubseq(r[1..], xs[1..]) {
        SubseqMembers(r[1..], xs[1..]);
        assert r == [r[0]] + r[1..];
      } else {
        SubseqMembers(r, xs[1..]);
      }
    }
  }

  /** No two elements of `xs` share a key (an identifier). */
  ghost predicate UniqueKeys<T, K>(xs: seq<T>, key: T -> K)
  {
    forall i, j :: 0 <= i < j < |xs| ==> key(xs[i]) != key(xs[j])
  }

  /** Dropping elements cannot make two identifiers collide. */
  lemma {:induction false} SubseqKeepsUniqueKeys<T, K>(r: seq<T>, xs: seq<T>, key: T -> K)
    requires IsSubseq(r, xs) && UniqueKeys(xs, key)
    ensures UniqueKeys(r, key)
  {
    if r != [] {
      assert UniqueKeys(xs[1..], key);
      if r[0] == xs[0] && IsSubseq(r[1..], xs[1..]) {
        SubseqKeepsUniqueKeys(r[1..], xs[1..], key);
        SubseqMembers(r[1..], xs[1..]);
        forall j | 0 < j < |r|
          ensures key(r[0]) != key(r[j])
        {
          assert r[j] in r[1..];
          var m :| 0 <= m < |xs[1..]| && xs[1..][m] == r[j];
          assert xs[m + 1] == r[j];
        }
      } else {
        SubseqKeepsUniqueKeys(r, xs[1..], key);
      }
    }
  }
}
