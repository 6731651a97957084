/**
 * The shuffle button's loop: a Fisher-Yates shuffle that walks `i` down from
 * the last index to 1 and swaps position `i` with a position `j` drawn from
 * `[0, i]`. The random draws are supplied by the caller: `js[i]` is the draw
 * made when the loop is at index `i` (`js[0]` is never read; `ValidDraws` fixes it at 0).
 */
module Shuffle {
  import opened Seqs

  /** Every draw lies in the range the source draws it from. */
  predicate ValidDraws(js: seq<nat>)
  {
    forall k :: 0 <= k < |js| ==> js[k] <= k
  }

  /** Exchanges the elements at `i` and `j`. */
  function Swap<T>(s: seq<T>, i: nat, j: nat): (r: seq<T>)
    requires i < |s| && j < |s|
    ensures |r| == |s|
  {
    s[i := s[j]][j := s[i]]
  }

  lemma SwapPermutes<T>(s: seq<T>, i: nat, j: nat)
    requires i < |s| && j < |s|
    ensures multiset(Swap(s, i, j)) == multiset(s)
  {
  }

  /**
   * What the loop leaves behind when it resumes at index `i` with the
   * sequence `s`: the swaps for `i`, `i - 1`, ..., `1`, in that order.
   */
  function Shuffled<T>(s: seq<T>, js: seq<nat>, i: int): (r: seq<T>)
    requires -1 <= i < |s| && i < |js| && ValidDraws(js)
    ensures |r| == |s|
    decreases i + 1
  {
    if i <= 0 then s else Shuffled(Swap(s, i, js[i]), js, i - 1)
  }

  /** Whatever the draws, the shuffle only rearranges: the same cards, each as often. */
  lemma {:induction false} ShuffledPermutes<T>(s: seq<T>, js: seq<nat>, i: int)
    requires -1 <= i < |s| && i < |js| && ValidDraws(js)
    ensures multiset(Shuffled(s, js, i)) == multiset(s)
    decreases i + 1
  {
    if i > 0 {
      SwapPermutes(s, i, js[i]);
      ShuffledPermutes(Swap(s, i, js[i]), js, i - 1);
    }
  }

  /** The shuffle loop, in place on the deck's card array. */
  method ShuffleInPlace<T>(a: array<T>, js: seq<nat>)
    requires |js| == a.Length && ValidDraws(js)
    modifies a
    ensures a[..] == Shuffled(old(a[..]), js, a.Length - 1)
    ensures multiset(a[..]) == multiset(old(a[..]))
    ensures a.Length < 2 ==> a[..] == old(a[..])
  {
    ghost var target := Shuffled(a[..], js, a.Length - 1);
    var i := a.Length - 1;
    while i > 0
      invariant -1 <= i < a.Length
      invariant Shuffled(a[..], js, i) == target
    {
      var j := js[i];
      ghost var before := a[..];
      a[i], a[j] := a[j], a[i];
      assert a[..] == Swap(before, i, j);
      assert Shuffled(before, js, i) == Shuffled(a[..], js, i - 1);
      i := i - 1;
    }
    ShuffledPermutes(old(a[..]), js, a.Length - 1);
  }

  /** A swap below `i + 1` commutes with cutting the sequence after `i`. */
  lemma SwapPrefix<T>(u: seq<T>, i: nat, j: nat)
    requires j <= i < |u|
    ensures Swap(u[..i + 1], i, j) == Swap(u, i, j)[..i + 1]
    ensures Swap(u, i, j)[i + 1..] == u[i + 1..]
  {
  }

  /** The loop from index `i` down touches nothing above `i`. */
  lemma {:induction false} ShuffledPrefix<T>(u: seq<T>, js: seq<nat>, i: int)
    requires -1 <= i < |u| && i < |js| && ValidDraws(js)
    ensures Shuffled(u, js, i) == Shuffled(u[..i + 1], js, i) + u[i + 1..]
    decreases i + 1
  {
    if i <= 0 {
      assert u == u[..i + 1] + u[i + 1..];
    } else {
      var v := Swap(u, i, js[i]);
      var w := Swap(u[..i + 1], i, js[i]);
      calc {
        Shuffled(u, js, i);
        Shuffled(v, js, i - 1);
        { ShuffledPrefix(v, js, i - 1); }
        Shuffled(v[..i], js, i - 1) + v[i..];
        { SwapPrefix(u, i, js[i]);
          assert w[..i] == v[..i];
          assert v[i..] == w[i..] + u[i + 1..]; }
        Shuffled(w[..i], js, i - 1) + (w[i..] + u[i + 1..]);
        (Shuffled(w[..i], js, i - 1) + w[i..]) + u[i + 1..];
        { ShuffledPrefix(w, js, i - 1); }
        Shuffled(w, js, i - 1) + u[i + 1..];
        Shuffled(u[..i + 1], js, i) + u[i + 1..];
      }
    }
  }

  /** The loop from index `i` down reads no draw above `i`. */
  lemma {:induction false} ShuffledDraws<T>(s: seq<T>, js: seq<nat>, i: int)
    requires -1 <= i < |s| && i < |js| && ValidDraws(js)
    ensures ValidDraws(js[..i + 1])
    ensures Shuffled(s, js, i) == Shuffled(s, js[..i + 1], i)
    decreases i + 1
  {
    if i > 0 {
      ShuffledDraws(Swap(s, i, js[i]), js, i - 1);
      ShuffledDraws(Swap(s, i, js[i]), js[..i + 1], i - 1);
      assert js[..i + 1][..i] == js[..i];
    }
  }

  /** The first step of the loop fixes the last position; the rest shuffles what is before it. */
  lemma PeelLast<T>(s: seq<T>, js: seq<nat>)
    requires |s| >= 2 && |js| == |s| && ValidDraws(js)
    ensures var n := |s|;
      Shuffled(s, js, n - 1) == Shuffled(Swap(s, n - 1, js[n - 1])[..n - 1], js[..n - 1], n - 2) + [s[js[n - 1]]]
  {
    var n := |s|;
    var v := Swap(s, n - 1, js[n - 1]);
    assert Shuffled(s, js, n - 1) == Shuffled(v, js, n - 2);
    ShuffledPrefix(v, js, n - 2);
    ShuffledDraws(v[..n - 1], js, n - 2);
    assert v[n - 1..] == [s[js[n - 1]]];
  }

  lemma CancelLast<T>(a: seq<T>, b: seq<T>, x: T)
    requires multiset(a + [x]) == multiset(b + [x])
    ensures multiset(a) == multiset(b)
  {
    calc {
      multiset(a);
      multiset(a) + multiset{x} - multiset{x};
      multiset(a + [x]) - multiset{x};
      multiset(b + [x]) - multiset{x};
      multiset(b) + multiset{x} - multiset{x};
      multiset(b);
    }
  }

  lemma SameSingleton<T>(s: seq<T>, t: seq<T>)
    requires |s| == 1 && multiset(s) == multiset(t)
    ensures s == t
  {
    assert |t| == |multiset(t)| == 1;
    assert t[0] in multiset(s);
  }

  /** Appending the draw for the last index to draws for a shorter prefix. */
  lemma ExtendDraws<T>(s: seq<T>, js': seq<nat>, k: nat)
    requires |s| >= 2 && |js'| == |s| - 1 && ValidDraws(js') && k < |s|
    ensures ValidDraws(js' + [k])
    ensures Shuffled(s, js' + [k], |s| - 1) == Shuffled(Swap(s, |s| - 1, k)[..|s| - 1], js', |s| - 2) + [s[k]]
  {
    var js := js' + [k];
    assert js[..|s| - 1] == js';
    PeelLast(s, js);
  }

  /** Where the loop's first swap must fetch the element that `t` ends with. */
  lemma PickLast<T>(s: seq<T>, t: seq<T>) returns (k: nat)
    requires |s| >= 2 && multiset(s) == multiset(t)
    ensures |t| == |s|
    ensures k < |s| && s[k] == t[|s| - 1]
    ensures multiset(Swap(s, |s| - 1, k)[..|s| - 1]) == multiset(t[..|s| - 1])
  {
    var n := |s|;
    assert |t| == |multiset(t)| == n;
    var x := t[n - 1];
    assert x in multiset(t);
    assert x in s;
    k :| 0 <= k < n && s[k] == x;
    var v := Swap(s, n - 1, k);
    SwapPermutes(s, n - 1, k);
    assert v == v[..n - 1] + [x];
    assert t == t[..n - 1] + [x];
    CancelLast(v[..n - 1], t[..n - 1], x);
  }

  /**
   * Every rearrangement of the cards is produced by some choice of valid
   * draws, returned as `js`: the shuffle can reach every permutation.
   */
  lemma {:induction false} EveryPermutationReachable<T>(s: seq<T>, t: seq<T>) returns (js: seq<nat>)
    requires multiset(s) == multiset(t)
    ensures |js| == |s| && ValidDraws(js) && Shuffled(s, js, |s| - 1) == t
    decreases |s|
  {
    var n := |s|;
    if n == 0 {
      assert |t| == |multiset(t)| == 0;
      js := [];
    } else if n == 1 {
      SameSingleton(s, t);
      js := [0];
    } else {
      var k := PickLast(s, t);
      var js' := EveryPermutationReachable(Swap(s, n - 1, k)[..n - 1], t[..n - 1]);
      ExtendDraws(s, js', k);
      js := js' + [k];
      assert |t| == |multiset(t)| == n;
      assert t == t[..n - 1] + [t[n - 1]];
    }
  }

  lemma SwapKeepsUniqueKeys<T, K>(s: seq<T>, i: nat, j: nat, key: T -> K)
    requires i < |s| && j < |s| && UniqueKeys(s, key)
    ensures UniqueKeys(Swap(s, i, j), key)
  {
    var r := Swap(s, i, j);
    forall a, b | 0 <= a < b < |r|
      ensures key(r[a]) != key(r[b])
    {
      var a' := if a == i then j else if a == j then i else a;
      var b' := if b == i then j else if b == j then i else b;
      assert r[a] == s[a'] && r[b] == s[b'] && a' != b';
    }
  }

  /** Reordering the cards cannot make two identifiers collide. */
  lemma {:induction false} ShuffledKeepsUniqueKeys<T, K>(s: seq<T>, js: seq<nat>, i: int, key: T -> K)
    requires -1 <= i < |s| && i < |js| && ValidDraws(js) && UniqueKeys(s, key)
    ensures UniqueKeys(Shuffled(s, js, i), key)
    decreases i + 1
  {
    if i > 0 {
      SwapKeepsUniqueKeys(s, i, js[i], key);
      ShuffledKeepsUniqueKeys(Swap(s, i, js[i]), js, i - 1, key);
    }
  }

  /**
   * On cards with distinct identifiers, different draws give different orders.
   * With EveryPermutationReachable this makes the draws a one-to-one
   * correspondence with the orders, which is why uniform draws give a
   * uniform shuffle.
   */
  lemma {:induction false} DrawsDetermineShuffle<T, K>(s: seq<T>, js1: seq<nat>, js2: seq<nat>, key: T -> K)
    requires UniqueKeys(s, key)
    requires |js1| == |s| && ValidDraws(js1) && |js2| == |s| && ValidDraws(js2)
    requires Shuffled(s, js1, |s| - 1) == Shuffled(s, js2, |s| - 1)
    ensures js1 == js2
    decreases |s|
  {
    var n := |s|;
    if n == 1 {
      assert js1 == [0] == js2;
    } else if n > 1 {
      var j1, j2 := js1[n - 1], js2[n - 1];
      PeelLast(s, js1);
      PeelLast(s, js2);
      var r := Shuffled(s, js1, n - 1);
      assert r[n - 1] == s[j1] == s[j2];
      assert j1 == j2;
      var p := Swap(s, n - 1, j1)[..n - 1];
      SwapKeepsUniqueKeys(s, n - 1, j1, key);
      assert UniqueKeys(p, key);
      assert r[..n - 1] == Shuffled(p, js1[..n - 1], n - 2) == Shuffled(p, js2[..n - 1], n - 2);
      DrawsDetermineShuffle(p, js1[..n - 1], js2[..n - 1], key);
      assert js1 == js1[..n - 1] + [j1];
      assert js2 == js2[..n - 1] + [j2];
    }
  }
}
