/** Sequence selection: the boolean-mask filtering that pandas does with `df[mask]`. */
module Seqs {

  /** `xs` is obtained from `ys` by deleting elements, keeping the order of the rest. */
  predicate IsSubsequence<T(==)>(xs: seq<T>, ys: seq<T>)
    decreases |ys|
  {
    if xs == [] then true
    else if ys == [] then false
    else (xs[0] == ys[0] && IsSubsequence(xs[1..], ys[1..])) || IsSubsequence(xs, ys[1..])
  }

  /** The elements of `s` for which `p` holds, in their original order. */
  function Filter<T>(s: seq<T>, p: T -> bool): (r: seq<T>)
    ensures |r| <= |s|
  {
    if s == [] then [] else (if p(s[0]) then [s[0]] else []) + Filter(s[1..], p)
  }

  lemma {:induction false} SubsequenceCons<T>(xs: seq<T>, y: T, ys: seq<T>)
    requires IsSubsequence(xs, ys)
    ensures IsSubsequence(xs, [y] + ys) && IsSubsequence([y] + xs, [y] + ys)
  {
    assert ([y] + ys)[1..] == ys;
    assert ([y] + xs)[1..] == xs;
  }


  /** A filter is an order-preserving subsequence that keeps exactly the
      occurrences satisfying `p` (with their multiplicities) and nothing else. */
  lemma {:induction false} FilterIsMaskedSubsequence<T>(s: seq<T>, p: T -> bool)
    ensures IsSubsequence(Filter(s, p), s)
    ensures forall i :: 0 <= i < |Filter(s, p)| ==> p(Filter(s, p)[i])
    ensures forall x :: multiset(Filter(s, p))[x] == if p(x) then multiset(s)[x] else 0
  {
    if s != [] {
      var t := Filter(s[1..], p);
      FilterIsMaskedSubsequence(s[1..], p);
      assert s == [s[0]] + s[1..];
      if p(s[0]) {
        assert Filter(s, p) == [s[0]] + t;
        SubsequenceCons(t, s[0], s[1..]);
      } else {
        assert Filter(s, p) == t;
        SubsequenceCons(t, s[0], s[1..]);
      }
    }
  }

  /** Membership form of the same fact. */
  lemma {:induction false} FilterMembership<T>(s: seq<T>, p: T -> bool)
    ensures forall x :: x in Filter(s, p) <==> x in s && p(x)
  {
    FilterIsMaskedSubsequence(s, p);
    forall x ensures x in Filter(s, p) <==> x in s && p(x) {
      assert x in Filter(s, p) <==> multiset(Filter(s, p))[x] > 0;
      assert x in s <==> multiset(s)[x] > 0;
    }
  }

  /** Each kept element sits at some position of the input and satisfies the mask. */
  lemma {:induction false} FilterOrigin<T>(s: seq<T>, p: T -> bool, k: nat) returns (i: nat)
    requires k < |Filter(s, p)|
    ensures i < |s| && s[i] == Filter(s, p)[k] && p(s[i])
  {
    var t := Filter(s[1..], p);
    assert Filter(s, p) == (if p(s[0]) then [s[0]] else []) + t;
    if p(s[0]) && k == 0 {
      i := 0;
    } else {
      var d := if p(s[0]) then 1 else 0;
      assert Filter(s, p)[k] == t[k - d];
      var j := FilterOrigin(s[1..], p, k - d);
      i := j + 1;
    }
  }

  /** An element satisfying the mask is kept. */
  lemma {:induction false} FilterKeeps<T>(s: seq<T>, p: T -> bool, i: nat)
    requires i < |s| && p(s[i])
    ensures s[i] in Filter(s, p)
  {
    assert Filter(s, p) == (if p(s[0]) then [s[0]] else []) + Filter(s[1..], p);
    if i > 0 {
      FilterKeeps(s[1..], p, i - 1);
      assert s[1..][i - 1] == s[i];
    }
  }

  /** A filter is empty exactly when no element satisfies the mask. */
  lemma {:induction false} FilterEmptyIff<T>(s: seq<T>, p: T -> bool)
    ensures Filter(s, p) == [] <==> forall i :: 0 <= i < |s| ==> !p(s[i])
  {
    FilterMembership(s, p);
    if Filter(s, p) != [] {
      var i := FilterOrigin(s, p, 0);
    }
    if exists i :: 0 <= i < |s| && p(s[i]) {
      var i :| 0 <= i < |s| && p(s[i]);
      assert s[i] in Filter(s, p);
    }
  }

  /** A mask that every element satisfies keeps the whole sequence. */
  lemma {:induction false} FilterAll<T>(s: seq<T>, p: T -> bool)
    requires forall i :: 0 <= i < |s| ==> p(s[i])
    ensures Filter(s, p) == s
  {
    if s != [] {
      FilterAll(s[1..], p);
    }
  }

  /** Filtering twice with the same mask is filtering once. */
  lemma {:induction false} FilterIdempotent<T>(s: seq<T>, p: T -> bool)
    ensures Filter(Filter(s, p), p) == Filter(s, p)
  {
    FilterIsMaskedSubsequence(s, p);
    FilterAll(Filter(s, p), p);
  }

  /** A weaker mask keeps a supersequence. */
  lemma {:induction false} FilterWeakerMask<T>(s: seq<T>, p: T -> bool, q: T -> bool)
    requires forall i :: 0 <= i < |s| && p(s[i]) ==> q(s[i])
    ensures IsSubsequence(Filter(s, p), Filter(s, q))
  {
    if s == [] {
    } else {
      FilterWeakerMask(s[1..], p, q);
      var a, b := Filter(s[1..], p), Filter(s[1..], q);
      if p(s[0]) {
        assert Filter(s, p) == [s[0]] + a && Filter(s, q) == [s[0]] + b;
        SubsequenceCons(a, s[0], b);
      } else if q(s[0]) {
        assert Filter(s, p) == a && Filter(s, q) == [s[0]] + b;
        SubsequenceCons(a, s[0], b);
      } else {
        assert Filter(s, p) == a && Filter(s, q) == b;
      }
    }
  }


  /** `f` applied to each element of `keys`, in order. */
  function MapSeq<K, V>(keys: seq<K>, f: K --> V): (t: seq<V>)
    requires forall j :: 0 <= j < |keys| ==> f.requires(keys[j])
    ensures |t| == |keys|
  {
    if keys == [] then [] else MapSeq(keys[..|keys| - 1], f) + [f(keys[|keys| - 1])]
  }

  /** Each position holds the image of the key at that position. */
  lemma {:induction false} MapSeqAt<K, V>(keys: seq<K>, f: K --> V)
    requires forall j :: 0 <= j < |keys| ==> f.requires(keys[j])
    ensures forall j :: 0 <= j < |keys| ==> MapSeq(keys, f)[j] == f(keys[j])
  {
    if keys != [] {
      var n := |keys| - 1;
      MapSeqAt(keys[..n], f);
      assert forall j :: 0 <= j < n ==> keys[..n][j] == keys[j];
    }
  }

  /** Mapping one more key appends that key's image. */
  lemma {:induction false} MapSeqSnoc<K, V>(keys: seq<K>, f: K --> V, n: nat)
    requires forall j :: 0 <= j < |keys| ==> f.requires(keys[j])
    requires n < |keys|
    ensures MapSeq(keys[..n + 1], f) == MapSeq(keys[..n], f) + [f(keys[n])]
  {
    assert keys[..n + 1][..n] == keys[..n];
  }
}
