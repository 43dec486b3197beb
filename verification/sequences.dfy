/**
 Generic facts about sequences used by the atom-regrouping model: duplicate
 freedom, selection of elements by an index list (NumPy-style fancy indexing,
 which is what `atoms[indices]` does in ASE), and index lists that are
 permutations of `0..n-1`.
 */
module Sequences {

  /** No value occurs twice in `s`. */
  predicate NoDup<T(==)>(s: seq<T>) {
    forall i, j :: 0 <= i < j < |s| ==> s[i] != s[j]
  }

  /** Concatenation is associative. */
  lemma ConcatAssoc<T>(a: seq<T>, b: seq<T>, c: seq<T>)
    ensures a + (b + c) == (a + b) + c
  {
  }

  /** The identity index list `[0, 1, ..., n-1]`. */
  function Identity(n: nat): (r: seq<nat>)
    ensures |r| == n && forall k :: 0 <= k < n ==> r[k] == k
  {
    seq(n, k requires 0 <= k < n => k)
  }

  /** Every index of `idx` points into a sequence of length `n`. */
  predicate InRange(idx: seq<nat>, n: nat) {
    forall k :: 0 <= k < |idx| ==> idx[k] < n
  }

  /** `idx` lists every position `0..n-1` exactly once. */
  predicate IsPermutation(idx: seq<nat>, n: nat) {
    && |idx| == n
    && InRange(idx, n)
    && NoDup(idx)
    && forall i: nat :: i < n ==> i in idx
  }

  /** The elements of `a` at the positions listed in `idx`, in that order. */
  function Select<T>(a: seq<T>, idx: seq<nat>): (r: seq<T>)
    requires InRange(idx, |a|)
    ensures |r| == |idx|
    ensures forall k :: 0 <= k < |idx| ==> r[k] == a[idx[k]]
  {
    seq(|idx|, k requires 0 <= k < |idx| => a[idx[k]])
  }

  /** Selecting by a concatenation of index lists concatenates the selections. */
  lemma SelectAppend<T>(a: seq<T>, x: seq<nat>, y: seq<nat>)
    requires InRange(x, |a|) && InRange(y, |a|)
    ensures InRange(x + y, |a|)
    ensures Select(a, x + y) == Select(a, x) + Select(a, y)
  {
    assert InRange(x + y, |a|) by {
      forall k | 0 <= k < |x + y|
        ensures (x + y)[k] < |a|
      {
        if k >= |x| {
          assert (x + y)[k] == y[k - |x|];
        }
      }
    }
  }

  /** Selecting by the identity index list returns the sequence unchanged. */
  lemma SelectIdentity<T>(a: seq<T>)
    ensures Select(a, Identity(|a|)) == a
  {
  }

  /**
   Removing the position that holds `n - 1` from a permutation of `0..n-1`
   leaves a permutation of `0..n-2`.
   */
  lemma RemoveLast(idx: seq<nat>, n: nat, p: nat)
    requires n > 0 && IsPermutation(idx, n)
    requires p < |idx| && idx[p] == n - 1
    ensures IsPermutation(idx[..p] + idx[p + 1..], n - 1)
  {
    var rest := idx[..p] + idx[p + 1..];
    assert forall k :: 0 <= k < |rest| ==> rest[k] == if k < p then idx[k] else idx[k + 1];
    forall k | 0 <= k < |rest|
      ensures rest[k] < n - 1
    {
      var q := if k < p then k else k + 1;
      assert rest[k] == idx[q] && q != p;
    }
    forall i: nat | i < n - 1
      ensures i in rest
    {
      assert i in idx;
      var q :| 0 <= q < |idx| && idx[q] == i;
      assert q != p;
      if q < p {
        assert rest[q] == i;
      } else {
        assert rest[q - 1] == i;
      }
    }
  }

  /**
   Selecting by `idx` equals selecting from the shorter sequence by `idx`
   with position `p` removed, with the last element put back at `p`.
   */
  lemma SelectWithoutLast<T>(a: seq<T>, idx: seq<nat>, p: nat)
    requires |a| > 0 && InRange(idx, |a|)
    requires p < |idx| && idx[p] == |a| - 1
    requires InRange(idx[..p] + idx[p + 1..], |a| - 1)
    ensures Select(a, idx)
         == Select(a[..|a| - 1], idx[..p] + idx[p + 1..])[..p] + [a[|a| - 1]]
          + Select(a[..|a| - 1], idx[..p] + idx[p + 1..])[p..]
  {
    var rest := idx[..p] + idx[p + 1..];
    var r := Select(a, idx);
    var r' := Select(a[..|a| - 1], rest);
    var t := r'[..p] + [a[|a| - 1]] + r'[p..];
    assert |t| == |r|;
    forall k | 0 <= k < |r|
      ensures r[k] == t[k]
    {
      if k < p {
        assert rest[k] == idx[k];
      } else if k > p {
        assert rest[k - 1] == idx[k];
        assert t[k] == r'[k - 1];
      }
    }
  }

  /** Inserting one element anywhere adds exactly that element to the multiset. */
  lemma MultisetInsert<T>(r: seq<T>, p: nat, x: T)
    requires p <= |r|
    ensures multiset(r[..p] + [x] + r[p..]) == multiset(r) + multiset{x}
  {
    assert r == r[..p] + r[p..];
  }

  /**
   Selecting by a permutation neither loses, duplicates nor alters an element:
   the result holds the same elements with the same multiplicities.
   */
  lemma {:induction false} SelectPermutation<T>(a: seq<T>, idx: seq<nat>)
    requires IsPermutation(idx, |a|)
    ensures multiset(Select(a, idx)) == multiset(a)
    decreases |a|
  {
    if |a| > 0 {
      var n := |a| - 1;
      assert n in idx;
      var p :| 0 <= p < |idx| && idx[p] == n;
      var rest := idx[..p] + idx[p + 1..];
      RemoveLast(idx, |a|, p);
      SelectPermutation(a[..n], rest);
      SelectWithoutLast(a, idx, p);
      MultisetInsert(Select(a[..n], rest), p, a[n]);
      assert a == a[..n] + [a[n]];
    }
  }
}
