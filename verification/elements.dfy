/**
 Chemical symbols and the list of distinct elements of a structure, in order
 of first appearance (clean_poscar.py line 47:
 `sorted(set(symbols), key=symbols.index)`).
 */
module Elements {
  import opened Sequences

  /** A chemical symbol such as "Mo" or "O", as ASE reports it. */
  type Symbol = string

  /**
   Position of the first occurrence of `x` in `s`: Python's `list.index`.
   */
  function FirstIndex(s: seq<Symbol>, x: Symbol): (r: nat)
    requires x in s
    ensures r < |s| && s[r] == x
    ensures forall j :: 0 <= j < r ==> s[j] != x
  {
    if s[0] == x then 0 else 1 + FirstIndex(s[1..], x)
  }

  /** A first occurrence inside a prefix is the first occurrence in the whole. */
  lemma FirstIndexInPrefix(s: seq<Symbol>, n: nat, x: Symbol)
    requires n <= |s| && x in s[..n]
    ensures FirstIndex(s, x) == FirstIndex(s[..n], x)
  {
    var b := FirstIndex(s[..n], x);
    assert s[b] == x;
  }

  /** The first occurrence of a value absent from the prefix is the last position. */
  lemma FirstIndexOfNewLast(s: seq<Symbol>)
    requires |s| > 0 && s[|s| - 1] !in s[..|s| - 1]
    ensures FirstIndex(s, s[|s| - 1]) == |s| - 1
  {
  }

  /**
   Where `x` stands in the list `us`: its first index, or `|us|` when it is
   not listed.
   */
  function Position(us: seq<Symbol>, x: Symbol): (k: nat)
    ensures k <= |us|
    ensures k < |us| <==> x in us
    ensures k < |us| ==> us[k] == x
  {
    if x in us then FirstIndex(us, x) else |us|
  }

  /**
   The distinct symbols of `s` in order of first appearance: scanning `s`
   from the left, a symbol is appended when it is met for the first time.
   */
  function Unique(s: seq<Symbol>): (r: seq<Symbol>)
    ensures |r| <= |s|
  {
    if |s| == 0 then []
    else
      var u := Unique(s[..|s| - 1]);
      if s[|s| - 1] in u then u else u + [s[|s| - 1]]
  }

  /** Unfolding `Unique` on a sequence with one more symbol at the end. */
  lemma UniqueSnoc(p: seq<Symbol>, x: Symbol)
    ensures Unique(p + [x]) == if x in Unique(p) then Unique(p) else Unique(p) + [x]
  {
    assert (p + [x])[..|p|] == p;
  }

  /**
   `Unique(s)` lists every symbol of `s`, nothing else, and nothing twice:
   as a set it is `set(symbols)`.
   */
  lemma {:induction false} UniqueSpec(s: seq<Symbol>)
    ensures NoDup(Unique(s))
    ensures forall x :: x in Unique(s) <==> x in s
  {
    if |s| > 0 {
      var p := s[..|s| - 1];
      var x := s[|s| - 1];
      assert s == p + [x];
      UniqueSpec(p);
      UniqueSnoc(p, x);
      assert forall y :: y in s <==> y in p || y == x;
    }
  }

  /**
   `t` lists symbols of `s` in strictly increasing order of their first
   occurrence in `s`: the order `sorted(..., key=s.index)` produces.
   */
  predicate OrderedByFirstIndex(s: seq<Symbol>, t: seq<Symbol>) {
    && (forall k :: 0 <= k < |t| ==> t[k] in s)
    && forall i, j :: 0 <= i < j < |t| ==> FirstIndex(s, t[i]) < FirstIndex(s, t[j])
  }

  /** The distinct symbols come out in order of first appearance. */
  lemma {:induction false} UniqueOrderedByFirstIndex(s: seq<Symbol>)
    ensures OrderedByFirstIndex(s, Unique(s))
  {
    if |s| > 0 {
      var n := |s| - 1;
      var p := s[..n];
      var x := s[n];
      assert s == p + [x];
      UniqueOrderedByFirstIndex(p);
      UniqueSpec(p);
      UniqueSnoc(p, x);
      var up := Unique(p);
      forall k | 0 <= k < |up|
        ensures up[k] in s && FirstIndex(s, up[k]) == FirstIndex(p, up[k])
      {
        FirstIndexInPrefix(s, n, up[k]);
      }
      if x !in up {
        FirstIndexOfNewLast(s);
        forall i, j | 0 <= i < j < |Unique(s)|
          ensures FirstIndex(s, Unique(s)[i]) < FirstIndex(s, Unique(s)[j])
        {
          if j == |up| {
            assert FirstIndex(p, up[i]) < |p|;
          }
        }
      }
    }
  }

  /** Dropping the last symbol of an ordered listing keeps it ordered and removes that symbol. */
  lemma OrderedDropLast(s: seq<Symbol>, a: seq<Symbol>)
    requires OrderedByFirstIndex(s, a) && |a| > 0
    ensures OrderedByFirstIndex(s, a[..|a| - 1])
    ensures a[|a| - 1] !in a[..|a| - 1]
    ensures a == a[..|a| - 1] + [a[|a| - 1]]
  {
  }

  /** Two ordered listings of the same non-empty set end with the same symbol. */
  lemma OrderedSameLast(s: seq<Symbol>, a: seq<Symbol>, b: seq<Symbol>)
    requires OrderedByFirstIndex(s, a) && OrderedByFirstIndex(s, b)
    requires forall x :: x in a <==> x in b
    requires |a| > 0
    ensures |b| > 0 && a[|a| - 1] == b[|b| - 1]
  {
    assert a[0] in b;
    var x := a[|a| - 1];
    var y := b[|b| - 1];
    assert x in b && y in a;
  }

  /** A non-empty sequence contains its first element. */
  lemma HeadIsMember(b: seq<Symbol>)
    ensures |b| > 0 ==> b[0] in b
  {
  }

  /**
   Two listings of the same symbols, both strictly ordered by first
   occurrence in `s`, are equal.
   */
  lemma {:induction false} OrderedListingsAgree(s: seq<Symbol>, a: seq<Symbol>, b: seq<Symbol>)
    requires OrderedByFirstIndex(s, a) && OrderedByFirstIndex(s, b)
    requires forall x :: x in a <==> x in b
    ensures a == b
    decreases |a|
  {
    if |a| > 0 {
      OrderedSameLast(s, a, b);
      OrderedDropLast(s, a);
      OrderedDropLast(s, b);
      var x := a[|a| - 1];
      var a' := a[..|a| - 1];
      var b' := b[..|b| - 1];
      forall z
        ensures z in a' <==> z in b'
      {
        assert z in a <==> z in a' || z == x;
        assert z in b <==> z in b' || z == x;
      }
      OrderedListingsAgree(s, a', b');
    } else {
      HeadIsMember(b);
    }
  }

  /**
   Sorting the set of symbols by `s.index` yields `Unique(s)`, whatever order
   the set is enumerated in: any duplicate-free listing of exactly the symbols
   of `s` whose first occurrences never decrease is `Unique(s)`.
   */
  lemma SortedByFirstIndexIsUnique(s: seq<Symbol>, t: seq<Symbol>)
    requires NoDup(t)
    requires forall x :: x in t <==> x in s
    requires forall i, j :: 0 <= i < j < |t| ==> FirstIndex(s, t[i]) <= FirstIndex(s, t[j])
    ensures t == Unique(s)
  {
    forall i, j | 0 <= i < j < |t|
      ensures FirstIndex(s, t[i]) < FirstIndex(s, t[j])
    {
      assert t[i] in s && t[j] in s && t[i] != t[j];
    }
    UniqueSpec(s);
    UniqueOrderedByFirstIndex(s);
    OrderedListingsAgree(s, t, Unique(s));
  }
}
