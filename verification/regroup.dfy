/**
 The atom-regrouping step of clean_poscar.py (lines 46-49): atoms are put in
 blocks, one block per element, blocks in order of each element's first
 appearance, atoms inside a block in their original order.
 */
module Regroup {
  import opened Sequences
  import opened Elements

  /**
   One atom of a structure: its chemical symbol and everything else ASE keeps
   per atom (position, tag, momentum, ...), which regrouping never inspects.
   */
  datatype Atom<P> = Atom(sym: Symbol, payload: P)

  /** The per-atom chemical symbols, `atoms.get_chemical_symbols()`. */
  function Symbols<P>(atoms: seq<Atom<P>>): (s: seq<Symbol>)
    ensures |s| == |atoms|
    ensures forall i :: 0 <= i < |atoms| ==> s[i] == atoms[i].sym
  {
    seq(|atoms|, i requires 0 <= i < |atoms| => atoms[i].sym)
  }

  /** The symbols of a structure with one more atom at the end. */
  lemma SymbolsSnoc<P>(atoms: seq<Atom<P>>, a: Atom<P>)
    ensures Symbols(atoms + [a]) == Symbols(atoms) + [a.sym]
  {
  }

  // ---------------------------------------------------------------------
  // The index list of line 48
  // ---------------------------------------------------------------------

  /**
   The positions holding symbol `u`, ascending: the inner comprehension
   `for i, s in enumerate(symbols) if s == u`.
   */
  function Occurrences(s: seq<Symbol>, u: Symbol): (r: seq<nat>)
    ensures InRange(r, |s|)
  {
    if |s| == 0 then []
    else Occurrences(s[..|s| - 1], u) + if s[|s| - 1] == u then [|s| - 1] else []
  }

  /** Appending an atom appends its position to the occurrences of its symbol only. */
  lemma OccurrencesSnoc(s: seq<Symbol>, x: Symbol, u: Symbol)
    ensures Occurrences(s + [x], u) == Occurrences(s, u) + if x == u then [|s|] else []
  {
    assert (s + [x])[..|s|] == s;
  }

  /**
   `Occurrences(s, u)` lists exactly the positions holding `u`, in strictly
   ascending order.
   */
  lemma {:induction false} OccurrencesSpec(s: seq<Symbol>, u: Symbol)
    ensures forall k :: 0 <= k < |Occurrences(s, u)| ==> s[Occurrences(s, u)[k]] == u
    ensures forall i {:trigger i in Occurrences(s, u)} :: 0 <= i < |s| && s[i] == u ==> i in Occurrences(s, u)
    ensures forall j, k :: 0 <= j < k < |Occurrences(s, u)| ==> Occurrences(s, u)[j] < Occurrences(s, u)[k]
  {
    if |s| > 0 {
      var p := s[..|s| - 1];
      var x := s[|s| - 1];
      assert s == p + [x];
      OccurrencesSpec(p, u);
      OccurrencesSnoc(p, x, u);
      var o := Occurrences(p, u);
      assert forall k :: 0 <= k < |o| ==> o[k] < |p| && s[o[k]] == p[o[k]];
      forall i | 0 <= i < |s| && s[i] == u
        ensures i in Occurrences(s, u)
      {
        if i < |p| {
          assert p[i] == u && i in o;
        }
      }
    }
  }

  /** A symbol that does not occur has no occurrences. */
  lemma {:induction false} OccurrencesOfAbsent(s: seq<Symbol>, u: Symbol)
    requires u !in s
    ensures Occurrences(s, u) == []
  {
    if |s| > 0 {
      var p := s[..|s| - 1];
      assert s == p + [s[|s| - 1]];
      OccurrencesOfAbsent(p, u);
      OccurrencesSnoc(p, s[|s| - 1], u);
    }
  }

  /**
   The occurrences of each symbol of `us`, block after block in the order of
   `us`: the comprehension `[i for u in us for i, s in enumerate(symbols) if s == u]`.
   */
  function Gather(s: seq<Symbol>, us: seq<Symbol>): (r: seq<nat>)
    ensures InRange(r, |s|)
  {
    if |us| == 0 then []
    else Gather(s, us[..|us| - 1]) + Occurrences(s, us[|us| - 1])
  }

  /** Unfolding `Gather` on a list of symbols with one more symbol at the end. */
  lemma GatherSnocSymbol(s: seq<Symbol>, us: seq<Symbol>, u: Symbol)
    ensures Gather(s, us + [u]) == Gather(s, us) + Occurrences(s, u)
  {
    assert (us + [u])[..|us|] == us;
  }

  /** `Gather(s, us)` lists exactly the positions whose symbol is in `us`. */
  lemma {:induction false} GatherSpec(s: seq<Symbol>, us: seq<Symbol>)
    ensures forall k :: 0 <= k < |Gather(s, us)| ==> s[Gather(s, us)[k]] in us
    ensures forall i {:trigger i in Gather(s, us)} :: 0 <= i < |s| && s[i] in us ==> i in Gather(s, us)
  {
    if |us| > 0 {
      var us' := us[..|us| - 1];
      var u := us[|us| - 1];
      assert us == us' + [u];
      GatherSpec(s, us');
      OccurrencesSpec(s, u);
      GatherSnocSymbol(s, us', u);
      var g := Gather(s, us');
      var o := Occurrences(s, u);
      forall k | 0 <= k < |g + o|
        ensures s[(g + o)[k]] in us
      {
        if k < |g| {
          assert s[g[k]] in us';
        } else {
          assert s[o[k - |g|]] == u;
        }
      }
      forall i | 0 <= i < |s| && s[i] in us
        ensures i in g + o
      {
        if s[i] == u {
          assert i in o;
        } else {
          assert s[i] in us';
          assert i in g;
        }
      }
    }
  }

  /** A prefix of a duplicate-free list is duplicate-free and misses the last element. */
  lemma NoDupDropLast(us: seq<Symbol>)
    requires NoDup(us) && |us| > 0
    ensures NoDup(us[..|us| - 1]) && us[|us| - 1] !in us[..|us| - 1]
    ensures us == us[..|us| - 1] + [us[|us| - 1]]
  {
  }

  /** Gathering distinct symbols never lists a position twice. */
  lemma {:induction false} GatherNoDup(s: seq<Symbol>, us: seq<Symbol>)
    requires NoDup(us)
    ensures NoDup(Gather(s, us))
    decreases |us|
  {
    if |us| > 0 {
      var us' := us[..|us| - 1];
      var u := us[|us| - 1];
      NoDupDropLast(us);
      GatherNoDup(s, us');
      GatherSpec(s, us');
      OccurrencesSpec(s, u);
      GatherSnocSymbol(s, us', u);
      var g := Gather(s, us');
      var o := Occurrences(s, u);
      forall i, j | 0 <= i < j < |g + o|
        ensures (g + o)[i] != (g + o)[j]
      {
        if j < |g| {
          assert (g + o)[i] == g[i] && (g + o)[j] == g[j];
        } else if i < |g| {
          assert s[g[i]] in us' && s[o[j - |g|]] == u;
        } else {
          assert o[i - |g|] < o[j - |g|];
        }
      }
    }
  }

  /**
   Appending an atom whose symbol is absent from `us` leaves the gathered
   list unchanged.
   */
  lemma {:induction false} GatherSnocAbsent(s: seq<Symbol>, x: Symbol, us: seq<Symbol>)
    requires x !in us
    ensures Gather(s + [x], us) == Gather(s, us)
    decreases |us|
  {
    if |us| > 0 {
      var us' := us[..|us| - 1];
      assert us == us' + [us[|us| - 1]];
      GatherSnocAbsent(s, x, us');
      OccurrencesSnoc(s, x, us[|us| - 1]);
      GatherSnocSymbol(s, us', us[|us| - 1]);
      GatherSnocSymbol(s + [x], us', us[|us| - 1]);
    }
  }

  /**
   Appending an atom whose symbol is in the distinct list `us` adds exactly
   one position to the gathered list.
   */
  lemma {:induction false} GatherSnocLength(s: seq<Symbol>, x: Symbol, us: seq<Symbol>)
    requires NoDup(us) && x in us
    ensures |Gather(s + [x], us)| == |Gather(s, us)| + 1
    decreases |us|
  {
    var us' := us[..|us| - 1];
    var u := us[|us| - 1];
    NoDupDropLast(us);
    OccurrencesSnoc(s, x, u);
    GatherSnocSymbol(s, us', u);
    GatherSnocSymbol(s + [x], us', u);
    if x == u {
      GatherSnocAbsent(s, x, us');
    } else {
      GatherSnocLength(s, x, us');
    }
  }

  /** Gathering over all distinct symbols lists exactly as many positions as there are atoms. */
  lemma {:induction false} GatherAllLength(s: seq<Symbol>)
    ensures |Gather(s, Unique(s))| == |s|
  {
    if |s| > 0 {
      var p := s[..|s| - 1];
      var x := s[|s| - 1];
      assert s == p + [x];
      GatherAllLength(p);
      UniqueSpec(p);
      UniqueSnoc(p, x);
      var up := Unique(p);
      if x in up {
        GatherSnocLength(p, x, up);
      } else {
        assert x !in p;
        GatherSnocSymbol(s, up, x);
        GatherSnocAbsent(p, x, up);
        OccurrencesSnoc(p, x, x);
        OccurrencesOfAbsent(p, x);
      }
    }
  }

  /** The index list of line 48: the occurrences of each element, elements in first-appearance order. */
  function GroupedIndices(s: seq<Symbol>): (r: seq<nat>)
    ensures |r| == |s| && InRange(r, |s|)
  {
    GatherAllLength(s);
    Gather(s, Unique(s))
  }

  /**
   `grouped_indices` is a permutation of `0..n-1`: every position of the
   structure exactly once.
   */
  lemma GroupedIndicesIsPermutation(s: seq<Symbol>)
    ensures IsPermutation(GroupedIndices(s), |s|)
  {
    UniqueSpec(s);
    GatherNoDup(s, Unique(s));
    GatherSpec(s, Unique(s));
    forall i: nat | i < |s|
      ensures i in GroupedIndices(s)
    {
      assert s[i] in Unique(s);
      assert i in Gather(s, Unique(s));
    }
  }

  // ---------------------------------------------------------------------
  // Block order and stability of the index list
  // ---------------------------------------------------------------------

  /** Rank of an element in the block order: its position in `unique`. */
  function BlockRank(s: seq<Symbol>, x: Symbol): nat {
    Position(Unique(s), x)
  }

  /**
   Walking along a gathered list of distinct symbols, the block a position
   belongs to never goes back.
   */
  lemma {:induction false} GatherBlocksInOrder(s: seq<Symbol>, us: seq<Symbol>)
    requires NoDup(us)
    ensures forall j, k :: 0 <= j <= k < |Gather(s, us)| ==>
      Position(us, s[Gather(s, us)[j]]) <= Position(us, s[Gather(s, us)[k]])
    decreases |us|
  {
    if |us| > 0 {
      var n := |us| - 1;
      var us' := us[..n];
      var u := us[n];
      NoDupDropLast(us);
      GatherBlocksInOrder(s, us');
      GatherSpec(s, us');
      OccurrencesSpec(s, u);
      GatherSnocSymbol(s, us', u);
      var g := Gather(s, us');
      var o := Occurrences(s, u);
      FirstIndexOfNewLast(us);
      forall k | 0 <= k < |g|
        ensures Position(us, s[g[k]]) == Position(us', s[g[k]]) < n
      {
        FirstIndexInPrefix(us, n, s[g[k]]);
      }
      forall j, k | 0 <= j <= k < |g + o|
        ensures Position(us, s[(g + o)[j]]) <= Position(us, s[(g + o)[k]])
      {
        if k >= |g| {
          assert s[(g + o)[k]] == u;
        } else {
          assert (g + o)[j] == g[j] && (g + o)[k] == g[k];
        }
      }
    }
  }

  /**
   Within one element's block the original positions ascend: gathering keeps
   the relative order of atoms of the same element.
   */
  lemma {:induction false} GatherStable(s: seq<Symbol>, us: seq<Symbol>)
    requires NoDup(us)
    ensures forall j, k :: 0 <= j < k < |Gather(s, us)| && s[Gather(s, us)[j]] == s[Gather(s, us)[k]] ==>
      Gather(s, us)[j] < Gather(s, us)[k]
    decreases |us|
  {
    if |us| > 0 {
      var us' := us[..|us| - 1];
      var u := us[|us| - 1];
      NoDupDropLast(us);
      GatherStable(s, us');
      GatherSpec(s, us');
      OccurrencesSpec(s, u);
      GatherSnocSymbol(s, us', u);
      var g := Gather(s, us');
      var o := Occurrences(s, u);
      forall j, k | 0 <= j < k < |g + o| && s[(g + o)[j]] == s[(g + o)[k]]
        ensures (g + o)[j] < (g + o)[k]
      {
        if k < |g| {
          assert (g + o)[j] == g[j] && (g + o)[k] == g[k];
        } else if j < |g| {
          assert false;
        } else {
          assert o[j - |g|] < o[k - |g|];
        }
      }
    }
  }

  /**
   The symbols along `grouped_indices` come block by block, in the order of
   `unique`.
   */
  lemma GroupedIndicesBlocksInOrder(s: seq<Symbol>)
    ensures forall j, k :: 0 <= j <= k < |s| ==>
      BlockRank(s, s[GroupedIndices(s)[j]]) <= BlockRank(s, s[GroupedIndices(s)[k]])
  {
    UniqueSpec(s);
    GatherBlocksInOrder(s, Unique(s));
  }

  /** Same-element positions keep their original relative order in `grouped_indices`. */
  lemma GroupedIndicesStable(s: seq<Symbol>)
    ensures forall j, k :: 0 <= j < k < |s| && s[GroupedIndices(s)[j]] == s[GroupedIndices(s)[k]] ==>
      GroupedIndices(s)[j] < GroupedIndices(s)[k]
  {
    UniqueSpec(s);
    GatherStable(s, Unique(s));
  }

  // ---------------------------------------------------------------------
  // The regrouped atoms of line 49
  // ---------------------------------------------------------------------

  /** The atoms regrouped by element, `atoms[grouped_indices]`. */
  function Reorder<P>(atoms: seq<Atom<P>>): (r: seq<Atom<P>>)
    ensures |r| == |atoms|
  {
    Select(atoms, GroupedIndices(Symbols(atoms)))
  }

  /**
   Regrouping only permutes: the same atoms with the same multiplicities,
   payload included, and so the same count of every element.
   */
  lemma ReorderPermutes<P>(atoms: seq<Atom<P>>)
    ensures multiset(Reorder(atoms)) == multiset(atoms)
    ensures multiset(Symbols(Reorder(atoms))) == multiset(Symbols(atoms))
  {
    var idx := GroupedIndices(Symbols(atoms));
    GroupedIndicesIsPermutation(Symbols(atoms));
    SelectPermutation(atoms, idx);
    assert Symbols(Reorder(atoms)) == Select(Symbols(atoms), idx);
    SelectPermutation(Symbols(atoms), idx);
  }

  /** All atoms of one element are contiguous: nothing else sits between two of them. */
  predicate Grouped(s: seq<Symbol>) {
    forall i, j, k :: 0 <= i < j < k < |s| && s[i] == s[k] ==> s[j] == s[i]
  }

  /** Each regrouped atom is the input atom named by `grouped_indices`, carried whole. */
  lemma ReorderAt<P>(atoms: seq<Atom<P>>)
    ensures forall k :: 0 <= k < |atoms| ==>
      Reorder(atoms)[k] == atoms[GroupedIndices(Symbols(atoms))[k]]
  {
  }

  /** The regrouped atoms come in element blocks ordered as `unique`. */
  lemma ReorderBlocksInOrder<P>(atoms: seq<Atom<P>>)
    ensures forall j, k :: 0 <= j <= k < |atoms| ==>
      BlockRank(Symbols(atoms), Reorder(atoms)[j].sym) <= BlockRank(Symbols(atoms), Reorder(atoms)[k].sym)
  {
    ReorderAt(atoms);
    GroupedIndicesBlocksInOrder(Symbols(atoms));
  }

  /** Block order makes every element contiguous. */
  lemma BlocksInOrderAreGrouped(s: seq<Symbol>, rs: seq<Symbol>)
    requires forall k :: 0 <= k < |rs| ==> rs[k] in s
    requires forall j, k :: 0 <= j <= k < |rs| ==> BlockRank(s, rs[j]) <= BlockRank(s, rs[k])
    ensures Grouped(rs)
  {
    UniqueSpec(s);
    forall i, j, k | 0 <= i < j < k < |rs| && rs[i] == rs[k]
      ensures rs[j] == rs[i]
    {
      assert BlockRank(s, rs[i]) <= BlockRank(s, rs[j]) <= BlockRank(s, rs[k]);
    }
  }

  /** After regrouping, the atoms of each element are contiguous. */
  lemma ReorderContiguous<P>(atoms: seq<Atom<P>>)
    ensures Grouped(Symbols(Reorder(atoms)))
  {
    var s := Symbols(atoms);
    var r := Reorder(atoms);
    ReorderAt(atoms);
    ReorderBlocksInOrder(atoms);
    assert forall k :: 0 <= k < |r| ==> Symbols(r)[k] == r[k].sym && r[k].sym in s;
    BlocksInOrderAreGrouped(s, Symbols(r));
  }

  /**
   Within each element's block the regrouped atoms keep their original
   relative order.
   */
  lemma ReorderStable<P>(atoms: seq<Atom<P>>)
    ensures forall j, k :: 0 <= j < k < |atoms| && Reorder(atoms)[j].sym == Reorder(atoms)[k].sym ==>
      GroupedIndices(Symbols(atoms))[j] < GroupedIndices(Symbols(atoms))[k]
  {
    ReorderAt(atoms);
    GroupedIndicesStable(Symbols(atoms));
  }

  // ---------------------------------------------------------------------
  // A filter-based reference definition
  // ---------------------------------------------------------------------

  /** The atoms of element `u`, in their original order: a stable filter. */
  function AtomsOf<P>(atoms: seq<Atom<P>>, u: Symbol): (r: seq<Atom<P>>)
    ensures |r| <= |atoms|
    ensures forall k :: 0 <= k < |r| ==> r[k].sym == u
  {
    if |atoms| == 0 then []
    else
      var last := atoms[|atoms| - 1];
      AtomsOf(atoms[..|atoms| - 1], u) + if last.sym == u then [last] else []
  }

  /**
   Reference definition of grouping: for each element of `us` in turn, the
   atoms of that element in their original order.
   */
  function GroupBy<P>(atoms: seq<Atom<P>>, us: seq<Symbol>): seq<Atom<P>> {
    if |us| == 0 then []
    else GroupBy(atoms, us[..|us| - 1]) + AtomsOf(atoms, us[|us| - 1])
  }

  /** Selecting by positions of a prefix ignores what follows the prefix. */
  lemma SelectInPrefix<T>(a: seq<T>, x: T, idx: seq<nat>)
    requires InRange(idx, |a|)
    ensures InRange(idx, |a + [x]|)
    ensures Select(a + [x], idx) == Select(a, idx)
  {
  }

  /** Selecting the occurrences of `u` is filtering the atoms of element `u`. */
  lemma {:induction false} SelectOccurrences<P>(atoms: seq<Atom<P>>, u: Symbol)
    ensures Select(atoms, Occurrences(Symbols(atoms), u)) == AtomsOf(atoms, u)
  {
    if |atoms| > 0 {
      var n := |atoms| - 1;
      var a' := atoms[..n];
      var last := atoms[n];
      SymbolsSnoc(a', last);
      assert atoms == a' + [last];
      SelectOccurrences(a', u);
      OccurrencesSnoc(Symbols(a'), last.sym, u);
      var o := Occurrences(Symbols(a'), u);
      var tail: seq<nat> := if last.sym == u then [n] else [];
      SelectAppend(atoms, o, tail);
      SelectInPrefix(a', last, o);
      assert Select(atoms, tail) == if last.sym == u then [last] else [];
    }
  }

  /** Gathering positions and then selecting is grouping the atoms directly. */
  lemma {:induction false} SelectGather<P>(atoms: seq<Atom<P>>, us: seq<Symbol>)
    ensures Select(atoms, Gather(Symbols(atoms), us)) == GroupBy(atoms, us)
    decreases |us|
  {
    if |us| > 0 {
      var us' := us[..|us| - 1];
      var u := us[|us| - 1];
      SelectGather(atoms, us');
      SelectOccurrences(atoms, u);
      SelectAppend(atoms, Gather(Symbols(atoms), us'), Occurrences(Symbols(atoms), u));
    }
  }

  /**
   `atoms[grouped_indices]` is the concatenation, over the elements in
   first-appearance order, of each element's atoms in original order.
   */
  lemma ReorderIsGroupBy<P>(atoms: seq<Atom<P>>)
    ensures Reorder(atoms) == GroupBy(atoms, Unique(Symbols(atoms)))
  {
    SelectGather(atoms, Unique(Symbols(atoms)));
  }

  // ---------------------------------------------------------------------
  // Idempotence
  // ---------------------------------------------------------------------

  /** In a contiguous sequence the last symbol is the last distinct element. */
  lemma {:induction false} LastOfUniqueWhenGrouped(s: seq<Symbol>)
    requires Grouped(s) && |s| > 0
    ensures |Unique(s)| > 0 && Unique(s)[|Unique(s)| - 1] == s[|s| - 1]
  {
    var p := s[..|s| - 1];
    var x := s[|s| - 1];
    assert s == p + [x];
    UniqueSpec(p);
    UniqueSnoc(p, x);
    if x in Unique(p) {
      assert x in p;
      var j :| 0 <= j < |p| && p[j] == x;
      assert p[|p| - 1] == x by {
        if j < |p| - 1 {
          assert s[j] == s[|s| - 1];
        }
      }
      LastOfUniqueWhenGrouped(p);
    }
  }

  /** The identity index list grows by its own length. */
  lemma IdentitySnoc(n: nat)
    ensures Identity(n) + [n] == Identity(n + 1)
  {
  }

  /**
   Appending an atom of the element gathered last appends its position at
   the very end.
   */
  lemma GatherSnocLastBlock(p: seq<Symbol>, x: Symbol, us: seq<Symbol>)
    requires NoDup(us) && |us| > 0 && us[|us| - 1] == x
    ensures Gather(p + [x], us) == Gather(p, us) + [|p|]
  {
    NoDupDropLast(us);
    var us' := us[..|us| - 1];
    GatherSnocSymbol(p + [x], us', x);
    GatherSnocAbsent(p, x, us');
    OccurrencesSnoc(p, x, x);
    GatherSnocSymbol(p, us', x);
    ConcatAssoc(Gather(p, us'), Occurrences(p, x), [|p|]);
  }

  /**
   Extending a sequence with an element that is already the last distinct
   one: the new position joins the last block, which is gathered last.
   */
  lemma GatherAllSnocRepeated(p: seq<Symbol>, x: Symbol)
    requires |Unique(p)| > 0 && Unique(p)[|Unique(p)| - 1] == x
    ensures Gather(p + [x], Unique(p + [x])) == Gather(p, Unique(p)) + [|p|]
  {
    var up := Unique(p);
    assert NoDup(up) by {
      UniqueSpec(p);
    }
    assert x in up;
    UniqueSnoc(p, x);
    GatherSnocLastBlock(p, x, up);
  }

  /** Extending a sequence with a new element opens a new last block. */
  lemma GatherAllSnocNew(p: seq<Symbol>, x: Symbol)
    requires x !in p
    ensures Gather(p + [x], Unique(p + [x])) == Gather(p, Unique(p)) + [|p|]
  {
    var up := Unique(p);
    assert x !in up by {
      UniqueSpec(p);
    }
    UniqueSnoc(p, x);
    OccurrencesSnoc(p, x, x);
    OccurrencesOfAbsent(p, x);
    calc {
      Gather(p + [x], Unique(p + [x]));
      Gather(p + [x], up + [x]);
      { GatherSnocSymbol(p + [x], up, x); }
      Gather(p + [x], up) + Occurrences(p + [x], x);
      { GatherSnocAbsent(p, x, up); }
      Gather(p, up) + Occurrences(p + [x], x);
      { assert Occurrences(p + [x], x) == [] + [|p|] == [|p|]; }
      Gather(p, up) + [|p|];
    }
  }

  /**
   Idempotence: when every element is already contiguous, `grouped_indices`
   is the identity `0..n-1`.
   */
  lemma {:induction false} GroupedIsFixedPoint(s: seq<Symbol>)
    requires Grouped(s)
    ensures GroupedIndices(s) == Identity(|s|)
  {
    if |s| > 0 {
      var p := s[..|s| - 1];
      var x := s[|s| - 1];
      assert s == p + [x];
      assert Grouped(p);
      GroupedIsFixedPoint(p);
      if x in p {
        LastOfUniqueWhenGrouped(s);
        UniqueSpec(p);
        UniqueSnoc(p, x);
        GatherAllSnocRepeated(p, x);
      } else {
        GatherAllSnocNew(p, x);
      }
      IdentitySnoc(|p|);
    }
  }

  /** A structure whose elements are already contiguous is left untouched. */
  lemma ReorderFixesGrouped<P>(atoms: seq<Atom<P>>)
    requires Grouped(Symbols(atoms))
    ensures Reorder(atoms) == atoms
  {
    GroupedIsFixedPoint(Symbols(atoms));
    SelectIdentity(atoms);
  }

  /** Regrouping is idempotent: regrouping twice is regrouping once. */
  lemma ReorderIdempotent<P>(atoms: seq<Atom<P>>)
    ensures Reorder(Reorder(atoms)) == Reorder(atoms)
  {
    ReorderContiguous(atoms);
    ReorderFixesGrouped(Reorder(atoms));
  }

  // ---------------------------------------------------------------------
  // The comprehension of line 48 as loops
  // ---------------------------------------------------------------------

  /**
   The inner comprehension of line 48 as a loop: scan the symbols and append
   every position holding `u`.
   */
  method AppendOccurrences(symbols: seq<Symbol>, u: Symbol, prefix: seq<nat>) returns (grouped: seq<nat>)
    ensures grouped == prefix + Occurrences(symbols, u)
  {
    grouped := prefix;
    var i := 0;
    while i < |symbols|
      invariant 0 <= i <= |symbols|
      invariant grouped == prefix + Occurrences(symbols[..i], u)
    {
      OccurrencesSnoc(symbols[..i], symbols[i], u);
      assert symbols[..i + 1] == symbols[..i] + [symbols[i]];
      if symbols[i] == u {
        grouped := grouped + [i];
      }
      i := i + 1;
    }
    assert symbols[..i] == symbols;
  }

  /** Gathering one more element of `us` appends its occurrences. */
  lemma GatherPrefixStep(s: seq<Symbol>, us: seq<Symbol>, m: nat)
    requires m < |us|
    ensures Gather(s, us[..m + 1]) == Gather(s, us[..m]) + Occurrences(s, us[m])
  {
    assert us[..m + 1] == us[..m] + [us[m]];
    GatherSnocSymbol(s, us[..m], us[m]);
  }

  /**
   The nested comprehension of line 48 as loops: for each element in
   first-appearance order, append the positions holding it.
   */
  method ComputeGroupedIndices(symbols: seq<Symbol>) returns (grouped: seq<nat>)
    ensures grouped == GroupedIndices(symbols)
  {
    var unique := Unique(symbols);
    grouped := [];
    var m := 0;
    while m < |unique|
      invariant 0 <= m <= |unique|
      invariant grouped == Gather(symbols, unique[..m])
    {
      grouped := AppendOccurrences(symbols, unique[m], grouped);
      GatherPrefixStep(symbols, unique, m);
      m := m + 1;
    }
    assert unique[..m] == unique;
  }
}
