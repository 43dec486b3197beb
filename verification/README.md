# Atom regrouping of `clean_poscar.py`

The scripts of this repository load a crystal structure (a VASP POSCAR file),
hand it to ASE or pymatgen for one transformation, and write it back. The one
piece of logic the repository writes itself is the regrouping step of
`clean_poscar.py` (lines 46-49): after an ASE surface cut, atoms of the same
element can be interleaved, while a POSCAR lists each element's atoms as one
block. The script therefore

1. reads the per-atom chemical symbols;
2. lists the distinct elements in order of first appearance
   (`sorted(set(symbols), key=symbols.index)`);
3. builds `grouped_indices`: for each such element, the ascending positions
   of its atoms;
4. selects `atoms[grouped_indices]`.

This project models that step in Dafny and proves what it promises.

- `sequences.dfy` (module `Sequences`): duplicate freedom, selection by an
  index list (what `atoms[indices]` does), permutations of `0..n-1`, and the
  fact that selecting by a permutation keeps every element with its
  multiplicity.
- `elements.dfy` (module `Elements`): chemical symbols, `FirstIndex`
  (Python's `list.index`), `Unique` (first-appearance order), and the proof
  that sorting the set of symbols by first index yields `Unique` whatever
  order the set is enumerated in.
- `regroup.dfy` (module `Regroup`): atoms as a symbol plus an uninspected
  payload, the positions of one element (`Occurrences`), the index list
  (`GroupedIndices`), the regrouped atoms (`Reorder`), a filter-based
  reference definition (`GroupBy`), block order, stability, count
  preservation, idempotence, and the nested comprehension written as loops.

`Unique` is defined as a first-occurrence scan rather than as a sort of a
set. The two agree: `SortedByFirstIndexIsUnique` shows that any
duplicate-free listing of exactly the symbols whose first indices never
decrease (what `sorted` promises) equals `Unique`. Since the first indices of
distinct symbols differ, Python's `sorted` has a single possible answer, and
the set's iteration order does not matter.

## Model

| member | source | states |
|---|---|---|
| Regroup.Symbols | clean_poscar.py:46 | `get_chemical_symbols()` has one entry per atom, and entry `i` is the symbol of atom `i` |
| Elements.FirstIndex | clean_poscar.py:47 | `symbols.index(x)` is a position holding `x`, and no earlier position holds `x` |
| Elements.Unique | clean_poscar.py:47 | the distinct elements are never more than the atoms |
| Elements.UniqueSpec | clean_poscar.py:47 | the distinct elements: no element is listed twice, and an element is listed exactly when some atom has it |
| Elements.UniqueOrderedByFirstIndex | clean_poscar.py:47 | the distinct elements come in strictly increasing order of first appearance, the order the `symbols.index` sort key gives |
| Elements.SortedByFirstIndexIsUnique | clean_poscar.py:47 | any duplicate-free listing of exactly the set of symbols whose `symbols.index` keys never decrease is `Unique`, so the result does not depend on the set's iteration order |
| Regroup.Occurrences | clean_poscar.py:48 | the inner comprehension yields only valid positions of `symbols` |
| Regroup.OccurrencesSpec | clean_poscar.py:48 | the inner comprehension yields exactly the positions holding the element, in strictly ascending order |
| Regroup.Gather | clean_poscar.py:48 | the nested comprehension over any list of elements yields only valid positions of `symbols` |
| Regroup.GatherSpec | clean_poscar.py:48 | the nested comprehension lists a position exactly when its symbol is among the given elements |
| Regroup.AppendOccurrences | clean_poscar.py:48 | the scan over `enumerate(symbols)` appends exactly the occurrences of one element |
| Regroup.ComputeGroupedIndices | clean_poscar.py:47-48 | the nested loops over `unique` and `enumerate(symbols)` build exactly `GroupedIndices` |
| Regroup.GroupedIndices | clean_poscar.py:48 | `grouped_indices` has one entry per atom, each a valid position |
| Regroup.GroupedIndicesIsPermutation | clean_poscar.py:48 | `grouped_indices` is a permutation of `0..n-1`: length `n`, every entry below `n`, no entry twice, every position present |
| Regroup.GroupedIndicesBlocksInOrder | clean_poscar.py:48 | along `grouped_indices`, the rank in `unique` of the element at each position never decreases |
| Regroup.GroupedIndicesStable | clean_poscar.py:48 | two entries of `grouped_indices` naming atoms of the same element keep their original order |
| Sequences.Select | clean_poscar.py:49 | `atoms[idx]` has one entry per index, and entry `k` is `atoms[idx[k]]`, the atom carried whole |
| Sequences.SelectPermutation | clean_poscar.py:49 | selecting by a permutation of the positions keeps every element with its multiplicity |
| Regroup.Reorder | clean_poscar.py:49 | `atoms[grouped_indices]` has as many atoms as the input |
| Regroup.ReorderPermutes | clean_poscar.py:49 | the regrouped structure holds the same atoms with the same multiplicities, payload included, and the same count of every element |
| Regroup.ReorderBlocksInOrder | clean_poscar.py:47-49 | after regrouping, the rank in `unique` of each atom's element never decreases along the structure |
| Regroup.ReorderContiguous | clean_poscar.py:46-49 | after regrouping, the atoms of each element are contiguous: no other element sits between two of them |
| Regroup.ReorderStable | clean_poscar.py:48-49 | two regrouped atoms of the same element come from ascending original positions |
| Regroup.ReorderIsGroupBy | clean_poscar.py:48-49 | the regrouped atoms equal the concatenation, over `unique`, of each element's atoms filtered in their original order |
| Regroup.GroupedIsFixedPoint | clean_poscar.py:46-49 | when every element's atoms are already contiguous, `grouped_indices` is the identity `0..n-1` |
| Regroup.ReorderFixesGrouped | clean_poscar.py:46-49 | a structure whose elements are already contiguous is left unchanged by regrouping |
| Regroup.ReorderIdempotent | clean_poscar.py:46-49 | regrouping twice equals regrouping once |

## Left out

- Reading and writing POSCAR files through `ase.io.read` and `ase.io.write` (clean_poscar.py:42 and 63): file I/O through a foreign format library.
- The position re-set of clean_poscar.py:52-57: floating-point geometry in ASE, applied after the regrouping. In direct mode it can wrap atoms back into the cell. The `coord_type` it sets is only printed, at line 60; the write at line 63 is not given it.
- Argument parsing and console messages, including printing `unique` (clean_poscar.py:31-39, 43, 59-60, 64).
- Per-structure data that `atoms[indices]` carries along (cell, periodic boundary flags, constraints) is not modelled. Each atom's own data is the opaque payload `P`.
- Elements.Unique: its own contract bounds only the length. That it lists each element exactly once, and in order of first appearance, is stated by the lemmas `Elements.UniqueSpec` and `Elements.UniqueOrderedByFirstIndex`, which keeps the quantified facts out of every use of the function.
- Regroup.Occurrences: its own contract states only that the positions are valid. That they are exactly the positions of the element, ascending, is the lemma `Regroup.OccurrencesSpec`.
- Regroup.Gather: its own contract states only that the positions are valid. Which positions it lists is the lemma `Regroup.GatherSpec`.
- Regroup.GroupedIndices: its own contract states length and range. That it is a permutation is the lemma `Regroup.GroupedIndicesIsPermutation`; block order and stability are `Regroup.GroupedIndicesBlocksInOrder` and `Regroup.GroupedIndicesStable`.
- Regroup.Reorder: its own contract states only the length. That it permutes the atoms is `Regroup.ReorderPermutes`; its grouping is `Regroup.ReorderBlocksInOrder`, `Regroup.ReorderContiguous`, `Regroup.ReorderStable` and `Regroup.ReorderIsGroupBy`.
- Elements.FirstIndex: requires the symbol to be present. Python's `list.index` raises `ValueError` otherwise, but line 47 only applies it to members of `set(symbols)`, so that error path cannot be reached.
- The other scripts (`analyze_symmetry.py`, `make_slab.py`, `multiply_cell.py`) are not part of this model. Apart from file I/O and format conversion (`AseAtomsAdaptor.get_atoms`), they only call pymatgen's symmetry analysis and ASE's `surface`, `center` and `repeat`, floating-point geometry the repository does not implement. The fallback name `POSCAR_slab_{h}{k}{l}` of make_slab.py:32 is used only when `-o ''` is passed explicitly; an omitted `-o` gives `POSCAR_slab` (make_slab.py:19). It is string formatting outside the regrouping step.
