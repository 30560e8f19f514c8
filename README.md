# OrderedSet in Dafny

A model of `OrderedSet` from the Python package `ordered-set`. This is a
mutable set that remembers insertion order, so every element has an index
that can be looked up. The Python object keeps two views of the same
elements:

- `items`: a list that fixes the iteration order and the index of each
  element.
- `map`: a dict from each element to its index. `map` is a Dafny keyword,
  so here the field is named `positions`.

The model has five modules:

- `Wrappers` (wrappers.dfy): the exceptions the set raises (`KeyError`,
  `IndexError`, `TypeError`), returned as values through `Result`, plus
  `Option` for the `None` that `update` returns.
- `Sequences` (sequences.dfy): the sequence functions the rest is specified
  with.
  - `AddAll` / `Dedup`: the fold of `add` over an input, which is what the
    constructor, `update` and `|=` do.
  - `Filter` / `Without`: list comprehensions with a membership test.
  - `Concat` / `Common`: chaining the arguments, and intersecting their
    element sets.
  - `InOrderOf(r, s)`: "r lists its elements in the order of their first
    appearance in s". It is defined independently of how any result is
    computed, and first-appearance order determines a sequence by its
    elements (`InOrderUnique`).
- `OrderedSets` (ordered_set.dfy): the class `OrderedSet` with the fields
  `items` and `positions`.
  - `Valid()` is the representation invariant: no duplicates, the keys of
    `positions` are exactly the items, and `positions[items[j]] == j`.
  - Every mutator preserves `Valid()` and states its new state in full.
  - `discard` keeps the source's renumbering loop over the dict.
  - The in-place set updates are loops of `discard` and `add`, as in the
    source.
- `SetAlgebra` (set_algebra.dfy): the operations that build a new set or
  only read. Each takes the item lists of `self` and of its arguments.
- `Pickling` (pickling.dfy): `__getstate__` / `__setstate__` as a pure
  conversion, with the round trip proved.
- `DocumentedCases` (documented_cases.dfy): concrete cases proved from the
  general lemmas. These are the union, intersection and symmetric
  difference examples of the docstrings, a construction from a list with a
  repeated element, and the input that shows how `difference` with two
  arguments departs from its documented meaning (see "## Findings").

## Model

| member | source | states |
|---|---|---|
| OrderedSets.Consistent | ordered_set.py:46-47 | the representation invariant: items are distinct, the dict's keys are the items, and each item maps to its own index |
| OrderedSets.ConsistentAppend | ordered_set.py:110-112 | appending an absent key at index `len(items)` keeps the two views consistent |
| OrderedSets.ConsistentDropLast | ordered_set.py:150-152 | dropping the last item and its key keeps the views consistent |
| OrderedSets.ConsistentDiscard | ordered_set.py:162-168 | deleting a key's slot and lowering every later index by one keeps the views consistent; the new list is the old one with that one slot cut out |
| OrderedSets.ConsistentSize | ordered_set.py:51-52 | the list and the dict have the same size |
| OrderedSets.ConsistentLookup | ordered_set.py:139 | the index the dict gives for a key holds that key in the list |
| OrderedSets.Renumber | ordered_set.py:166-168 | the dictionary after the renumbering loop: the same keys, indices before the deleted one unchanged, later ones one lower, and once the deleted index is gone no two keys share an index |
| OrderedSets.DiscardDone | ordered_set.py:162-168 | the list with the key's slot cut out and the dictionary renumbered key by key are the key's removal from the list and `Renumber` of the dict, and the two views still agree |
| OrderedSets.RenumberDone | ordered_set.py:166-168 | the state the renumbering loop ends in: every index at or after the deleted one is one lower, the rest unchanged |
| OrderedSets.OrderedSet.constructor | ordered_set.py:45-49 | empty without an iterable; otherwise the iterable with later duplicates dropped, with the invariant established |
| OrderedSets.OrderedSet.Len | ordered_set.py:51-52 | `len(self)` is also the number of keys in the dict |
| OrderedSets.OrderedSet.Contains | ordered_set.py:100-101 | membership answered by the dict agrees with membership in the list |
| OrderedSets.OrderedSet.Add | ordered_set.py:103-113 | a present key: returns its existing index and changes nothing; an absent key: appended at index `len`, returned, every other entry unchanged; the invariant is kept |
| OrderedSets.OrderedSet.Append | ordered_set.py:114 | the same contract as `add` |
| OrderedSets.OrderedSet.Update | ordered_set.py:116-127 | the items become the fold of `add` over the input; returns `None` for an empty input, otherwise the index of the last element processed |
| OrderedSets.OrderedSet.Index | ordered_set.py:129-139 | the key's index, which holds the key; `KeyError` exactly when the key is absent |
| OrderedSets.OrderedSet.IndexMany | ordered_set.py:137-138 | the index of each key in order; `KeyError` exactly when some key is absent |
| OrderedSets.OrderedSet.Get | ordered_set.py:67-72 | integer access with Python's negative indices; `IndexError` exactly outside `-len .. len-1`; the item found is the one the dict maps to that index |
| OrderedSets.OrderedSet.IndexThenGet | ordered_set.py:129-139 | `self[self.index(k)] == k` for every member `k`, with `self[...]` the integer access of lines 54-77 |
| OrderedSets.OrderedSet.GetThenIndex | ordered_set.py:54-77 | `self.index(self[j])` (with `index` at lines 129-139) is `j`, with negative `j` counted from the end |
| OrderedSets.OrderedSet.Pick | ordered_set.py:74 | `[self.items[i] for i in index]`: each entry is the item at that index; `IndexError` exactly when some index is out of range |
| OrderedSets.OrderedSet.GetMany | ordered_set.py:73-74 | fancy indexing: exactly the items at the given indices, each once, in the order the indices were given |
| OrderedSets.OrderedSet.Slice | ordered_set.py:67-70 | a contiguous slice with Python's clamping: its length, and that it lists consecutive indices from the clamped start |
| OrderedSets.Clamp | ordered_set.py:68 | a slice bound as Python clamps it: unchanged inside `0 .. len`, `len` above it, negative bounds counted from the end, and `0` below `-len` |
| OrderedSets.OrderedSet.Copy | ordered_set.py:79-80 | `copy()`, which `self[:]` also returns (lines 65-66): a new valid set with the same items in the same order |
| OrderedSets.OrderedSet.Pop | ordered_set.py:141-153 | `KeyError` and no change on an empty set; otherwise returns the last item and removes it and only it from both views |
| OrderedSets.OrderedSet.Discard | ordered_set.py:155-168 | no change for an absent key; otherwise the key is gone, the length drops by one, the others keep their relative order, and every later index drops by one |
| OrderedSets.OrderedSet.Remove | ordered_set.py:159-160 | `KeyError` and no change when the key is absent, otherwise the effect of `discard` |
| OrderedSets.OrderedSet.Clear | ordered_set.py:170-175 | both views become empty |
| OrderedSets.OrderedSet.Iter | ordered_set.py:177-178 | iteration visits `len` items, the j-th being the item the dict maps to j |
| OrderedSets.OrderedSet.Reversed | ordered_set.py:180-181 | reversed iteration visits the item at index `len-1-j` in place j |
| OrderedSets.OrderedSet.DifferenceUpdate | ordered_set.py:304-315 | discards every element of every argument: the result is `self` without any element found in any argument, in `self`'s order |
| OrderedSets.OrderedSet.IntersectionUpdate | ordered_set.py:317-331 | the result is `intersection(other)` of the old set |
| OrderedSets.OrderedSet.SymmetricDifferenceUpdate | ordered_set.py:333-348 | the result equals `symmetric_difference(other)` of the old set, because "other minus self" is computed before `self` changes |
| SetAlgebra.Union | ordered_set.py:199-218 | exactly the elements of `self` and of the arguments, each once; for an ordered set `self`, its items come first, unchanged |
| SetAlgebra.UnionFirstAppearance | ordered_set.py:201-202 | each element sits at its first appearance in `self` followed by the arguments |
| SetAlgebra.Intersection | ordered_set.py:220-240 | exactly the elements of `self` found in every argument, each once |
| SetAlgebra.IntersectionOrder | ordered_set.py:222-223 | the intersection takes its order from `self`; with no argument it is a copy of `self` |
| SetAlgebra.Difference | ordered_set.py:242-254 | as written: `TypeError` exactly when there is no argument; otherwise the elements of `self` that at least one argument lacks |
| SetAlgebra.DifferenceOfAny | ordered_set.py:244 | as documented: the elements of `self` found in no argument, each once |
| SetAlgebra.DifferenceOfOne | ordered_set.py:242-254 | with one argument both readings agree, and the result is `self` minus the argument, in `self`'s order |
| SetAlgebra.SymmetricDifference | ordered_set.py:288-302 | exactly the elements in one of the two inputs but not both, each once |
| SetAlgebra.SymmetricDifferenceOrder | ordered_set.py:288-302 | `self` minus `other` in `self`'s order, followed by `other` minus `self` in `other`'s order |
| SetAlgebra.IsSubset | ordered_set.py:256-270 | a true answer means every item of `self` is in `other` |
| SetAlgebra.IsSubsetIsInclusion | ordered_set.py:268-270 | for an ordered set `self`, the length shortcut is sound and the result is set inclusion in both directions |
| SetAlgebra.IsSuperset | ordered_set.py:272-286 | a true answer means every element of `other` is in `self` |
| SetAlgebra.IsSupersetIsInclusion | ordered_set.py:284-286 | when `other` repeats nothing, the result is set inclusion in both directions |
| SetAlgebra.IsSupersetRepeatedArgument | ordered_set.py:284-285 | `OrderedSet([1]).issuperset([1, 1])` is false although `{1}` contains `{1}` |
| SetAlgebra.IsSupersetOf | ordered_set.py:284-286 | the corrected shortcut: a true answer means every element of `other` is in `self` |
| SetAlgebra.IsSupersetOfIsInclusion | ordered_set.py:272-275 | the corrected `issuperset` is set inclusion for every argument |
| SetAlgebra.Equals | ordered_set.py:189-190 | two ordered sets are equal exactly when they hold the same items in the same order |
| SetAlgebra.EqualsUnordered | ordered_set.py:191-197 | against any other collection, equal exactly when the two hold the same elements |
| SetAlgebra.EqualityAsymmetry | ordered_set.py:188-197 | `[1, 2]` and `[2, 1]` differ as ordered sets but are equal against a plain collection |
| SetAlgebra.EqualsImpliesUnordered | ordered_set.py:188-197 | equal ordered sets are equal as plain sets |
| Pickling.GetState | ordered_set.py:82-92 | the empty-set marker exactly for an empty set, otherwise the list of items |
| Pickling.SetState | ordered_set.py:94-98 | no items for the marker, otherwise the saved elements, each once |
| Pickling.RoundTrip | ordered_set.py:82-98 | restoring the saved state of an ordered set gives back the same items in the same order |
| Sequences.AddItem | ordered_set.py:103-113 | one `add`: the items unchanged when the key is present, otherwise the key appended |
| Sequences.AddAll | ordered_set.py:116-127 | the fold of `add` over an input: exactly the elements of the start and the input, none twice when the start repeats nothing, and the start kept as a prefix |
| Sequences.Dedup | ordered_set.py:45-49 | `OrderedSet(xs)`: the fold of `add` over `xs` from the empty set, with the same elements and none twice |
| Sequences.AddAllFirstAppearance | ordered_set.py:103-127 | folding `add` lists each element once, at its first appearance |
| Sequences.AddAllDistinct | ordered_set.py:103-127 | folding `add` over new, distinct elements appends them all |
| Sequences.AddAllAppend | ordered_set.py:116-127 | folding `add` over two inputs in a row is folding over their concatenation |
| Sequences.FilterInOrder | ordered_set.py:237 | a comprehension over an ordered set keeps that set's order |
| Sequences.InOrderUnique | ordered_set.py:199-202 | two sequences with the same elements, both in first-appearance order of `s`, are equal |
| DocumentedCases.ConstructorExample | ordered_set.py:45-49 | `OrderedSet([3, 1, 4, 1, 5])` holds `[3, 1, 4, 5]` |
| DocumentedCases.UnionExample | ordered_set.py:205-207 | `union([3, 1, 4, 1, 5], [1, 3], [2, 0])` is `[3, 1, 4, 5, 2, 0]` |
| DocumentedCases.IntersectionExample | ordered_set.py:226-228 | `intersection([0, 1, 2, 3], [1, 2, 3])` is `[1, 2, 3]` |
| DocumentedCases.SymmetricDifferenceExample | ordered_set.py:294-297 | the symmetric difference of `[1, 4, 3, 5, 7]` and `[9, 7, 1, 3, 2]` is `[4, 5, 9, 2]` |
| DocumentedCases.DifferenceOfSeveralArguments | ordered_set.py:252-254 | `OrderedSet([1, 2, 3]).difference([1], [2])` keeps all three items as written, where the documented meaning gives `[3]` |

## Left out

- `is_iterable` and the runtime choice between "one key" and "a collection of keys" in `__getitem__` and `index`: the model has separate operations (`Get`, `GetMany`, `Slice`, `Copy`; `Index`, `IndexMany`).
- Indexing by an object that is neither an integer, a slice nor an iterable, and its `TypeError`: such an argument cannot be formed in a typed model.
- Slices with a step other than 1: only contiguous `start:stop` slices and the full slice `[:]` are modelled.
- The `TypeError` to `ValueError` conversion in `update`, and the `TypeError` fallback in `__eq__`: non-iterable and unhashable arguments cannot arise in a typed model.
- `__repr__`: it only formats a string.
- The pickle protocol itself, and the re-run of `__init__` inside `__setstate__`: only the state conversion and its round trip are modelled.
- Subclass dispatch through `self.__class__`: every result is an ordered set.
- The `MutableSet` mixin operators (`|`, `&`, `-`, `|=` and so on) beyond `remove`. The one use of `|=`, in the constructor, is modelled by its meaning, a fold of `add`.
- Hashing and equality of arbitrary Python objects: elements are values of a Dafny equality type.
- NumPy index arrays, and all running-time claims.
- Arguments of the set operations are taken as finite sequences of their elements (a Python `set` argument as a sequence without repetitions). Duplicates in a list argument are kept, since `issuperset` reads its length.
- OrderedSets.OrderedSet.DifferenceUpdate, SymmetricDifferenceUpdate: their arguments are value snapshots taken at the call. Passing the set itself is not modelled. In Python the loop of `difference_update` then walks the live list while `discard` deletes from it, skipping elements: `s.difference_update(s)` and `s.symmetric_difference_update(s)` leave `[2]` for `s = OrderedSet([1, 2, 3])`, where the contracts here give `[]`.
- Discard: Python walks the dict in insertion order while renumbering. The model picks the keys in an arbitrary order; the end state does not depend on that order.
- OrderedSets.OrderedSet.Get, Pick, GetMany, Slice, Index, IndexMany: they take and return values. Python builds new `OrderedSet` objects for the many-key forms; the model returns their item lists.

## Findings

| source | as written | input that shows it | evidently intended | confidence | as-written member | corrected member |
|---|---|---|---|---|---|---|
| ordered_set.py:253 | `difference(*sets)` removes `set.intersection` of the arguments, so an element is removed only when every argument holds it; with no argument it raises `TypeError` | `OrderedSet([1, 2, 3]).difference([1], [2])` gives `[1, 2, 3]` | the docstring's "elements that are in this set but not the others": `[3]`, as `difference_update` computes | not executed | SetAlgebra.Difference | SetAlgebra.DifferenceOfAny |
| ordered_set.py:284 | the fast check compares `len(self)` with `len(other)`, which counts repeated elements of a list argument | `OrderedSet([1]).issuperset([1, 1])` gives `False` | `True`: every element of `[1, 1]` is in the set | not executed | SetAlgebra.IsSupersetRepeatedArgument | SetAlgebra.IsSupersetOfIsInclusion |
