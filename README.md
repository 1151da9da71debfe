# CustomSet: a verified model of an insertion-ordered set

`CustomSet<T>` (src/main.ts) is a mutable set backed by a plain array. It has
no hashing: membership is a linear scan with strict equality, and `add`
appends a value only when that scan does not find it. So the array never
holds a value twice, and it keeps the order in which values were first added.
`add`, `delete` and `clear` change the set in place. Intersection, union,
difference and symmetric difference each build a fresh set. Subset and
superset are boolean tests.

The model has three modules:

- `SetSpec` (SetSpec.dfy) describes the contents each operation produces, as
  pure functions on sequences:
  - `Insert` is one `add`.
  - `Dedup` is adding a sequence's elements one by one to an empty set.
  - `Minus` and `Inter` are the two filters.
  - `Union` is a set followed by what is new in the other set.
  - `SymDiff` is each side's elements that the other side lacks.

  It also proves, as lemmas, what those sequences contain, that they stay
  duplicate-free, and how the operations relate to each other.
- `CustomSets` (CustomSet.dfy) is the class itself. Its field
  `values: seq<T>` stands for the array `_values`, and its class invariant
  `Valid()` is "no element stored twice". Each method follows the source's
  own steps: early-return scans, `add` in a loop in the setter, and
  delete/toggle loops over a fresh copy in the difference operations. Each is
  proved to produce exactly the `SetSpec` function of its inputs.
- `Demo` (Demo.dfy) states the sample sets at the end of the program as
  concrete facts.

Some behaviour of the source is kept as written:

- The `values` setter appends to the current contents; it does not replace
  them. `SetValues` is proved to give `Dedup(old contents + source)`. The
  constructor starts from empty, so it gives `Dedup(source)`.
- `delete` returns whether the value is absent afterwards. That is always
  true, and it does not report whether anything was removed. `Delete` models
  this result as it is.
- `symmetricDifferenceWith` toggles each element of the other set in turn.
  So the result is this set's elements outside the other, in this set's
  order, followed by the other's new elements, in the other's order.

## Model

| member | source | states |
|---|---|---|
| CustomSets.CustomSet.constructor | src/main.ts:8-10 | a set built from `source` holds the first-occurrence deduplication of `source` and no duplicates |
| CustomSets.CustomSet.SetValues | src/main.ts:16-20 | adding a sequence element by element keeps the old contents in front and appends the new elements in first-occurrence order; no duplicates afterwards |
| CustomSets.CustomSet.Size | src/main.ts:22-24 | the size is the number of distinct stored elements |
| CustomSets.CustomSet.Has | src/main.ts:26-33 | the scan returns true exactly when some stored element equals the value |
| CustomSets.CustomSet.Add | src/main.ts:35-40 | the value is appended when absent, otherwise nothing changes; the set itself is returned; no duplicates are introduced |
| CustomSets.CustomSet.Clear | src/main.ts:42-44 | the set is empty afterwards (size 0) |
| CustomSets.CustomSet.Delete | src/main.ts:46-49 | every element equal to the value is removed, the rest keep their order; the result says the value is absent, and it is always true; no duplicates are introduced |
| CustomSets.CustomSet.IntersectWith | src/main.ts:57-59 | a fresh duplicate-free set of this set's elements, in this set's order, that the other set has |
| CustomSets.CustomSet.UnionWith | src/main.ts:61-63 | a fresh duplicate-free set: this set's elements, then the other's elements not in this set, in the other's order |
| CustomSets.CustomSet.IsSubsetOf | src/main.ts:65-72 | true exactly when every element of this set is in the other |
| CustomSets.CustomSet.IsSupersetOf | src/main.ts:74-81 | true exactly when every element of the other set is in this one |
| CustomSets.SubsetSupersetAgree | src/main.ts:65-81 | `a.isSubsetOf(b)` and `b.isSupersetOf(a)` always agree |
| CustomSets.CustomSet.GetDifference | src/main.ts:83-89 | deleting the other's elements one by one from a fresh copy leaves exactly this set's elements not in the other, in this set's order |
| CustomSets.CustomSet.Toggle | src/main.ts:94-98 | a present value is deleted, an absent one appended |
| CustomSets.CustomSet.SymmetricDifferenceWith | src/main.ts:91-101 | toggling the other's elements one by one in a fresh copy gives this set's elements outside the other, then the other's elements outside this set; no duplicates |
| SetSpec.InsertNoDups | src/main.ts:35-40 | adding keeps the contents duplicate-free |
| SetSpec.InsertIdempotent | src/main.ts:35-40 | adding the same value twice is the same as adding it once |
| SetSpec.DeleteUndoesInsert | src/main.ts:35-49 | deleting a value just added to a set that lacked it restores the set |
| SetSpec.DeleteSize | src/main.ts:46-49 | deleting a present value shrinks the size by one; deleting an absent one changes nothing |
| SetSpec.SizeIsCardinality | src/main.ts:22-24 | on duplicate-free contents the length is the number of distinct elements |
| SetSpec.DedupMember | src/main.ts:8-20 | every element of the source is a member of the built set, and nothing else is |
| SetSpec.DedupNoDups | src/main.ts:8-20 | the built set has no duplicates |
| SetSpec.DedupLength | src/main.ts:8-20 | the built set is never longer than the source, and is exactly as long when the source has no duplicates |
| SetSpec.DedupOfNoDups | src/main.ts:8-10 | building a set from a duplicate-free sequence (such as another set's contents) gives that sequence back |
| SetSpec.DedupSnoc | src/main.ts:16-20 | deduplicating one more element is one more `add` |
| SetSpec.DedupConcat | src/main.ts:16-20 | deduplicating a concatenation is the deduplicated first part followed by the new elements of the second, in first-occurrence order |
| SetSpec.MinusMember | src/main.ts:46-49 | the filter keeps exactly the elements of the first sequence that are not in the second |
| SetSpec.MinusNoDups | src/main.ts:46-49 | filtering keeps contents duplicate-free |
| SetSpec.MinusConcat | src/main.ts:46-49 | filtering distributes over concatenation, so the survivors keep their relative order |
| SetSpec.MinusMinus | src/main.ts:85-87 | deleting the elements of one sequence and then another is deleting both at once |
| SetSpec.MinusNone | src/main.ts:46-49 | removing values that do not occur changes nothing |
| SetSpec.MinusNext | src/main.ts:85-87 | one more delete in the loop extends the removed prefix of the other set by one element |
| SetSpec.InterMember | src/main.ts:57-59 | a value is in the intersection exactly when both sets have it |
| SetSpec.InterNoDups | src/main.ts:57-59 | the intersection of a duplicate-free sequence is duplicate-free |
| SetSpec.SubsetIffInterKeepsAll | src/main.ts:57-72 | a set is a subset of another exactly when intersecting with it keeps every element |
| SetSpec.SubsetIffMinusEmpty | src/main.ts:65-89 | a set is a subset of another exactly when the difference is empty |
| SetSpec.UnionMember | src/main.ts:61-63 | a value is in the union exactly when either set has it |
| SetSpec.UnionNoDups | src/main.ts:61-63 | the union of two sets is duplicate-free |
| SetSpec.UnionIsDedup | src/main.ts:61-63 | building a set from one set's contents followed by another's gives their union |
| SetSpec.SymDiffMember | src/main.ts:91-101 | a value is in the symmetric difference exactly when one set has it and the other does not |
| SetSpec.SymDiffNoDups | src/main.ts:91-101 | the symmetric difference of two sets is duplicate-free |
| SetSpec.SymDiffNothing | src/main.ts:92 | before any toggle, the fresh copy is the symmetric difference with nothing |
| SetSpec.SymDiffStep | src/main.ts:93-99 | toggling a new element deletes it when present and appends it when absent, and so extends the symmetric difference by that element |
| SetSpec.SymDiffToggle | src/main.ts:93-99 | one more toggle in the loop extends the processed prefix of the other set by one element |
| SetSpec.SymDiffTwice | src/main.ts:91-101 | the symmetric difference with the same set twice is this set's elements outside it, then the shared ones in the other's order |
| SetSpec.SymDiffTwiceMember | src/main.ts:91-101 | the symmetric difference with the same set twice has exactly the elements of the original set |
| Demo.DemoSources | src/main.ts:104-108 | the sets built from "string", from a set built from "strmk", and from 1, 2, 3, 4 hold those sequences unchanged |
| Demo.DemoNew | src/main.ts:106 | "strmk" has exactly 'm', 'k' that "string" lacks |
| Demo.DemoUnion | src/main.ts:110 | the union is "stringmk" |
| Demo.DemoInter | src/main.ts:112 | the intersection is "str" |
| Demo.DemoNotSubset | src/main.ts:114-116 | "strmk" is not a subset of "string", so both the subset and the superset test are false |
| Demo.DemoDifference | src/main.ts:118 | the difference is "ing" |
| Demo.DemoSymDiff | src/main.ts:120 | the symmetric difference is "ingmk" |

## Left out

- The iteration protocol (`IterateValues` and the generator at src/main.ts:1-3 and 51-55). Iteration is modelled as reading the `values` sequence. Lazy generation is not modelled, and neither is iterating while the set changes.
- The `values` getter returns the live internal array (src/main.ts:12-14). A caller could push duplicates through it and break the invariant. The model has no such aliasing; `values` is read as a value. The class invariant `Valid()` is therefore a precondition of the operations whose results depend on it: `SetValues`, `Size`, `IntersectWith`, `UnionWith`, `GetDifference` and `SymmetricDifferenceWith`.
- The constructor's `Iterable` coercion and spread (src/main.ts:9). A string splitting into characters is runtime behaviour. The source is a `seq<T>`, with `seq<char>` for strings. A set passed as the source is passed as its `values`.
- JavaScript `===` (reference identity for objects, `NaN !== NaN`) is replaced by Dafny equality on `T`. An element type whose equality is not an equivalence is not modelled.
- Running time: the linear-scan cost, and the different early-exit points of `isSubsetOf` and `isSupersetOf`. Only the results are specified.
- The `console.log` output of the demonstration (src/main.ts:110-120). Its values are stated as lemmas about the specification functions, not by running the methods on objects.
