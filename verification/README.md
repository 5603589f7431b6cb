# Highlight store of the `text-doc` element

`text-doc` is a custom element that shows a textarea over a `<div>`. The
`<div>` shows the same text, with coloured `<mark>` backgrounds for a set of
highlight ranges. The element's constructor keeps two private variables:
- `highlights`, an array of `{start, end, color}` records;
- `needsSort`, a flag saying that the array may be out of order.

Three operations act on this state: `addHighlight`, `getHighlight` and
`removeHighlight`. Before each render, `applyHighlights` sorts the array,
but only if the flag is set. This project models that store and proves what
each operation does to it.

- `values.dfy` (module `Values`): the records and the values passed in.
  - A JavaScript argument, as `isNaN` sees it, is `Num(int)` or `NotANumber`.
  - An omitted colour is `None`. It becomes `#FFFF00`.
  - The object passed to `removeHighlight` lists which own properties
    (`start`, `end`, `index`) it has.
  - A thrown exception is `Fail(InvalidArgument)` or `Fail(NotFound)`.
- `order.dfy` (module `HighlightOrder`): the comparator `highlightsSortFn`
  (`start` ascending, then the longer range first) and `StableSort`.
  - `StableSort` models `Array.prototype.sort` with that comparator.
  - It is proved to be sorted and a permutation of its input.
  - It keeps records that have the same bounds in their prior order.
  - Any sequence with those three properties equals it, so every stable sort
    gives the same result.
- `search.dfy` (module `HighlightSearch`): the specification functions.
  - `Matches` and `FirstMatch`: which record a query finds.
  - `RemoveAt` and `Splice`: what `splice(index, 1)` removes.
    This includes negative and out-of-range indices, and a non-number index,
    which counts as 0.
  - Lemmas relating a lookup to an earlier addition or removal.
- `text_doc.dfy` (module `TextDoc`): class `TextDocument`, with the two
  variables as fields and one method per operation.
  - Its invariant `Valid()` states that a cleared flag means a sorted store.
    This is the invalidate-then-rebuild protocol.
  - Every method preserves `Valid()`.

## Model

| member | source | states |
|---|---|---|
| `TextDoc.TextDocument.constructor` | src/text-doc.js:79-80 | a new element has no highlights and the flag clear (trivially sorted) |
| `TextDoc.TextDocument.AddHighlight` | src/text-doc.js:85-91 | fails with `InvalidArgument` exactly when a bound is not a number, leaving store and flag unchanged; otherwise appends exactly one record `{start, end, color or #FFFF00}` after the unchanged earlier ones and sets the flag |
| `TextDoc.TextDocument.GetHighlight` | src/text-doc.js:93-109 | reads only; returns `None` exactly when no record matches every numeric bound; otherwise the copy of the record at the smallest matching index, annotated with that index |
| `TextDoc.TextDocument.RemoveHighlight` | src/text-doc.js:111-119 | by bounds: removes exactly the record the lookup finds, or fails with `NotFound` with the store unchanged; by index: the store after `splice(index, 1)`; with neither: no change; the flag is never touched and sortedness under a clear flag is kept |
| `TextDoc.TextDocument.SortIfNeeded` | src/text-doc.js:135-138 | afterwards the flag is clear and the store is sorted, a permutation of the old store, with equal-bounds records in their old order, and equal to `StableSort` of the old store; with the flag already clear nothing changes |
| `HighlightOrder.Compare` | src/text-doc.js:82-83 | negative exactly when `a` has the smaller start, or the same start and the longer range; zero exactly when both bounds are equal |
| `HighlightOrder.CompareAntisymmetric` | src/text-doc.js:83 | swapping the comparator's arguments negates its result |
| `HighlightOrder.CompareTransitive` | src/text-doc.js:83 | "may go first" is transitive, so the comparator is consistent |
| `HighlightOrder.WithBoundsEmpty` | src/text-doc.js:83 | the group of records with given bounds (the records the comparator treats as equal) is empty exactly when no record has those bounds |
| `HighlightOrder.Insert` | src/text-doc.js:136 | one insertion step of the sort; the result is the input plus the new record, as a multiset |
| `HighlightOrder.InsertSorted` | src/text-doc.js:136 | inserting into a sorted sequence keeps it sorted |
| `HighlightOrder.StableSort` | src/text-doc.js:136 | the sorted array is sorted under the comparator and is a permutation of the old one |
| `HighlightOrder.WithBoundsInsert` | src/text-doc.js:136 | an inserted record goes before the records that have its bounds, and the order of the other groups is unchanged |
| `HighlightOrder.StableSortKeepsTies` | src/text-doc.js:136 | stability: for every pair of bounds, the records with those bounds appear in the same relative order before and after sorting |
| `HighlightOrder.SortedTiesDetermine` | src/text-doc.js:136 | two sorted sequences that agree on every equal-bounds group are equal |
| `HighlightOrder.StableSortIsUnique` | src/text-doc.js:136 | any sorted sequence with the same equal-bounds groups as the input is `StableSort` of it, so every stable sort agrees with the model |
| `HighlightOrder.StableSortOfSorted` | src/text-doc.js:135-138 | sorting an already sorted store changes nothing, so skipping the sort when the flag is clear is sound |
| `HighlightSearch.FirstMatchFrom` | src/text-doc.js:96-107 | the first index at or after `from` whose record matches, or `None` exactly when none matches from there |
| `HighlightSearch.FirstMatch` | src/text-doc.js:93-108 | the smallest matching index, or `None` exactly when no record matches |
| `HighlightSearch.WildcardFindsFirst` | src/text-doc.js:94-108 | with both bounds not numbers, the lookup finds index 0 when the store is non-empty and nothing when it is empty |
| `HighlightSearch.FirstMatchAppend` | src/text-doc.js:90 | after an append, a lookup finds the same earlier match as before; with no earlier match it finds the new record if that record matches |
| `HighlightSearch.AddedIsFound` | src/text-doc.js:85-108 | a record added with bounds `(s, e)` is found by those bounds; if no earlier record has them, it is found at its own position with its own colour |
| `HighlightSearch.RemoveAt` | src/text-doc.js:114 | removes exactly element `i`: the length drops by one, the elements before `i` are unchanged, the later ones shift down by one, and the multiset loses `s[i]` |
| `HighlightSearch.Splice` | src/text-doc.js:114-117 | `splice(i, 1)` (start position counted from the end when negative, 0 for a non-number, clamped to the array) removes element `i` for `0 <= i < length`, and element `length + i` for negative `i` down to `-length`; it removes nothing past the end, and removes element 0 for a non-number or a more negative index |
| `HighlightSearch.SortedRemoveAt` | src/text-doc.js:111-119 | deleting one record from a sorted store leaves it sorted |
| `HighlightSearch.SortedSplice` | src/text-doc.js:111-119 | any `splice(index, 1)` of a sorted store leaves it sorted, which is why removal need not set the flag |
| `HighlightSearch.RemoveLastMatch` | src/text-doc.js:112-114 | if no record after the removed first match `k` matches, the same lookup on the new store finds nothing |
| `HighlightSearch.RemoveBeforeNextMatch` | src/text-doc.js:112-114 | if the next match after the removed first match `k` is at `j`, the same lookup on the new store finds position `j - 1` |
| `HighlightSearch.RemoveOnlyMatch` | src/text-doc.js:112-114 | removing by value the only record that matches leaves a store in which that lookup finds nothing |

## Left out

- Element construction, the shadow DOM, style mirroring, `setStyle` and the
  `MutationObserver` size sync (src/text-doc.js:6-66). These are display
  plumbing with no state of the store.
- The forwarding of the textarea's function-valued members, and the
  `value`, `innerText` and `innerHTML` accessors (src/text-doc.js:45-50 and
  68-77). These are host glue.
- `createOffsetObject` (src/text-doc.js:121-132). It is an empty stub.
- The markup-splicing loop of `applyHighlights` (src/text-doc.js:139-154).
  The source marks it as buggy. It adds a number to the object returned by
  `createOffsetObject`, so its output depends on JavaScript's string
  coercion rather than on any stated rule. Only the sort step before it is
  modelled.
- The `console.log` call, the `innerHTML` assignment, the `input` listener
  and `customElements.define` (src/text-doc.js:141, 154, 157, 161). These
  are I/O and platform registration.
- JavaScript number semantics. Positions are integers, so floating point,
  `-0`, infinities and string coercion are not modelled. A numeric string
  such as `"5"` passes `isNaN` in the source and is stored as a string.
  Here an argument is either an integer or not a number.
- `removeHighlight(null)` or `removeHighlight(undefined)`. The source throws
  a `TypeError` from `hasOwnProperty`. The model's reference is always an
  object.
- Other colour values. The model treats `color` as an opaque string, or as
  omitted. Passing `undefined` explicitly counts as omitted, and any other
  value is stored as given.
- The sorting algorithm of `Array.prototype.sort` itself. It is a library
  routine, so the model replaces it with the reference `StableSort`.
  `StableSortIsUnique` shows that every stable sort under the comparator
  produces the same sequence as `StableSort`.
- The exact values thrown. `addHighlight` throws the string
  `"Invalid value. Must be a number"`, and a failed removal by value throws
  the `TypeError` from reading `index` of `null`. The model reports these as
  `Fail(InvalidArgument)` and `Fail(NotFound)`. In both cases the store is
  unchanged, because the throw happens before any mutation.

## Behaviour of the code worth noting

- `removeHighlight` never sets `needsSort`, and neither does
  `RemoveHighlight`. This loses nothing: removing a record from a sorted
  store leaves it sorted (`SortedSplice`), so the invariant `Valid()` still
  holds.
- The sort orders whole highlight records, by `start` and then by length,
  longest first. `src/text-doc.js` contains no compositor of open and close
  markers.
- The index `getHighlight` returns is a position in the current store order.
  Once a render sorts the store in place (src/text-doc.js:136), the same
  record may sit at another index.
- Removing by value and then looking up the same bounds finds nothing only
  when a single record matched (`RemoveOnlyMatch`). With more matches the
  lookup finds the next one, one position earlier (`RemoveBeforeNextMatch`).
