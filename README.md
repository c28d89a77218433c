# Locale dictionary reconciliation (sync.js)

This project models the dictionary logic of `sync.js`, the script that keeps
the per-locale string files of the repository in step with the English
source `en_US.json`. The script does three things once the files are parsed:

1. It rebuilds the source dictionary with its keys in ascending order. It
   folds over `Object.keys(...).sort()` and assigns each key into a fresh
   object (lines 10-13). The same sort-by-reduce is applied again to every
   merged target (lines 26-29).
2. For a target locale whose file exists, it builds the object spread
   `{...source, ...target}` and sorts it. It then walks the source's keys and
   gives every key the target does not own the value `sourceValue + " (EN)"`
   (lines 25-36). The target's own values win. Keys that only the target has
   are kept.
3. For a target locale whose file does not exist, it assigns
   `sourceValue + " (EN)"` to each source key of a fresh object (lines 44-47).

A parsed JSON object is modelled as `Dicts.Dict`. It holds the object's own
keys in enumeration order, together with the value of each key. `Valid()`
says that each key is enumerated once and exactly the keys with a value are
enumerated. Every object `JSON.parse` returns has this shape. Assignment
`obj[k] = v` is `Dicts.Put`. An existing key keeps its place, and a new key
goes last. The `reduce` callback and the object spread are both the fold
`Dicts.PutEach`. The key order of `.sort()` is `StringOrder.Less`, which
compares strings character by character, with a proper prefix first. The
sort itself is an insertion sort, `StringOrder.Sort`.

The sort-by-reduce and the spread are functions. The two `forEach` loops,
which update an object in place, are methods with `while` loops:
`Sync.TagMissing` and `Sync.DefaultTarget`. Each is proved against what the
script promises. For an existing target that is `Sync.IsMerged`: ascending
keys, the union of source and target keys, the target's values untouched,
and the marked source value for every key the target lacks. For a new
target it is `Sync.IsCreated`: the source's keys in the source's order, each
with its value marked. Lemmas show that:

- `IsMerged` fixes the written file completely.
- Running the update again with the same source changes nothing.
- Creating a missing file gives the same result as updating an empty one.

`sync.js` does not remove target keys that the source no longer has.
`Sync.TargetOnlyKeyKept` shows this on a concrete pair of dictionaries. The
only marker it writes is `" (EN)"`, with its leading space. It has no other
markers, such as `(UTO)` or `(EAN)`, and it makes no translation calls.

## Model

| member | source | states |
|---|---|---|
| `StringOrder.Less` | sync.js:10 | the order `.sort()` applies to keys, character by character: a proper prefix sorts before the longer key |
| `StringOrder.LessIrreflexive` | sync.js:10 | no key sorts before itself under the order `.sort()` applies |
| `StringOrder.LessTransitive` | sync.js:10 | the order `.sort()` applies is transitive |
| `StringOrder.LessTotal` | sync.js:10 | of two different keys, one sorts before the other |
| `StringOrder.Insert` | sync.js:10 | inserting a key into a key list yields that list's keys plus exactly that key (as a multiset) |
| `StringOrder.InsertAscending` | sync.js:10 | inserting a key not yet present into a strictly ascending list keeps it strictly ascending |
| `StringOrder.Sort` | sync.js:10 | the sorted key list is a permutation of `Object.keys(...)` |
| `StringOrder.SortAscending` | sync.js:10 | sorting keys without repeats gives them in strictly ascending order |
| `StringOrder.AscendingUnique` | sync.js:26 | two strictly ascending key lists with the same keys are equal, so the sorted order depends only on the key set |
| `StringOrder.SortOfAscending` | sync.js:10 | sorting a key list that is already ascending leaves it unchanged |
| `Dicts.Put` | sync.js:11 | `obj[k] = v`: the values become `values[k := v]`; a key already present keeps its place in the enumeration; a new key is enumerated last |
| `Dicts.PutEach` | sync.js:10-13 | the reduce callback: the result holds the accumulator's keys plus the visited ones; a visited key has the source's value; every other key keeps the accumulator's value |
| `Dicts.PutEachAppends` | sync.js:11 | new keys without repeats are enumerated after the existing keys, in the order they were assigned |
| `Dicts.Spread` | sync.js:25 | `{...source, ...target}` has every key of either operand; the target's value wins on shared keys |
| `Dicts.SortDict` | sync.js:10-13 | the rebuilt dictionary has the same keys and the same value for each key, enumerated in strictly ascending order |
| `Dicts.SortDictCanonical` | sync.js:26-29 | the sorted dictionary depends only on the entries and not on their enumeration order |
| `Dicts.SortDictIdempotent` | sync.js:10-13 | sorting a sorted dictionary again changes nothing |
| `Dicts.SortDictOfSorted` | sync.js:10-13 | a dictionary whose keys are already ascending is rebuilt exactly as it was |
| `Sync.Tagged` | sync.js:34 | the marked value is the source value followed by " (EN)", so the source value can be read back from it |
| `Sync.MarkWalk` | sync.js:32-36 | the state of the tagging loop after some source keys; the walk only overwrites, so no key is lost |
| `Sync.MarkWalkDomain` | sync.js:32-36 | after visiting some source keys, the keys present are the original ones plus the visited keys the target lacks |
| `Sync.MarkWalkTagged` | sync.js:32-35 | every visited source key that the target lacks has the source value followed by " (EN)" |
| `Sync.MarkWalkUntouched` | sync.js:32-36 | every other key keeps the value it had before the walk |
| `Sync.TagMissing` | sync.js:32-36 | the tagging loop keeps the key set and the key order; a source key the target lacks gets the source value followed by " (EN)"; every other value is unchanged |
| `Sync.MergeTarget` | sync.js:25-36 | the updated target has strictly ascending keys and the union of source and target keys, none pruned; every target value is unchanged, so nothing is marked twice; every source key the target lacks has the source value followed by " (EN)" |
| `Sync.DefaultTarget` | sync.js:44-47 | a created target has exactly the source's keys, in the source's order, each with the source value followed by " (EN)" |
| `Sync.SyncLocale` | sync.js:10-53 | for one locale: the source is re-sorted with its entries unchanged; the target written is the update of the existing file, or of an empty one when the file is missing; in that case it is also exactly the marked copy of the sorted source |
| `Sync.MergedUnique` | sync.js:25-36 | the update's contract determines the written dictionary completely, key order included |
| `Sync.MergeIdempotent` | sync.js:25-36 | updating a target a second time with the same source changes nothing |
| `Sync.CreatedIffMergedIntoEmpty` | sync.js:44-47 | for a sorted source, creating a missing target gives exactly the update of an empty target, and the converse also holds |
| `Sync.TargetOnlyKeyExample` | sync.js:25-36 | with source {"a": "X", "b": "Y"} and target {"c": "Cz", "a": "Ax"}, the dictionary {"a": "Ax", "b": "Y (EN)", "c": "Cz"} meets the update's contract |
| `Sync.TargetOnlyKeyKept` | sync.js:25-36 | for that pair, it is the only dictionary that meets the contract; the target-only key "c" is kept |

## Left out

- File I/O is not modelled: `fs.existsSync`, `readFileSync` and `writeFileSync` (lines 7, 20, 22, 39, 50, 57). In `Sync.SyncLocale` the file's existence and parsed content become the parameter `existing`, and the two dictionaries to be written are returned.
- JSON parsing and the 2-space pretty-printing are library serialisation and are not modelled. So is a parse failure, which throws in the script. Values are modelled as strings; a JSON number or nested object as a value is not.
- The `console.log` progress lines (41, 52, 59) are output only and are not modelled.
- The locale list (line 4) and the loop over it (line 16) are not modelled. `Sync.SyncLocale` models one iteration. The script sorts the source once before the loop. Because `Dicts.SortDict` is deterministic, every iteration sees the same sorted source.
- JavaScript enumerates integer-like keys (such as "10") numerically before all other keys. The model uses plain insertion order, and after sorting plain string order.
- `.sort()` compares UTF-16 code units, while `StringOrder.Less` compares Dafny characters, which are Unicode scalar values. The two orders differ only between characters outside the Basic Multilingual Plane and the code points U+E000 to U+FFFF.
- The special key `__proto__`, which assignment and spread treat differently from other keys, is not modelled.
- The parsed target is taken to be a JSON object with string values and without an own key `hasOwnProperty`. Line 33 calls `targetData.hasOwnProperty(key)`. On a target that parses to `null`, or that has an own key `hasOwnProperty`, that call throws a TypeError and the run aborts: that target is not written, the remaining locales are skipped and the source is not written back (line 57). The model does not capture this failure.
- Sync.TagMissing: requires that the merged dictionary already holds every source key. Lines 25-29 always guarantee this. Without it, the loop's assignments could append keys.
