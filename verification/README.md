# bitumen: `SortedSet`, `ifEmpty` and the type guards, in Dafny

This project models three parts of the bitumen TypeScript utility library:

- `SortedSet`. This is a `Set` that keeps its elements in a single array, in
  ascending order. The order and the equality come from the elements
  themselves. An object element is asked through its own `compareTo` and
  `equals`. Numbers are ordered by `<`/`>` and compared by `===`. Strings are
  ordered by collation and compared by `===`.
- `ifEmpty`. This returns a substitute when a value is "empty" for its type.
- `isObject` and `isComparable`. These are the runtime type guards `ifEmpty`
  and the comparable types are built on.

The modules follow the program's structure:

| module | file | models |
|---|---|---|
| `Order` | order.dfy | The comparator contract the set relies on. Its sign is a total preorder, and `eq` holds exactly where the comparator answers 0. Also defines strict ascending order of the stored array. |
| `Arrays` | arrays.dfy | `findIndex`, `some`, and two of the three `splice` forms the set uses (`splice(0)` is `SortedSets.Clear`). |
| `SortedSets` | sorted_set.dfy | The set as pure functions over its `elements` array: `add`, `delete`, `has`, `clear`, `entries`, `forEach` and the constructor. Also holds the lemmas about them. |
| `SortedSetObject` | sorted_set_object.dfy | The class itself. Its `elements` field holds the state, and each mutator applies the matching `SortedSets` operation. |
| `Numbers` | numbers.dfy | JavaScript numbers with `NaN`, and the numeric branch of `#compare`. |
| `Comparators` | comparators.dfy | `#compare` and `#areEqual` as a dispatch on the element's runtime type. Includes when that dispatch meets the contract, and three kinds of element that break it. |
| `JsValues` | js_values.dfy | JavaScript values as seen by `typeof`, `Array.isArray`, `Object.keys` and `in`. |
| `Guards` | guards.dfy | `isObject` and `isComparable`. |
| `Utils` | utils.dfy | `String.prototype.trim` and `ifEmpty`. |

Main results:

- The set stays strictly ascending. Construction and every mutation preserve
  this, as long as the elements' comparator and equality meet the contract.
- Membership after `add` and `delete` is exactly what a set promises.
  `add` is idempotent, and `delete` undoes an `add`.
- The stored array is determined by the members up to `equals`. Two sets
  built from the same values in any order hold elements that are pairwise
  equal. Of two equal values, the one added first is the one kept
  (`AddPresent`).
- Three kinds of element fall outside the contract:
  - `NaN` in a set of numbers;
  - a blank name under the naming mixin's equality;
  - two distinct strings that locale collation ties, as it does for
    canonically equivalent spellings, which `===` then tells apart.

  Each breaks the set, and a concrete lemma shows how.
- `forEach` ignores its `thisArg` (see "## Findings").
- `ifEmpty` returns its substitute exactly when the value is empty by the
  per-type rule its documentation gives.

## Model

| member | source | states |
|---|---|---|
| `Arrays.FindIndex` | src/collections/SortedSet.ts:25 | `findIndex` returns -1 exactly when no element satisfies the predicate. Otherwise it returns the first index that does. |
| `Arrays.Any` | src/collections/SortedSet.ts:68 | `some` holds exactly when some element satisfies the predicate. |
| `Arrays.Insert` | src/collections/SortedSet.ts:29 | `splice(i, 0, v)` puts `v` at `i` and shifts later elements right by one. It adds exactly `v` to the multiset of elements. |
| `Arrays.RemoveAt` | src/collections/SortedSet.ts:53 | `splice(i, 1)` drops the element at `i` and shifts later elements left by one. It removes exactly that element from the multiset. |
| `Arrays.RemoveInserted` | src/collections/SortedSet.ts:53 | Removing at `i` what was just inserted at `i` restores the array. |
| `Arrays.InsertRemoved` | src/collections/SortedSet.ts:29 | Inserting a removed element back at its index restores the array. |
| `SortedSets.Successor` | src/collections/SortedSet.ts:25 | The scan in `add` finds the first element that compares `>= 0` with the value. Every element before it compares `< 0`. It returns -1 exactly when all elements do. |
| `SortedSets.InsertionPoint` | src/collections/SortedSet.ts:25-27 | The index where `add` places a value: after every element ordered before it, and at the end when there is no successor. |
| `SortedSets.SuccessorOfMember` | src/collections/SortedSet.ts:25-28 | In an ascending set, the successor of a stored value is the index of the element equal to it. |
| `SortedSets.IndexOf` | src/collections/SortedSet.ts:51 | The scan in `delete` finds the first element equal to the value, or -1 when none is. |
| `SortedSets.Has` | src/collections/SortedSet.ts:67-69 | `has` holds exactly when some stored element is `#areEqual` to the value. |
| `SortedSets.Add` | src/collections/SortedSet.ts:24-32 | `add` either leaves the array unchanged, or grows it by exactly the added value and nothing else. |
| `SortedSets.AddAtSuccessor` | src/collections/SortedSet.ts:25-30 | Where `add` puts a value can be read off the comparisons alone: before the first element not ordered before it, or at the end. This holds provided that element is not equal to it. |
| `SortedSets.AddPresent` | src/collections/SortedSet.ts:28 | Adding a value equal to a stored element changes nothing. |
| `SortedSets.AddAbsent` | src/collections/SortedSet.ts:24-32 | An absent value is inserted at its insertion point, and the size grows by one. Every element before it is ordered before it, and every element after it is ordered after it. |
| `SortedSets.AddAscending` | src/collections/SortedSet.ts:24-32 | `add` keeps the array strictly ascending. |
| `SortedSets.AddHas` | src/collections/SortedSet.ts:24-32 | After `add(v)`, `has(x)` holds exactly when it held before or `x` equals `v`. |
| `SortedSets.AddIdempotent` | src/collections/__tests__/SortedSet.test.ts:34-37 | Adding the same value twice stores it once. |
| `SortedSets.Delete` | src/collections/SortedSet.ts:50-57 | `delete` reports `true` exactly when the value is a member. In that case it removes the first element equal to the value. Otherwise the array is unchanged. |
| `SortedSets.DeleteAscending` | src/collections/SortedSet.ts:50-57 | `delete` keeps the array strictly ascending. |
| `SortedSets.DeleteHas` | src/collections/SortedSet.ts:50-57 | After `delete(v)`, `has(x)` holds exactly when it held before and `x` does not equal `v`. |
| `SortedSets.AddThenDelete` | src/collections/SortedSet.ts:50-57 | Deleting a value that was just added as new reports `true` and restores the previous array. |
| `SortedSets.DeleteThenAdd` | src/collections/SortedSet.ts:24-32 | Re-adding a deleted value puts it in the slot of the element it replaced. |
| `SortedSets.Clear` | src/collections/SortedSet.ts:38-40 | `clear` leaves no elements. |
| `SortedSets.ClearEmpties` | src/collections/SortedSet.ts:38-40 | After `clear` the size is 0 and `has` is false for every value. |
| `SortedSets.Entries` | src/collections/SortedSet.ts:59-61 | `entries` pairs each stored element with itself, in stored order. |
| `SortedSets.ForEachFrom` | src/collections/SortedSet.ts:64 | The element loop from index `i` on has the effect of running the callback over the remaining elements' invocations, first to last. Each invocation gets the element as key and as value, plus the set. |
| `SortedSets.ForEach` | src/collections/SortedSet.ts:63-65 | `forEach` has the effect of running the callback once per element, in stored order, with `thisArg` as `this`. This is the intended behaviour; see "## Findings". |
| `SortedSets.ForEachAsWritten` | src/collections/SortedSet.ts:63-65 | As written, `forEach` runs the same calls, but every one of them is unbound, whatever `thisArg` is. |
| `SortedSets.ThisArgLost` | src/collections/SortedSet.ts:64 | On a one-element set given a `thisArg`, the call `forEach` makes as written has no receiver. The intended `forEach` passes `thisArg`. |
| `SortedSets.ForEachFollowsEntries` | src/collections/SortedSet.ts:63-65 | The calls `forEach` makes are exactly the pairs of `entries`, in order. Each is passed with the set itself and with `thisArg` as `this`. |
| `SortedSets.FromValues` | src/collections/SortedSet.ts:12-14 | The constructor stores only values it was given: the stored multiset is contained in the given one, so the size is at most the number of values. |
| `SortedSets.FromValuesSnoc` | src/collections/SortedSet.ts:12-14 | Constructing from values followed by `v` equals constructing from the values and then calling `add(v)`. |
| `SortedSets.FromValuesAscending` | src/collections/SortedSet.ts:12-14 | A constructed set is strictly ascending. |
| `SortedSets.FromValuesHas` | src/collections/SortedSet.ts:12-14 | A constructed set's members are exactly the values equal to one of the given values. |
| `SortedSets.FromAscending` | src/collections/SortedSet.ts:12-14 | Constructing from an already ascending array reproduces it. |
| `SortedSets.CopyRoundTrip` | src/collections/SortedSet.ts:12-14 | A set constructed from another set's elements equals that set. |
| `SortedSets.AscendingUnique` | src/collections/SortedSet.ts:10 | Two ascending arrays with the same members have the same length and pairwise-equal elements. |
| `SortedSets.ConstructionOrderIrrelevant` | src/collections/SortedSet.ts:12-14 | Sets constructed from the same values in any order agree element by element. |
| `SortedSetObject.SortedSet.constructor` | src/collections/SortedSet.ts:12-14 | The new set holds `SortedSets.FromValues(cmp, eq, values)`: it starts empty and adds each value through `add`, in order. The result is valid. |
| `SortedSetObject.SortedSet.Add` | src/collections/SortedSet.ts:24-32 | `add` updates the elements as `SortedSets.Add` does, keeps the set valid, and returns the set itself. |
| `SortedSetObject.SortedSet.Delete` | src/collections/SortedSet.ts:50-57 | `delete` reports and removes as `SortedSets.Delete` does, and keeps the set valid. |
| `SortedSetObject.SortedSet.Clear` | src/collections/SortedSet.ts:38-40 | `clear` empties the set. |
| `SortedSetObject.SortedSet.Has` | src/collections/SortedSet.ts:67-69 | The scan returns `true` exactly when some stored element is equal to the value. |
| `SortedSetObject.SortedSet.Size` | src/collections/SortedSet.ts:75-77 | `size` is the number of stored elements. |
| `SortedSetObject.SortedSet.Values` | src/collections/SortedSet.ts:16-18 | The iterator, which `keys` (lines 71-73) and `values` (lines 79-81) return, yields the stored elements in stored order. |
| `SortedSetObject.SortedSet.Entries` | src/collections/SortedSet.ts:59-61 | The loop pairs every stored element with itself, at its own index. |
| `SortedSetObject.AddTwice` | src/collections/__tests__/SortedSet.test.ts:34-37 | Chaining `add(v).add(v)` leaves the set as one `add(v)` does. |
| `Numbers.NumberCompare` | src/collections/SortedSet.ts:45-46 | The numeric comparator gives -1, 0 or 1 according to the sign of the difference. It gives 0 whenever either side is `NaN`. |
| `Comparators.TextCompare` | src/collections/SortedSet.ts:47 | String order gives -1, 0 or 1, and 0 exactly for equal strings. |
| `Comparators.Compare` | src/collections/SortedSet.ts:42-48 | `#compare` asks an object's `compareTo`. It orders numbers by `<`/`>`, with 0 when neither holds, which is always the case when `NaN` is involved. It orders strings by code-point order, with 0 exactly for equal strings. |
| `Comparators.AreEqual` | src/collections/SortedSet.ts:34-36 | `#areEqual` asks an object's `equals`. Otherwise it uses `===`, which holds exactly for the same number or string. It never holds across kinds, and never for `NaN`. |
| `Comparators.TextValid` | src/collections/SortedSet.ts:47 | Code-point order with `===`, the stand-in for collation, meets the set's comparator contract. |
| `Comparators.OrderedNumbersValid` | src/collections/SortedSet.ts:45-46 | Without `NaN`, numeric order with `===` meets the contract. |
| `Comparators.NaNStoredTwice` | src/collections/SortedSet.ts:34-46 | With `NaN` the contract fails, and adding `NaN` twice stores it twice. |
| `Comparators.ObjectDispatchValid` | src/collections/SortedSet.ts:43-44 | The dispatch meets the contract on objects whose `compareTo`/`equals` meet it. |
| `Comparators.TextDispatchValid` | src/collections/SortedSet.ts:47 | Under code-point order, the dispatch meets the contract on strings. |
| `Comparators.NumberDispatchValid` | src/collections/SortedSet.ts:45-46 | The dispatch meets the contract on numbers other than `NaN`. |
| `Comparators.ExampleOrder` | src/collections/__tests__/SortedSet.test.ts:39-41 | Adding baz, qux, foo and bar in turn yields bar, baz, foo, qux. |
| `Comparators.CollationTiesStoredTwice` | src/collections/SortedSet.ts:35-47 | A string order that answers 0 for two distinct strings breaks the contract under `===`. Adding both stores both. |
| `Comparators.BlankNameStoredTwice` | src/mixins/named.ts:15-26 | Blank names compare as 0 but are never equal. So the name-based elements break the contract: a blank-named element added twice is stored twice, and `has` finds a blank name in no set at all. |
| `Guards.IsObject` | src/types/guards.ts:7-9 | `isObject` holds exactly for every non-null object other than an array: plain objects, class instances, `Map`s, boxed primitives. It does not hold for `null`, arrays, functions or primitives. |
| `Guards.IsComparable` | src/types/guards.ts:3-5 | `isComparable` holds exactly for objects that have a `compareTo` or an `equals` property, own or inherited. It implies `isObject`. |
| `Guards.GuardExamples` | src/types/__tests__/guards.test.ts:5-19 | The guards' answers on the documented values. |
| `Utils.Trim` | src/utils/index.ts:26 | `trim` returns the slice between a whitespace prefix and a whitespace suffix. That slice neither starts nor ends with whitespace. |
| `Utils.TrimBlank` | src/utils/index.ts:26 | A string trims to `''` exactly when it consists only of whitespace. |
| `Utils.IfEmpty` | src/utils/index.ts:18-29 | The result is always the value or the substitute. It is the substitute exactly when the value is empty: an empty array, `NaN`, an object without keys, a whitespace-only string, `null` or `undefined`. |
| `Utils.IfEmptyExamples` | src/utils/__tests__/index.test.ts:20-46 | `ifEmpty`'s documented cases, one per type, including `false` not being empty. |

## Left out

- Comparators.TextCompare: strings are ordered by code point rather than by `localeCompare`'s locale collation. The collation tables are part of the runtime, not of this library. Collation can answer 0 for two canonically equivalent but distinct strings, which `===` then refuses. That is the same inconsistency `NaN` shows, and the ordinal order does not have it.
- Comparators.AreEqual: requires an object first operand to meet an object. Asking an object's `equals` about a number or a string depends on that object's own code.
- Comparators.Compare: requires both operands to be of the same runtime kind. Mixing objects, numbers and strings in one set leads into JavaScript's implicit coercions, which are not modelled.
- Comparators.BlankNameStoredTwice: models the naming mixin's order as ordinal. The accent- and case-insensitive `sensitivity: 'base'` comparison is not modelled. The deferral to a base class's own `equals` (named.ts:21-22) is not modelled either.
- Numbers: infinities and negative zero are not distinguished from finite values. Both behave consistently under `<`, `>` and `===`, so the set is unaffected.
- `[Symbol.toStringTag]` (SortedSet.ts:20-22) is left out. It renders elements through their own `toString`, which is outside the set's logic.
- `compareTo`, `equals` and the `forEach` callback are modelled as total functions that never throw. In the source, a throw from `compareTo` or `equals` leaves `add` and `delete` without effect, because their scans run before any `splice`. A throwing callback stops `forEach` partway through.
- Iterators are modelled as sequences of the stored elements. How a live iterator behaves when the set is changed during iteration is not modelled.
- The callback of `forEach` is modelled as a function of an accumulated state and one invocation. Its side effects are that state. In the source, `thisArg` has no effect: it binds the arrow function that wraps the callback, and arrow functions ignore that binding. `SortedSets.ForEachAsWritten` models this, and `SortedSets.ForEach` models the intended binding (see "## Findings").
- The `SortedSet` constructor with no argument is the constructor over an empty sequence.
- The rest of the library is not part of this model: `clone` and `nestInto` in the same utilities file, `ExternallyControlledPromise`, the `named` mixin beyond its blank-name equality, and the build configuration.
- JsValues: symbols, bigints and functions are kept only as far as `typeof` tells them apart. An object is reduced to its own enumerable keys and its other property names.
- Utils.IfEmpty: strings are sequences of Unicode characters, not of UTF-16 code units. This does not change what `trim` strips.

## Findings

| source | as written | input that shows it | evidently intended | confidence | as-written member | corrected member |
|---|---|---|---|---|---|---|
| src/collections/SortedSet.ts:63-65 | `thisArg` is passed to the array's `forEach`, which binds it to the arrow function wrapping the callback. Arrow functions ignore that binding, so the callback always runs unbound. | `set.forEach(function () { ... }, obj)` on a one-element set: inside the callback, `this` is `undefined`, not `obj`. | The callback runs with `thisArg` as `this`, as the `Set` interface the class implements promises. | high (not executed) | `SortedSets.ForEachAsWritten`, shown by `SortedSets.ThisArgLost` | `SortedSets.ForEach`, with `SortedSets.ForEachFollowsEntries` |
