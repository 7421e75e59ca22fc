# Dafny model of four JavaScript exercises

This project models four small JavaScript utilities and proves what each
one promises:

- `deepClone` (terceiro.js) copies a value recursively. Primitives come
  back unchanged. Dates, regular expressions, arrays, Maps, Sets and plain
  objects come back as new containers whose members are copies in turn.
  Only an object's own enumerable keys are copied.
- `flatten`, `flattenReduce`, `flattenIterative` and `flattenExplicado`
  (Dois.js) turn arbitrarily nested arrays into one flat array, in
  depth-first left-to-right order.
- `flattenObject` (Quarto.js) turns nested plain objects into one object
  with dotted keys (`user.name`), optionally under a prefix. Its `for...in`
  loop is modelled on every value it can meet, including a top-level array
  (keys `"0"`, `"1"`, ...) and a top-level string (one key per character).
- `top3MaisRepetidos` (primeiro.js) counts how often each number occurs,
  sorts the counts in descending order and keeps the first three.

JavaScript values are the datatype `JsValue.Value`. A plain object is an
ordered list of its own `(key, value)` fields plus the names of the
enumerable keys it inherits. `for...in` visits the own keys first and the
inherited ones after; `hasOwnProperty` filters the inherited ones out. A JS
object used as a dictionary is `OrderedDict.Dict`, a list of
`(key, value)` pairs:

- `Put` is `obj[key] = value`: it overwrites in place or adds a new key
  last in insertion order. JavaScript lists integer-like keys before the
  others when it enumerates an object; the dictionary does not (see
  "Left out").
- `Assign` is `Object.assign`.

Each loop of the source is a `method` with a loop invariant, proved equal
to a specification function. The properties are lemmas about those
functions:

- `Flatten.Flat` is the meaning of all four flatten variants.
- `DeepClone.Clone` is the meaning of `deepClone`.
- `FlattenObject.Flattened` is the meaning of `flattenObject`.
- `TopThree.TopThreeOf` is the meaning of `top3MaisRepetidos`.

`DeepCloneHeap` models `deepClone` a second time, on an explicit heap where
containers have identity. `Heap.DeepClone` allocates every node of the copy
afresh. What the copy denotes is the value-level `Clone` of what the
original denotes. A write to either side leaves the other unchanged.
This holds for the values the model has: there are no functions, which
`deepClone` would return by reference (see "Left out").

## Model

| member | source | states |
|---|---|---|
| DeepClone.DeepClone | terceiro.js:1-53 | The result is the structural clone of the input. Primitives (and `null`) are returned as they are; a Date keeps its time; a RegExp keeps its source and flags; arrays, Maps and Sets are copied element by element in order; an object becomes a plain object with exactly its own keys in order, each value cloned |
| DeepClone.CopyObject | terceiro.js:45-52 | The `for...in` loop with the `hasOwnProperty` filter builds the clone of the own fields and skips every inherited key |
| DeepClone.CopyArray | terceiro.js:18-24 | Each element is cloned in index order |
| DeepClone.CopyMap | terceiro.js:27-33 | Each entry's key and value are cloned, and insertion order is kept |
| DeepClone.CopySet | terceiro.js:36-42 | Each member is cloned, and insertion order is kept |
| DeepClone.CloneOfPlainIsEqual | terceiro.js:63-66 | A value with no inherited keys clones to a value equal to itself, so the copy prints like the original |
| DeepClone.CloneIsPlain | terceiro.js:45-52 | A clone is well formed and has no inherited keys anywhere, since every object copy is a fresh plain object |
| DeepClone.CloneIdempotent | terceiro.js:1-53 | Cloning a clone gives the same value again |
| DeepClone.SampleCopy | terceiro.js:56-63 | The sample object `{nome: "Ana", endereco: {cidade: "Luanda"}}` clones to an equal object |
| DeepCloneHeap.Heap.DeepClone | terceiro.js:1-53 | Nodes that existed before are unchanged. Every node of the copy is newly allocated and refers only to other new nodes. Primitives come back unchanged. The copy denotes `Clone` of what the original denotes |
| DeepCloneHeap.Heap.CopyArray | terceiro.js:18-24 | A new array node is allocated whose elements are fresh copies, in index order |
| DeepCloneHeap.Heap.CopyMap | terceiro.js:27-33 | A new Map node is allocated; for each entry the key is copied before the value |
| DeepCloneHeap.Heap.CopySet | terceiro.js:36-42 | A new Set node is allocated whose members are fresh copies, in order |
| DeepCloneHeap.Heap.CopyObject | terceiro.js:45-52 | A new plain object node is allocated, with no inherited keys and with fresh copies of the own fields |
| DeepCloneHeap.Heap.Alloc | terceiro.js:19 | `[]`, `new Map()`, `new Set()` and `{}` (terceiro.js:19, 28, 37, 45) create a node at a new address. Every older node is unchanged |
| DeepCloneHeap.Heap.CopyAll | terceiro.js:19-41 | The copying loop of the array branch (terceiro.js:19-23) and the Set branch (terceiro.js:37-41) copies every element in order. Each copy denotes the clone of its original, and the nodes that existed before are unchanged |
| DeepCloneHeap.Heap.CopyEntries | terceiro.js:28-31 | The Map's `forEach` loop copies each key and then its value. Entry `j` of the new Map holds the copies of key `j` and value `j` |
| DeepCloneHeap.Heap.CopyFields | terceiro.js:45-50 | The `for...in` loop over own fields keeps each key and stores a copy of its value, in order |
| DeepCloneHeap.Independent | terceiro.js:68-74 | Writing any node of the copy leaves the original unchanged, and writing any node of the original leaves the copy unchanged |
| DeepCloneHeap.DecodeAgree | terceiro.js:99-109 | What a group of nodes denotes depends only on those nodes, so writes anywhere else cannot change it |
| Flatten.Flat | Dois.js:6-20 | The result contains no arrays |
| Flatten.FlattenRecursive | Dois.js:6-20 | `flatten` returns `Flat(array)`: each non-array item in order, and each nested array replaced by its own flattening |
| Flatten.FlattenExplained | Dois.js:174-192 | `flattenExplicado` at any level returns the same result as `flatten` |
| Flatten.FlattenReduce | Dois.js:23-27 | `flattenReduce` equals `flatten` on every input |
| Flatten.ReduceConcat | Dois.js:24-26 | After folding the items into an accumulator, the result is the accumulator followed by the flattening of those items |
| Flatten.FlattenIterative | Dois.js:30-47 | The stack-based `flattenIterative` (pop from the end, unshift to the front) equals `flatten` on every input |
| Flatten.FlatAppend | Dois.js:9-17 | Flattening distributes over concatenation |
| Flatten.FlatLength | Dois.js:6-20 | The length of the flattened array is the number of non-array leaves |
| Flatten.FlatEmptyIff | Dois.js:92-95 | The result is empty if and only if the input holds nothing but (nested) empty arrays |
| Flatten.FlatOfFlat | Dois.js:6-20 | An array without nested arrays flattens to itself |
| Flatten.FlatIdempotent | Dois.js:6-20 | Flattening twice is the same as flattening once |
| Flatten.NestedExample | Dois.js:67-70 | The first test's nested array flattens to its leaves in order |
| Flatten.ComplexArrayExample | Dois.js:99-104 | `complexArray` flattens to the numbers 1 to 10, and `flattenReduce` gives the same array |
| Flatten.EmptyNestsExample | Dois.js:92-95 | `[[], [[]], [[[]], []]]` flattens to `[]` |
| OrderedDict.Get | Quarto.js:9 | Reading `obj[key]` (Quarto.js:9, terceiro.js:48) gives nothing exactly when the key is absent, and otherwise a value stored with that key |
| OrderedDict.Put | Quarto.js:14 | `obj[key] = value`: after the write the key maps to the value and all other keys are unchanged. An existing key keeps its position; a new key is added last in insertion order (JavaScript enumerates integer-like keys first, which the model does not). Unique keys stay unique |
| OrderedDict.PutFrom | Quarto.js:14 | Every pair after `obj[key] = value` was already in the object or is the new pair |
| OrderedDict.Assign | Quarto.js:11 | `Object.assign`: every key of the source maps to the source's last value for it, every other key keeps its old value, and unique keys stay unique |
| OrderedDict.AssignFrom | Quarto.js:11 | Every pair after `Object.assign` comes from the target or from the source |
| OrderedDict.LatestAppend | Quarto.js:11 | The last value of a key in two concatenated lists comes from the second list if the key is there, and from the first otherwise |
| OrderedDict.AssignIntoEmpty | Quarto.js:11 | Assigning an object with unique keys into `{}` gives that object back |
| FlattenObject.FlattenObject | Quarto.js:2-20 | The loop over `for...in` keys (own keys only; nested plain values recursed into with `prefix.key` and merged with `Object.assign`; every other value stored under its new key) returns `Flattened(obj, prefix)` |
| FlattenObject.VisitKey | Quarto.js:6-15 | One turn of the `for...in` loop: an inherited key changes nothing, a nested value is flattened under the new key and merged, and any other value is stored under the new key |
| FlattenObject.IndexKey | Quarto.js:5 | An array or string index is spelled as a non-empty string of decimal digits |
| FlattenObject.IndexKeyNoLeadingZero | Quarto.js:5 | Only index 0 is spelled with a leading zero |
| FlattenObject.IndexKeyRoundTrip | Quarto.js:5 | Reading an index's key back as a decimal number gives the index, so different indices give different keys |
| FlattenObject.VisitedKeysDistinct | Quarto.js:5-6 | `for...in` never visits an own key twice: on a well-formed object an own key is neither repeated nor enumerated again as an inherited key, and an array's or a string's index keys are all different |
| FlattenObject.EntryOwn | Quarto.js:5-9 | On a well-formed object, the own-key test at a visited key is `hasOwnProperty(key)`: it holds exactly when the key is among the own fields' keys, and then the value taken is `obj[key]`, the value `Get` finds for that key |
| FlattenObject.NewKey | Quarto.js:7 | An empty prefix leaves the key alone; otherwise the key becomes `prefix.key` |
| FlattenObject.FlattenedShape | Quarto.js:9-15 | The result has unique keys and no nested plain values, and under a non-empty prefix every key starts with `prefix.` |
| FlattenObject.FlattenedIsLatestLeaf | Quarto.js:5-17 | Every key of the result maps to the last value that the depth-first list of leaf paths gives it, and only those keys are present |
| FlattenObject.InheritedIgnored | Quarto.js:6 | Inherited enumerable keys never affect the result |
| FlattenObject.OneNested | Quarto.js:9-11 | An object whose only key holds a nested object flattens to that object flattened under the key |
| FlattenObject.TwoLeaves | Quarto.js:13-14 | Two non-nested values at different keys give two entries, in order |
| FlattenObject.UserExample | Quarto.js:24-31 | `{user: {name: "Ana", age: 20}}` flattens to `{"user.name": "Ana", "user.age": 20}` |
| FlattenObject.ArrayLeafExample | Quarto.js:65-72 | In `exemplo4`, the array of hobbies is stored whole under `user.hobbies`, not flattened |
| FlattenObject.DateLeavesNoEntry | Quarto.js:9 | A Date value is treated as a nested object with no own keys, so it produces no entry |
| TopThree.FirstOccurrences | primeiro.js:10-12 | The numbers in their order of first appearance are distinct and are exactly the numbers of the input |
| TopThree.CountFrequencies | primeiro.js:9-12 | The frequency table's keys are exactly the numbers in the input, and each maps to its number of occurrences |
| TopThree.CountsSumToLength | primeiro.js:9-12 | The counts add up to the length of the input |
| TopThree.Entries | primeiro.js:15-19 | `Object.entries(frequencia)` mapped to `{numero, contagem}` has one entry per distinct number, in `Object.entries` key order, each with that number's occurrence count |
| TopThree.ListEntries | primeiro.js:15-19 | Listing a frequency table in a given key order gives one entry per key, in that order, each holding the key's count |
| TopThree.ListEntriesOfCount | primeiro.js:9-19 | Listing the counted table in key order gives `Entries` of the input |
| TopThree.EntriesFaithful | primeiro.js:15-19 | The entries are distinct numbers of the input, every number of the input has one, and each count is correct |
| TopThree.KeyOrder | primeiro.js:15 | `Object.entries` lists every key exactly once |
| TopThree.KeyOrderShape | primeiro.js:15 | `Object.entries` lists the array-index keys first, in ascending order, and the other keys after them in insertion order |
| TopThree.SortByCount | primeiro.js:20 | The sort is a permutation and its counts do not increase |
| TopThree.TopThreeMostRepeated | primeiro.js:2-38 | A missing or empty input gives `[]`; otherwise the result is the first three entries of the sorted frequency list |
| TopThree.TopThreeSize | primeiro.js:23 | The result has `min(3, number of distinct values)` entries |
| TopThree.TopThreeOrdered | primeiro.js:20-23 | The result's counts do not increase |
| TopThree.TopThreeCounts | primeiro.js:15-23 | Each entry's number occurs in the input and its count is that number's occurrence count; the numbers are distinct |
| TopThree.TopThreeDominates | primeiro.js:20-23 | A number of the input that is left out occurs no more often than the third entry, and the result then has three entries |
| TopThree.PrefixDominates | primeiro.js:20-23 | In a correct list sorted by descending count, a number of the input that is missing from the first three means the list has at least three entries. That number's count is at most the third entry's count |
| TopThree.RankedFaithful | primeiro.js:15-20 | The sorted list has one correct entry per distinct number, with counts that do not increase |

## Left out

- Quinta.js and the other flatten variants in Dois.js (`flattenNative`, `flattenToString`) are not part of this model.
- Console output is not modelled: the logging in `flattenExplicado` and `top3MaisRepetidos`, and the demonstration runs.
- `flattenExplicado`'s `level` parameter only affects indentation in that logging, so it has no effect in the model.
- Numbers are integers. Floating point, `NaN`, `parseFloat` and number-to-string conversion are not modelled. Frequency keys are integers, and a key counts as an array index when it is between 0 and 2^32 - 2.
- DeepClone.DeepClone: on a cycle the source recurses until the call stack overflows and throws a RangeError; the model demands an acyclic input. `Value` is a tree; `DeepCloneHeap` requires every reference to point to an older node.
- DeepCloneHeap.Heap.CopyFields: it visits the own fields directly. `DeepClone.CopyObject` shows that the `for...in`/`hasOwnProperty` loop visits exactly these fields, in this order.
- DeepCloneHeap.Heap.DeepClone: allocation order is not modelled. A container node is allocated after its members' copies, so every reference points to an older node. JavaScript cannot observe allocation order.
- Aliasing inside the copy is not stated as a lemma. The source keeps no record of nodes it has already copied, so a node reached twice is copied twice. The model has the same behaviour (every visit allocates), but no lemma states it.
- Expando properties on Dates, Maps, Sets and arrays, array holes, symbols, getters and prototypes other than a list of inherited enumerable keys are not modelled.
- Map and Set: entries are kept as the source lists them. Key uniqueness under SameValueZero is not modelled. Cloned object keys are new objects and therefore distinct, and primitive keys come back unchanged, so they are as distinct as the original's keys.
- FlattenObject.FlattenObject: a string's `for...in` is modelled over Unicode characters (Dafny `char`), not UTF-16 code units. A character outside the Basic Multilingual Plane is one key holding the whole character, where JavaScript gives two keys holding the two surrogate halves. A lone surrogate is not a Dafny `char`.
- FlattenObject.VisitKey: for a string, `obj[key]` is the whole Unicode character at that index, not a UTF-16 code unit, for the same reason.
- OrderedDict.Put: a new key is added last in insertion order. JavaScript enumerates an object's integer-like keys first, in ascending order, and only then the other keys in insertion order: after `o = {a: 1}; o["5"] = 2` it lists `"5"` first, where `Put` lists it second. `TopThree.KeyOrder` models that order where the source reads it back with `Object.entries`.
- FlattenObject.FlattenObject: the result keeps insertion order, so on integer-like keys its order differs from JavaScript's: `flattenObject({0: {x: 1}, 1: 5})` lists `"1"` before `"0.x"` in JavaScript, while `Flattened` gives `"0.x"` then `"1"`. `FlattenedIsLatestLeaf` states the result key by key, and that statement holds in either order.
- DeepClone.DeepClone: `Object.prototype` is assumed to have no enumerable properties. A copy is built from `{}` (terceiro.js:45), which inherits whatever enumerable keys `Object.prototype` has, so after `Object.prototype.extra = 1` a `for...in` over `deepClone({a: 1})` visits `"extra"`. The model gives every object copy an empty inherited list, and `DeepClone.CloneIsPlain` (no inherited keys anywhere in a clone) holds only under this assumption. The same assumption lies under `frequencia[num] || 0` at primeiro.js:11, which reads through the prototype chain and which `TopThree.CountFrequencies` models as a lookup in the counted keys only.
- DeepClone.DeepClone: an own key named `hasOwnProperty` is not modelled. On `{hasOwnProperty: 1}` the source throws a TypeError at terceiro.js:47, since `obj.hasOwnProperty` is then not a function; the model treats it as an ordinary field and returns the clone.
- DeepClone.DeepClone: an own key `"__proto__"` (as `JSON.parse` can create) is not modelled specially. `objCopy[key] = ...` at terceiro.js:48 calls the inherited `__proto__` setter instead of adding a key. The copy takes the cloned value as its prototype when that value is an object or `null`, and otherwise the write is ignored (`JSON.parse('{"__proto__": 5}')` clones to `{}`); either way the copy has no such own key. The model copies it as an ordinary own field.
- DeepClone.CopyObject: the same two keys; the loop treats `hasOwnProperty` and `"__proto__"` as ordinary own fields, where the source throws a TypeError on the first and calls the prototype setter on the second.
- FlattenObject.FlattenObject: an own key named `hasOwnProperty` makes the source throw a TypeError at Quarto.js:6, and an own key `"__proto__"` at the top level (no prefix) whose value is not a nested object never reaches the result: `flattened[newKey] = ...` at Quarto.js:14 then calls the prototype setter instead of adding a key, so `flattenObject(JSON.parse('{"__proto__": 5}'))` is `{}`. The model treats both as ordinary keys.
- FlattenObject.VisitKey: the same two keys; one turn of the loop treats them as ordinary own keys.
- DeepCloneHeap.Independent: `JsValue.Value` has no functions. `typeof f !== 'object'` for a function, so `deepClone` returns it by reference and the copy shares it with the original, together with anything stored on it; independence is proved only for the values the model has.
- Flatten.FlattenIterative: in JavaScript the recursive variants (`flatten`, `flattenReduce`, `flattenExplicado`, and also `flattenObject` and `deepClone`) throw a RangeError once the nesting is deeper than the call stack allows, while the stack-based `flattenIterative` still returns. `flatten`, `flattenIterative` and `flattenExplicado` also spread a whole array into `push(...x)` (Dois.js:12, 39, 183), and engines limit how many arguments a call may take, so these throw a RangeError on a very wide array, where `flattenReduce` (`concat`) still returns. The model has neither limit, so "equals `flatten` on every input" holds in the model but not for inputs nested that deep or that wide.
- TopThree.SortByCount: `Array.prototype.sort` is stable, and `SortByCount` is a stable insertion sort. Stability itself is not stated as a lemma.
- TopThree.TopThreeMostRepeated: a non-array argument (for example a string) is not modelled. The input is absent or a list of integers.
