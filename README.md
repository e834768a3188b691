# eachr, modelled in Dafny

`eachr(subject, callback)` walks an array, a plain object or a `Map`. For each
entry it calls `callback(value, key, subject)`. It stops the first time the
callback returns exactly `false`, and it returns the subject it was given.
Anything else it is given makes it throw before the callback runs.

The model has four modules:

- `JsValues` (js_values.dfy): the values a callback can return, JavaScript
  falsiness, and the strict comparison `=== false`.
- `Eachr` (eachr.dfy): the subject as a tagged datatype, and the traversal
  order of each kind (`Entries`). It has two specification functions. `Walk`
  is the traversal with the early exit. `WalkAll` is a reference traversal
  that never stops early. The method `Each` is eachr itself: it dispatches to
  one of three loops (`EachIndex`, `EachOwnKey`, `EachMapEntry`). Each loop
  works like its counterpart in the source and leaves by `break`. Each one is
  proved equal to `Walk` over the subject's entries.
- `EachrProperties` (eachr_properties.dfy): what eachr promises about the calls
  it makes.
- `EachrScenarios` (eachr_scenarios.dfy): the documented example, and an object
  and a Map whose entries are collected.

The callback is a total function `(state, value, key, subject) -> (state, reply)`.
Its side effects, such as the documented example's `console.log`, are the state
that it threads from call to call. Each call is recorded as a `Call`: the entry
passed in and the reply that came back.

A plain object is described by two things. The first is the key sequence that
`for...in` enumerates: own and inherited enumerable keys, in the engine's order.
The second is its own properties, as a map. The source's own-key filter
`subject.hasOwnProperty(key)` becomes `key in own`. This is what
`Object.prototype.hasOwnProperty` computes; an object that shadows that method
with an own property of the same name is outside the model (see "Left out").

Dispatch order: the source tests array, then plain object, then Map
(source/index.js:35, 42, 51), and the model does the same. Because the subject's tags
are disjoint, the order of the tests cannot change which traversal runs.

## Model

| member | source | states |
|---|---|---|
| `JsValues.StrictFalseIsOnlyFalse` | source/index.js:38 | the stop test `reply === false` holds for the boolean `false` and for no other value |
| `JsValues.OtherFalsyValuesContinue` | source/index.js:38 | the falsy values that do not stop the iteration are exactly undefined, null, 0, NaN, 0n and "" |
| `Eachr.Each` | source/index.js:33-67 | an unsupported subject throws the source's message, with zero calls and the callback state untouched; any other subject is returned unchanged, and the final callback state and the calls made are those of `Walk` over that subject's entries |
| `Eachr.EachIndex` | source/index.js:35-41 | the counter loop over indices 0..length-1, with its `break`, makes the same calls as `Walk` over the array's entries and leaves the callback in the same final state |
| `Eachr.EachOwnKey` | source/index.js:42-50 | the `for...in` loop with the own-property filter (as `Object.prototype.hasOwnProperty` computes it) and its `break` makes the same calls as `Walk` over the object's own-key entries and leaves the callback in the same final state |
| `Eachr.EachMapEntry` | source/index.js:51-59 | the loop that pulls one entry at a time from `entries()`, with its `break`, makes the same calls as `Walk` over the Map's entries and leaves the callback in the same final state |
| `Eachr.Entries` | source/index.js:35-59 | there is one traversal per kind: array keys are all indices (one per element), object keys are all property names, Map keys are all Map keys (one per entry), and an unsupported subject has no entries |
| `Eachr.ObjectEntries` | source/index.js:43-45 | the own-key filter reaches at most one entry per enumerated key, and every entry it reaches is keyed by a property name |
| `Eachr.Walk` | source/index.js:38-39 | the walk never makes more calls than there are entries |
| `Eachr.WalkAll` | source/index.js:36-37 | with no early exit, the callback gets exactly one call per entry, the i-th call on the i-th entry |
| `Eachr.WalkHaltedStable` | source/index.js:38-39 | once a call has returned `false`, the entries after it change neither the calls nor the callback state |
| `Eachr.WalkSnoc` | source/index.js:36-40 | while no call has returned `false`, one more entry means exactly one more callback call, on that entry |
| `Eachr.ObjectEntriesAppend` | source/index.js:43-45 | filtering two key lists one after the other gives the entries of the first list, then those of the second |
| `Eachr.ObjectEntriesSnoc` | source/index.js:43-45 | one more enumerated key adds its entry, with the own value, exactly when it is an own property |
| `Eachr.ObjectEntriesPrefix` | source/index.js:43-45 | the entries reached by the first j enumerated keys come first, in order |
| `EachrProperties.WalkVisitsPrefixUntilFalse` | source/index.js:36-59 | the calls are made on a prefix of the traversal order, in order; every call before the last returned something other than `false`; the walk ends early only right after a `false` |
| `EachrProperties.WalkIsWalkAllOfVisited` | source/index.js:36-59 | the early-exit walk equals the uninterrupted traversal of exactly the entries it reached |
| `EachrProperties.WalkAllPrefix` | source/index.js:36-59 | the uninterrupted traversal of the first j entries makes the first j calls of the uninterrupted traversal of all of them |
| `EachrProperties.WalkIsFullTraversalCutAtFirstFalse` | source/index.js:38-39 | the visited calls are the uninterrupted traversal's calls, up to and including its first `false` (or all of them if none), and the callback's final state matches; no later entry is visited |
| `EachrProperties.NoFalseReplyVisitsAll` | source/index.js:38 | if no call the walk makes returns `false` (whatever else it returns: undefined, null, 0, "" included), the callback is called once on every entry and the walk is the uninterrupted traversal |
| `EachrProperties.NeverFalseCallbackVisitsAll` | source/index.js:38 | a callback that returns `false` for no state and input at all is called once on every entry |
| `EachrProperties.StopOnCall` | source/index.js:38-39 | if the k-th call returns `false`, exactly k+1 calls are made, on the first k+1 entries |
| `EachrProperties.ArrayVisitsEveryIndex` | source/index.js:36-37 | for an array of length n on which no call returns `false`, there are exactly n calls, with keys 0..n-1 in ascending order and the element at that index as the value |
| `EachrProperties.ObjectEntriesAreOwn` | source/index.js:43-45 | the object traversal reaches exactly the enumerated keys that are own properties, each with its own value; inherited keys never appear |
| `EachrProperties.ObjectEntriesDistinct` | source/index.js:43-45 | if the enumeration repeats no key, no property name is reached twice |
| `EachrProperties.ObjectVisitsOnlyOwnKeys` | source/index.js:42-50 | every call on a plain object receives an own, enumerated key and that key's own value |
| `EachrProperties.ObjectVisitsEachKeyOnce` | source/index.js:42-50 | if the enumeration repeats no key, no property is visited twice |
| `EachrProperties.ObjectVisitsEveryOwnKey` | source/index.js:42-50 | when no call returns `false`, the callback is called on every own enumerable property, with its own value |
| `EachrProperties.MapVisitsEntriesInOrder` | source/index.js:51-59 | the i-th call on a Map receives the key and value of the Map's i-th entry; when no call returns `false`, the callback is called once per entry |
| `EachrScenarios.DocumentedExample` | source/index.js:17-23 | on ['hello','world','break','never'], the documented callback logs only 'hello' and 'world'; it is called on indices 0, 1 and 2, returns `false` on 'break', and never reaches 'never' |
| `EachrScenarios.ObjectExample` | source/index.js:42-50 | on `{a: 1, b: 'two'}` plus an inherited enumerable key, collecting gives ('a', 1) and then ('b', 'two'); the inherited key is skipped |
| `EachrScenarios.MapExample` | source/index.js:51-59 | on a Map with entries ('a', 1) and ('b', 'two'), collecting gives those pairs in insertion order |

## Left out

- The `typechecker` library (source/index.js:7) is not part of this model. Its `isArray`, `isPlainObject` and `isMap` tests are the subject's datatype tag.
- The engine's `for...in` order is not modelled. An object's enumeration order is given as an input sequence.
- The `this` binding from `callback.call(subject, ...)` is not modelled. The subject is passed to the callback explicitly.
- Callbacks that change the subject during iteration are not modelled, and neither are the array loop's live reads of `subject[key]`. The subject is an immutable value for the whole call.
- Exceptions thrown by the callback are not modelled. The callback is a total function.
- The Map iterator protocol (`entries()`, `next().value`) is modelled as a cursor into the Map's entry sequence. Every entry is a truthy `[key, value]` array, so the loop ends exactly when the entries run out.
- The model does not require Map keys to be distinct. It iterates whatever entry sequence it is given.
- Finite numbers are modelled as reals, with the two infinities and NaN as separate values, and bigints as integers. Symbols, objects and functions are opaque references. None of these can equal `false` under `===`, so this is enough for the stop test.
- Eachr.EachOwnKey: the filter `subject.hasOwnProperty(key)` (source/index.js:44) is modelled as `Object.prototype.hasOwnProperty`, i.e. `key in own`. An own property named `hasOwnProperty` shadows that method in the source: a non-function there makes the first enumerated key throw a TypeError before any callback call, and a function there decides the filter itself, possibly letting inherited keys through. Neither case is modelled, because the model's values cannot tell a function from a non-function.
- source/index.d.ts has only TypeScript overload declarations and no behaviour, so it is not modelled.
