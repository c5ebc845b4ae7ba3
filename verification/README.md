# Provide/inject resolution of a Vue 2 component tree

This project models `src/core/instance/inject.js` of Vue 2: how a component
instance publishes values for its descendants (`initProvide`), how an
instance's `inject` option is resolved by walking from the instance up through
its `$parent` links to the nearest instance whose `_provided` map holds the
requested key (`resolveInject`), and how the resolved values are installed as
reactive properties while the global `observerState.shouldConvert` flag is
switched off (`initInjections`).

Files and modules:

- `tree.dfy`, module `Tree`: property keys (`Key`: a string or a symbol), an
  instance (`Node`: `$parent` index and optional `_provided` map), the arena of
  instances with parent indices smaller than the child's (`WellFormed`), the
  lookup test `Provides`, and the ancestor chain `Chain`.
- `provide.dfy`, module `Provide`: the `provide` option as a tagged variant
  (static object, or function whose result is given already evaluated) and
  `InitProvide`.
- `resolve.dfy`, module `Resolve`: the walk `FindSource`, the request loop
  `ResolveEntries`, `ResolveInject`, and the lemmas relating them to the
  ancestor chain and to the warnings.
- `install.dfy`, module `Install`: `DefineReactive` as an abstract property
  write, the install loop `DefineEach`, and the `InitInjections` method over
  the runtime state (every instance's properties plus `shouldConvert`),
  together with `InitInjectionsAllKeys`, the install step corrected to define
  symbol-named entries too.

`process.env.NODE_ENV !== 'production'` is the boolean parameter `dev`. A
warning is the pair (local name, requesting instance); its text is not
modelled.

Edge cases of the source the model keeps:

- The walk starts at the requesting instance itself (`let source = vm`,
  inject.js:55), so an instance can resolve a request from its own
  `_provided`.
- A present but empty `inject` object is truthy (inject.js:44), so
  `resolveInject` returns an empty result object, not nothing, and
  `initInjections` still toggles the flag (inject.js:21-38).
- `shouldConvert` is set to `true` after installation (inject.js:38), not
  restored to the value it had before; when `inject` is absent the flag is
  not touched (inject.js:21).
- Request names are listed with `Reflect.ownKeys` where symbols exist
  (inject.js:48-50), but the install loop iterates `Object.keys(result)`
  (inject.js:23), which lists string keys only: a symbol-named injection
  that is found is resolved without a warning and never defined on the
  instance (see Findings).

## Model

| member | source | states |
|---|---|---|
| Provide.InitProvideFeedsWalk | VueCodes/vue/src/core/instance/inject.js:9-16 | The map initProvide stores is the one the walk consults: a walk started at the instance stops there exactly when the static object, or the object the `provide` function returned, holds the key, and then yields that object's value; no option, or a falsy return, never stops the walk there |
| Provide.NoProvideSameAsEmptyProvide | VueCodes/vue/src/core/instance/inject.js:9-16 | An instance with no `provide` option and one providing a static empty object are indistinguishable to every walk |
| Tree.Chain | VueCodes/vue/src/core/instance/inject.js:55-63 | The sequence of instances the walk can visit starts at the requester, follows `$parent` links at every step, stays within the arena and ends at an instance with no parent |
| Resolve.FindSource | VueCodes/vue/src/core/instance/inject.js:55-63 | Where the walk stops provides the key and is the requester or one of its ancestors; if the requester itself provides the key the walk stops there; a parentless instance that lacks the key ends the walk with nothing found |
| Resolve.FindSourceIsNearestOnChain | VueCodes/vue/src/core/instance/inject.js:55-63 | The walk finds nothing exactly when no instance on the ancestor chain provides the key; otherwise it stops at the nearest such instance, every earlier instance on the chain (absent map or missing key) having been skipped |
| Resolve.AncestorsBeyondSourceIgnored | VueCodes/vue/src/core/instance/inject.js:56-60 | Once a source is found the walk breaks: replacing any instance beyond the source, including every higher ancestor, does not change the outcome |
| Resolve.EmptyProvideNeverMatches | VueCodes/vue/src/core/instance/inject.js:57 | An instance publishing an empty map is skipped exactly like one publishing nothing: turning `{}` into an absent `_provided` changes no walk |
| Resolve.ResolveEntries | VueCodes/vue/src/core/instance/inject.js:47-67 | The result starts empty and its keys are exactly the requested names whose key is provided somewhere on the chain; production mode warns never; every warning names the requester and a requested name that was not found; development mode warns for every name not found |
| Resolve.ResolvedValuesAreProvided | VueCodes/vue/src/core/instance/inject.js:52-59 | With distinct local names, each found name holds the value the source instance's `_provided` map has for the requested key |
| Resolve.MissingWarnedExactlyOnce | VueCodes/vue/src/core/instance/inject.js:64-66 | In development mode each requested name that is not found gets exactly one "not found" warning, and a found name gets none |
| Resolve.MissingWarningsInOrder | VueCodes/vue/src/core/instance/inject.js:52-66 | Warnings follow the iteration order of the request keys: for two missing entries the earlier entry's warning comes before the later one's |
| Resolve.ResolveInject | VueCodes/vue/src/core/instance/inject.js:43-70 | An absent `inject` yields no result and no warnings; a present one always yields a result object, empty for an empty `inject`, holding only requested names |
| Resolve.ResolvedIffProvidedOnChain | VueCodes/vue/src/core/instance/inject.js:52-63 | Nearest-ancestor-wins, domain: a requested name is resolved exactly when some instance on the requester's chain (the requester first) provides its key |
| Resolve.ResolvedHoldsNearestValue | VueCodes/vue/src/core/instance/inject.js:52-63 | Nearest-ancestor-wins, values: a resolved name holds the value published by the nearest instance on the chain that provides its key; farther providers are not used |
| Install.DefineReactive | VueCodes/vue/src/core/instance/inject.js:26-35 | Defining a property sets exactly that key, recording whether a mutation-warning setter was passed and the conversion flag at that moment; other properties are unchanged |
| Install.DefineEach | VueCodes/vue/src/core/instance/inject.js:23-37 | The `forEach` over the chosen keys defines each of them with its resolved value and the given setter and conversion flags, and leaves every other property as it was |
| Install.InitInjections | VueCodes/vue/src/core/instance/inject.js:19-40 | An absent `inject` changes no property and leaves `shouldConvert` alone; otherwise every string-named result key is defined on the requester with its resolved value, the dev-mode warning setter and conversion off, symbol-named result keys and all other properties and instances are left as they were, and `shouldConvert` is `true` afterwards; the warnings are the resolver's |
| Install.StringKeys | VueCodes/vue/src/core/instance/inject.js:23 | `Object.keys(result)`: its keys are exactly the string-named keys of the result, symbol-named ones excluded |
| Install.SymbolNamedInjectionSkipped | VueCodes/vue/src/core/instance/inject.js:23 | A symbol-named request whose key the requester provides resolves to the provided value with no warning, yet its name is not among the string keys the install loop defines |
| Install.InitInjectionsAllKeys | VueCodes/vue/src/core/instance/inject.js:19-40 | The corrected install step: every resolved entry, string- or symbol-named, is defined on the requester with its value, the dev-mode setter and conversion off; nothing else changes and `shouldConvert` is `true` afterwards |

## Left out

- `defineReactive` and the observer system are not part of this model; a defined property is an abstract write that records the setter flag and `shouldConvert`.
- The mutation-warning setter (lines 26-33) runs inside `defineReactive`; the model records only that development mode passes one and production mode does not.
- Warning text and the `warn` utility: warnings are (name, instance) events.
- Resolve.ResolveEntries: in development mode a symbol-named request that is not found makes the template literal at inject.js:65 throw (a Symbol cannot be converted to a string), which aborts resolveInject, so later entries are neither resolved nor warned and initInjections defines nothing and leaves `shouldConvert` alone. The model instead records a `NotFound` warning and carries on; Resolve.MissingWarnedExactlyOnce, Resolve.MissingWarningsInOrder and Install.InitInjections inherit this and describe the source only when every missing name in development mode is a string. Production mode is not affected (inject.js:64 short-circuits).
- Resolve.MissingWarnedExactlyOnce: holds of the source only when no missing name is a symbol, for the reason given under Resolve.ResolveEntries.
- Resolve.MissingWarningsInOrder: holds of the source only when no missing name is a symbol, for the reason given under Resolve.ResolveEntries.
- Install.InitInjections: when a symbol-named request is missing in development mode the source throws before defining anything (see Resolve.ResolveEntries); the model's final state describes only the other cases.
- JavaScript key semantics: `hasSymbol` choosing `Reflect.ownKeys` or `Object.keys`, the prototype-chain lookup of `in`, and `Object.create(null)`. The `inject` object is given as its sequence of own entries in iteration order, keys are opaque `Key` values, and `_provided` is a finite map.
- Calling the `provide` function with `this` bound to the instance: its return value is given already evaluated.
- A truthy `provide` value that is not an object, given statically (inject.js:14) or returned by the function (inject.js:13), is stored as `_provided`, and the `in` test of a later walk reaching it (inject.js:57) throws; the model only has object (map) or absent values.
- The component lifecycle and how `$parent` links are built: the arena is given, with parent indices smaller than the child's.
- `Object.keys(result)` order in the install loop: the loop picks the string keys in any order, which does not affect the final state because the keys are distinct; that it skips symbol keys is modelled.
- Resolve.ResolvedValuesAreProvided: assumes distinct local names, which every JavaScript object has; with repeated names the model keeps the last write, as the source's `result[key] =` would, but no lemma states it.

## Findings

| source | as written | input that shows it | evidently intended | confidence | as-written member | corrected member |
|---|---|---|---|---|---|---|
| VueCodes/vue/src/core/instance/inject.js:23 | `Object.keys(result)` lists only the string keys of the result, while the request names come from `Reflect.ownKeys` (lines 48-50) and may be symbols | `inject = { [sym]: 'a' }` on an instance whose own `_provided` is `{ a: 7 }`: `resolveInject` returns `{ [sym]: 7 }` with no warning, and the instance never gets the `sym` property (`Install.SymbolNamedInjectionSkipped`) | every resolved entry, symbol-named ones included, is defined on the instance | low, not executed | Install.InitInjections | Install.InitInjectionsAllKeys |
