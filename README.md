# createActions (redux-actions), modelled in Dafny

This project models `createActions`, the entry point of redux-actions that turns a
declarative description into a map of action creators:

```js
createActions(actionMap, ...identityActions)
createActions(type, ...moreTypes, options?)
```

The model follows src/createActions.js step by step:

1. **Options.** A trailing plain object is popped off the rest array. It becomes the
   options, and `namespace` falls back to `defaultNamespace`. The pop updates the rest
   array in place, so it is modelled as a class `ArgList` with a `Pop` method, used by
   the method `GetFullOptions`. The function `FullOptions` specifies it.
2. **Argument check.** Every remaining identity action must be a string. The first
   argument must be a string or a plain object. Otherwise the call fails with
   "Expected optional object followed by string action types".
3. **String first argument.** The first argument and the identity actions together
   become identity-payload creators, keyed by `camelCase(type)`.
4. **Object first argument.** The map is flattened and every leaf is checked.
   One creator is built per leaf, and the result is re-nested. The identity-action
   creators are then spread over it, so they win on a shared key.

Files:

- `js.dfy` (module `Js`): the JavaScript values the code inspects (`JsValue`) and plain
  objects with their key order (`Obj`). It also holds object spread (`Spread`), lodash
  `defaults` and `last`, and a `Result` type for a call that throws.
- `collaborators.dfy` (module `Collaborators`): the helpers imported from files that are
  not part of this model. `camelCase`, `flattenActionMap`, `unflattenActionCreators` and
  `defaultNamespace` are fields of `Env`, so every result holds whatever they compute.
  `arrayToObject` is the left fold from `{}` that its callers rely on. If a step throws,
  the fold fails with that error. `createAction` is modelled only as the binding of its
  arguments to its parameters `(type, payloadCreator = identity, metaCreator)`. An action
  creator is the record `ActionCreator(actionType, payloadCreator, metaCreator)`, not a
  closure.
- `create_actions.dfy` (module `CreateActions`): the four functions of the source file,
  with their folds and the lemmas about those folds.
- `properties.dfy` (module `CreateActionsProperties`): what a call to `createActions`
  promises.

The lodash predicates (`isString`, `isPlainObject`, `isFunction`, `isArray`) are
constructor tests on `JsValue`. `invariant` becomes a `Failure` carrying the message.

Two behaviours of the code are worth stating plainly:

- A valid array leaf is any array whose first element is a function or `undefined`, and whose
  second element is a function. Further elements are passed to `createAction` and ignored
  by its signature.
- The leaf error message says "Expected function, undefined, or array ...". Even so, a
  leaf that is itself `undefined` is rejected (`LeafValidity`). `undefined` is accepted
  only in the payload position of an array.

## Model

| member | source | states |
|---|---|---|
| `Js.Last` | src/createActions.js:20 | lodash `last`: `undefined` for an empty array, otherwise the element whose removal leaves the front of the array |
| `Js.Spread` | src/createActions.js:34-37 | `{...a, ...b}`: a key of `b` reads as `b`'s value and any other key reads as `a`'s. The keys are those of both objects, `a`'s come first in their original order, and the result is a well-formed object |
| `Js.Defaults` | src/createActions.js:23 | lodash `defaults(o, {namespace: d})`: `namespace` becomes `d` only when it reads as `undefined`, and every other property is unchanged |
| `Collaborators.ArrayToObject` | src/createActions.js:57-68 | `arrayToObject(xs, step)` as a left fold from `{}` that stops at the first step that throws. Its behaviour is stated by `ArrayToObjectTotal` and `ArrayToObjectFailure` |
| `Collaborators.ArrayToObjectTotal` | src/createActions.js:57-68 | `arrayToObject` (a left fold from `{}`) does not throw when its reducer never throws on the elements |
| `Collaborators.ArrayToObjectFailure` | src/createActions.js:57-68 | when `arrayToObject` throws, it throws the exception of the reducer on one of the elements |
| `Collaborators.ElementOr` | src/createActions.js:51 | destructuring with a default: the element at that index when it is present and not `undefined`, otherwise the default |
| `Collaborators.CreateAction` | src/createActions.js:64-66 | `createAction(type, ...args)` records `type`, the first argument as payload transform (identity when it is missing or `undefined`) and the second as meta transform |
| `CreateActions.IsValidActionMapValue` | src/createActions.js:47-55 | a valid leaf is a function or an array, and a valid array has at least two elements, the second a function. `LeafValidity` gives the exact condition |
| `CreateActions.CreatorFor` | src/createActions.js:64-66 | the creator for a leaf is an action creator of that key's type: an array leaf is spread into `createAction`, any other leaf is its single argument. `CreatorConstruction` gives the transforms |
| `CreateActions.ActionMapToActionCreators` | src/createActions.js:46-69 | succeeds iff every leaf in key order is valid. On failure the message names the first invalid key. On success there is exactly one creator per key of the flat map, under the same key and built from that key's leaf, with the keys in the same order |
| `CreateActions.CreatorFold` | src/createActions.js:57-63 | the creator fold over any key list fails iff some leaf is invalid, and then with the message for the first invalid key: all or nothing |
| `CreateActions.ActionCreatorsFromActionMap` | src/createActions.js:40-44 | fails iff a leaf of the flattened map is invalid, naming the first one. On success the result is the unflattening of a flat map holding exactly one creator per flattened key |
| `CreateActions.IdentityActionMap` | src/createActions.js:72-75 | the map `{[type]: identity}` has exactly the given types as keys, each bound to identity, in the input order when no type repeats |
| `CreateActions.IdentityActionCreators` | src/createActions.js:72-76 | the creators of that map: one per given type, of that type, with identity payload and no meta |
| `CreateActions.ActionCreatorsFromIdentityActions` | src/createActions.js:71-84 | the result is a well-formed object with the camel-cased name of every identity action as a key. `IdentityActionOutput` states that there are no other keys and what each holds |
| `CreateActions.IdentityActionOutput` | src/createActions.js:71-84 | the output keys are exactly the `camelCase(t)` of the input types. Each is bound to the creator of some type `t` with that camel-cased name, identity payload and no meta. The output is a well-formed object |
| `CreateActions.IdentityActionLastWins` | src/createActions.js:77-83 | when two types camel-case to the same key, the later type's creator is the one kept |
| `CreateActions.IdentityActionKeyOrder` | src/createActions.js:77-83 | when no camel-cased names collide, the output keys are `camelCase` of the types, in input order |
| `CreateActions.SetFold` | src/createActions.js:57-68 | an `arrayToObject` fold whose every step writes one key cannot fail. It builds a well-formed object whose keys are exactly the written keys, the last write to a key wins, and distinct keys keep the input order |
| `CreateActions.FullOptions` | src/createActions.js:19-25 | a trailing plain object is split off, and the list is then exactly the rest. Otherwise the list is unchanged. `namespace` is the given one unless it is `undefined`, else `defaultNamespace`. Other options pass through |
| `CreateActions.Dispatch` | src/createActions.js:26-37 | after the options are split off, the call fails with the arguments message iff the identity actions are not all strings or the first argument is neither a string nor a plain object. A well-shaped call with a string first argument never fails |
| `CreateActions.CreateActionsModel` | src/createActions.js:18-38 | `createActions` as a function of its arguments: a call that succeeds had well-shaped arguments once the options object was removed |
| `CreateActions.ArgList.constructor` | src/createActions.js:18 | the rest array holds the trailing arguments |
| `CreateActions.ArgList.Pop` | src/createActions.js:21 | `pop` returns the last element and removes it in place. On an empty array it returns `undefined` and changes nothing |
| `CreateActions.GetFullOptions` | src/createActions.js:19-25 | after the in-place pop, the rest array and the returned options are those `FullOptions` gives for the original arguments |
| `CreateActions.CreateActions` | src/createActions.js:18-38 | the imperative call (rest array, `getFullOptions`, dispatch) returns exactly `CreateActionsModel` of its arguments |
| `CreateActionsProperties.LeafValidity` | src/createActions.js:47-55 | a leaf is valid iff it is a function, or an array of at least two elements whose first is a function or `undefined` and whose second is a function |
| `CreateActionsProperties.CreatorConstruction` | src/createActions.js:64-66 | a valid leaf yields a creator of its type whose payload transform is a function. A function leaf is the payload with no meta. An array leaf gives its first element (identity when `undefined`) and its second as meta |
| `CreateActionsProperties.ArgumentCheck` | src/createActions.js:26-30 | the call fails with the arguments message iff, after the options object is removed, some identity action is not a string or the first argument is neither a string nor a plain object |
| `CreateActionsProperties.StringFirstArgument` | src/createActions.js:31-33 | with a string first argument, the result is exactly the identity-action creators of `[actionMap, ...identityActions]`: its keys are exactly the `camelCase(t)` of those types, each holding the identity creator of such a type. It does not change when the flattening helpers or the default namespace are replaced |
| `CreateActionsProperties.MergeOrder` | src/createActions.js:34-37 | with an object first argument, a leaf failure is the call's failure. Otherwise the keys are the union of both parts, and on a shared key the identity-action creator wins |
| `CreateActionsProperties.IdentityActionsWin` | src/createActions.js:34-37 | when the action map succeeds, `camelCase(t)` of every identity action `t` holds the identity creator of some type with that camel-cased name, whatever the action map put there |
| `CreateActionsProperties.IdentityActionsDistinctKeys` | src/createActions.js:71-84 | a type whose camel-cased name no other type shares gets its own identity creator under that name |

## Left out

- Bodies of `camelCase`, `flattenActionMap`, `unflattenActionCreators` and `defaultNamespace`: these live in files that are not part of this model. They are parameters (`Env`), and no property depends on what they compute. Properties of the namespace round trip (unflatten after flatten) therefore cannot be stated.
- Exceptions thrown by those helpers (for instance on an unusual namespace value) are not modelled. They are taken to return normally.
- `createAction`'s body is not part of this model: the action object a creator builds when called, the `error: true` flag for Error payloads, and `createAction`'s own argument checks. Calling a creator runs user transforms that the model cannot see.
- lodash `isPlainObject` and `defaults` consult prototypes (inherited properties, objects with a null prototype). The model uses constructor tests and own properties only.
- `Object.keys` lists integer-like keys first in ascending order. The model keeps plain insertion order for every key.
- lodash `defaults` writes `namespace` into the caller's own options object. The model treats objects as values, so this aliasing side effect is not captured.
- Sparse arrays, getters and proxies are not modelled. An array is its sequence of elements.
- `invariant`'s formatting of the thrown error (error class, message prefix) is not modelled. A `Failure` carries the message text.
- IdentityActionLastWins: stated only when no type is repeated. With repeats, the winner is the last type among the first occurrences.
- IdentityActionKeyOrder: stated only when no camel-cased names collide.
