# Object definition registry and core errors

This project models two parts of the dependency-injection core of a Node.js framework.

**The object definition registry** (`ObjectDefinitionRegistry`) and its alias table
(`LegacyIdentifierRelation`).
- The alias table maps each name a component can be addressed by to the component's canonical UUID. The names are the UUID itself, the declared alias, the class name, `namespace:ClassName` and a function id.
- The registry keeps definitions and singleton instances in one JavaScript `Map`. An instance is stored under `"_id_default_" + identifier`. Entries are told apart only by whether that prefix occurs in the key.
- Every read first resolves its identifier through the installed relation and falls back to the literal identifier. The only exception is `removeDefinition`, which does no alias resolution. `registerObject` also writes its key without resolution.
- The registry also keeps an append-only list of singleton identifiers.

**The core error taxonomy.**
- `FrameworkErrorEnum` is a fixed code table. `SINGLETON_INJECT_REQUEST` is 1005 there, not 10005; the model keeps it as written.
- Each core error class builds its message from its parameters.
- `CoreDefinitionNotFoundError` carries a type tag that `isClosePrototypeOf` tests. Its `updateErrorMsg` rebuilds the message with the requesting class inserted.

How the model is organised:
- A JavaScript `Map` is an insertion-ordered association list (`JsMap`). A `set` on a present key overwrites the value in place and keeps the key's position. A `set` on a new key appends it. `delete` removes the key. The class invariant is that keys are distinct.
- Both classes are Dafny classes whose `storeMap` (and `singletonIds`) fields the methods reassign.
- Every state-changing method states its new state through a specification function: `JsMap.Set`, `JsMap.Delete`, `SaveClassRelationOf` and so on. The properties the source promises are lemmas about those functions.
- Identifiers are strings. A falsy component UUID, alias id or name (`undefined`, `null` or `""`) is modelled as `""`, so it is stored as `""`. An `undefined` returned for a missing key (`Map.get`, `getRelation`) is `None`. No stored value is ever `undefined` or `null` in the model; the lines for `GetRelation`, `GetObject` and `GetDefinitionByName` under "Left out" say what that leaves out.
- The errors are values of `CoreError`, which holds the error's class, its code, its message and the not-found tag. Template literals are written as concatenations of their parts (`Strings.Concat`).
- JavaScript's `indexOf` and `split(sep)[0]` are `Strings.IndexOf` and `Strings.SplitFirst`. Both are specified by where the separator occurs.

## Model

| member | source | states |
|---|---|---|
| Strings.IndexOf | packages/core/src/context/definitionRegistry.ts:80 | `indexOf` is -1 exactly when the pattern does not occur; otherwise it is the first occurrence |
| Strings.SplitFirst | packages/core/src/error/core.ts:86 | `split(sep)[0]` is the prefix before the first occurrence of `sep`, or the whole string when `sep` does not occur; the result never contains `sep` |
| Wrappers.Option.GetOr | packages/core/src/context/definitionRegistry.ts:117 | `x ?? d`: the value when present, `d` when `undefined` |
| JsMap.Has | packages/core/src/context/definitionRegistry.ts:127 | `Map.has(k)` is true exactly when some entry has key `k` |
| JsMap.Set | packages/core/src/context/definitionRegistry.ts:113 | after `Map.set(k, v)` the entry `(k, v)` is present, and the size grows by one exactly when `k` was new |
| JsMap.Delete | packages/core/src/context/definitionRegistry.ts:122 | after `Map.delete(k)` no entry has key `k`; the size shrinks exactly when `k` was present; entries with other keys are kept and none appear |
| JsMap.Get | packages/core/src/context/definitionRegistry.ts:118 | `Map.get` is defined exactly for present keys, and then yields the key's stored entry |
| JsMap.GetSet | packages/core/src/context/definitionRegistry.ts:113 | after `Map.set(k, v)`, `k` reads `v` (last write wins) and every other key reads as before |
| JsMap.KeysSet | packages/core/src/context/definitionRegistry.ts:113 | `Map.set` keeps the key order when the key is present and appends it otherwise |
| JsMap.SetNewAppends | packages/core/src/context/definitionRegistry.ts:113 | setting a new key appends exactly that entry |
| JsMap.SetDistinct | packages/core/src/context/definitionRegistry.ts:113 | `Map.set` keeps keys distinct |
| JsMap.GetSetAll | packages/core/src/context/definitionRegistry.ts:18-41 | after a sequence of `set`s of one value, exactly the written keys read that value |
| JsMap.GetDelete | packages/core/src/context/definitionRegistry.ts:122 | after `Map.delete(k)`, `k` is absent and every other key reads as before |
| JsMap.KeysDelete | packages/core/src/context/definitionRegistry.ts:122 | `Map.delete` removes the key and keeps the order of the rest |
| JsMap.DeleteDistinct | packages/core/src/context/definitionRegistry.ts:122 | `Map.delete` keeps keys distinct |
| JsMap.SizeIsKeyCount | packages/core/src/context/definitionRegistry.ts:88 | the `size` of a map is the number of its distinct keys |
| IdentifierRelation.SaveClassRelationOf | packages/core/src/context/definitionRegistry.ts:18-36 | afterwards the UUID always maps to itself, and distinct keys stay distinct |
| IdentifierRelation.SaveClassRelationSteps | packages/core/src/context/definitionRegistry.ts:19-35 | the new table is the chain of `set` calls the method performs, in source order and under the same guards |
| IdentifierRelation.SaveFunctionRelationOf | packages/core/src/context/definitionRegistry.ts:38-41 | afterwards the present keys are the old ones plus `uuid` and `id`, and distinct keys stay distinct |
| IdentifierRelation.SaveClassRelationResolves | packages/core/src/context/definitionRegistry.ts:19-34 | with a truthy UUID, the UUID, the class name, the truthy alias and the truthy `namespace:name` all resolve to the UUID; other keys are unchanged |
| IdentifierRelation.SaveClassRelationFalsyUuid | packages/core/src/context/definitionRegistry.ts:21-22 | with a falsy UUID only its self entry is written; no alias, name or namespace key is added |
| IdentifierRelation.SaveFunctionRelationResolves | packages/core/src/context/definitionRegistry.ts:38-41 | after `saveFunctionRelation(id, u)`, `u` and `id` resolve to `u` and other keys are unchanged |
| IdentifierRelation.SaveFunctionRelationLastWins | packages/core/src/context/definitionRegistry.ts:38-41 | a later `saveFunctionRelation` for the same id overwrites the earlier mapping, while the earlier UUID's self entry stays |
| IdentifierRelation.LegacyIdentifierRelation.constructor | packages/core/src/context/definitionRegistry.ts:17 | a new relation has an empty table |
| IdentifierRelation.LegacyIdentifierRelation.SaveClassRelation | packages/core/src/context/definitionRegistry.ts:18-36 | the table becomes the old table with the class's keys written in source order; keys stay distinct |
| IdentifierRelation.LegacyIdentifierRelation.SaveFunctionRelation | packages/core/src/context/definitionRegistry.ts:38-41 | the table becomes the old table with `uuid` then `id` written; keys stay distinct |
| IdentifierRelation.LegacyIdentifierRelation.HasRelation | packages/core/src/context/definitionRegistry.ts:43-45 | true exactly when the table has an entry for the id |
| IdentifierRelation.LegacyIdentifierRelation.GetRelation | packages/core/src/context/definitionRegistry.ts:47-53 | `undefined` exactly when `hasRelation` is false; otherwise the value stored for the id |
| DefinitionRegistry.InstanceKey | packages/core/src/context/definitionRegistry.ts:142 | the instance key starts with the prefix and the rest is the literal identifier |
| DefinitionRegistry.Resolve | packages/core/src/context/definitionRegistry.ts:117 | `getRelation(id) ?? id`: the stored canonical id when there is an entry, the literal id otherwise |
| DefinitionRegistry.IsInstanceKey | packages/core/src/context/definitionRegistry.ts:80 | `key.indexOf(PREFIX) !== -1` holds exactly when the prefix occurs anywhere in the key |
| DefinitionRegistry.LookupDefinition | packages/core/src/context/definitionRegistry.ts:117-118 | `getDefinition` finds a value exactly when the resolved key is stored, and then it is that key's entry; with no relation entry the literal key is looked up |
| DefinitionRegistry.LookupObject | packages/core/src/context/definitionRegistry.ts:146-147 | `getObject` finds a value exactly when the prefixed resolved key is stored, and then it is that key's entry; with no relation entry the prefixed literal key is looked up |
| DefinitionRegistry.InstanceKeyIsInstance | packages/core/src/context/definitionRegistry.ts:80 | a key written by `registerObject` is never listed by `identifiers` |
| DefinitionRegistry.IdentifiersExactly | packages/core/src/context/definitionRegistry.ts:77-85 | `identifiers` holds exactly the stored keys in which the prefix does not occur anywhere |
| DefinitionRegistry.IdentifiersAfterSet | packages/core/src/context/definitionRegistry.ts:77-85 | registering a new non-instance key appends it to `identifiers`; re-registering keeps the order; instance keys never show |
| DefinitionRegistry.IdentifiersAfterDelete | packages/core/src/context/definitionRegistry.ts:77-85 | `removeDefinition(k)` removes exactly `k` from `identifiers` and keeps the order of the rest |
| DefinitionRegistry.CountSplits | packages/core/src/context/definitionRegistry.ts:87-89 | `count` is the listed identifiers plus the instance keys |
| DefinitionRegistry.DefinitionsNamedExactly | packages/core/src/context/definitionRegistry.ts:95-104 | `getDefinitionByName(n)` holds exactly the stored values named `n`, instances included |
| DefinitionRegistry.ObjectsFoundByName | packages/core/src/context/definitionRegistry.ts:95-104 | an instance with a `name` property is returned by `getDefinitionByName` for that name |
| DefinitionRegistry.DuplicateNamesInRegistrationOrder | packages/core/src/context/definitionRegistry.ts:95-114 | two same-named definitions under new ids are both returned, in registration order, after the earlier matches |
| DefinitionRegistry.RemoveDefinitionLiteral | packages/core/src/context/definitionRegistry.ts:121-123 | `removeDefinition(id)` deletes the literal key only; every other key reads as before |
| DefinitionRegistry.RemovedDefinitionNotFound | packages/core/src/context/definitionRegistry.ts:116-123 | for an id that resolves to itself, `getDefinition` finds nothing after `removeDefinition` |
| DefinitionRegistry.RemoveByAliasKeepsCanonical | packages/core/src/context/definitionRegistry.ts:121-128 | removing by an alias leaves the canonical definition visible through that alias |
| DefinitionRegistry.ObjectVisibleThroughAlias | packages/core/src/context/definitionRegistry.ts:141-148 | an instance registered under the canonical id is visible through every alias resolving to it |
| DefinitionRegistry.ObjectUnderAliasNotResolved | packages/core/src/context/definitionRegistry.ts:141-148 | an instance registered under an alias of another id is not what `getObject(alias)` reads |
| DefinitionRegistry.RegisterObjectKeepsDefinitions | packages/core/src/context/definitionRegistry.ts:141-143 | registering an instance leaves `getDefinition` of every other resolved key as it was |
| DefinitionRegistry.ObjectOnlyRegistration | packages/core/src/context/definitionRegistry.ts:125-143 | registering only an instance leaves `hasDefinition` false and makes `hasObject` true |
| DefinitionRegistry.ClassFoundByEveryName | packages/core/src/context/definitionRegistry.ts:18-36 | a class registered under its UUID is found by its alias, class name, qualified name and UUID |
| DefinitionRegistry.ObjectDefinitionRegistry.constructor | packages/core/src/context/definitionRegistry.ts:62-64 | a new registry has an empty store, no singleton ids and a fresh empty relation |
| DefinitionRegistry.ObjectDefinitionRegistry.GetIdentifierRelation | packages/core/src/context/definitionRegistry.ts:66-71 | returns the installed relation, creating an empty default when none is installed |
| DefinitionRegistry.ObjectDefinitionRegistry.SetIdentifierRelation | packages/core/src/context/definitionRegistry.ts:73-75 | installs the given relation |
| DefinitionRegistry.ObjectDefinitionRegistry.Identifiers | packages/core/src/context/definitionRegistry.ts:77-85 | the keys without the prefix, in insertion order, and exactly those |
| DefinitionRegistry.ObjectDefinitionRegistry.Count | packages/core/src/context/definitionRegistry.ts:87-89 | the number of distinct keys, instances included |
| DefinitionRegistry.ObjectDefinitionRegistry.GetSingletonDefinitionIds | packages/core/src/context/definitionRegistry.ts:91-93 | the recorded singleton ids, as recorded |
| DefinitionRegistry.ObjectDefinitionRegistry.GetDefinitionByName | packages/core/src/context/definitionRegistry.ts:95-104 | every stored value named `name`, in insertion order, instances included, and only those |
| DefinitionRegistry.ObjectDefinitionRegistry.RegisterDefinition | packages/core/src/context/definitionRegistry.ts:106-114 | appends the id to the singleton ids iff singleton, without deduplication; upserts the definition, which then reads back |
| DefinitionRegistry.ObjectDefinitionRegistry.GetDefinition | packages/core/src/context/definitionRegistry.ts:116-119 | the value under the resolved identifier, the relation table unchanged |
| DefinitionRegistry.ObjectDefinitionRegistry.RemoveDefinition | packages/core/src/context/definitionRegistry.ts:121-123 | deletes the literal key, which is then absent |
| DefinitionRegistry.ObjectDefinitionRegistry.HasDefinition | packages/core/src/context/definitionRegistry.ts:125-128 | true exactly when `getDefinition` would find a value |
| DefinitionRegistry.ObjectDefinitionRegistry.HasObject | packages/core/src/context/definitionRegistry.ts:130-134 | true exactly when the prefixed resolved key is stored |
| DefinitionRegistry.ObjectDefinitionRegistry.ClearAll | packages/core/src/context/definitionRegistry.ts:136-139 | empties the store and the singleton ids; `count` is 0, `identifiers` empty, no instance found; the relation untouched |
| DefinitionRegistry.ObjectDefinitionRegistry.RegisterObject | packages/core/src/context/definitionRegistry.ts:141-143 | upserts under `PREFIX + identifier` without resolution; `identifiers` unchanged |
| DefinitionRegistry.ObjectDefinitionRegistry.GetObject | packages/core/src/context/definitionRegistry.ts:145-148 | the value under the prefixed resolved identifier |
| CoreErrors.CodeValue | packages/core/src/error/core.ts:7-18 | 99999 exactly for UNKNOWN, below 10000 exactly for SINGLETON_INJECT_REQUEST, and between 1005 and 10008 for every key but UNKNOWN |
| CoreErrors.CodesDistinct | packages/core/src/error/core.ts:7-18 | each key's number as the enum lists it (UNKNOWN 99999, COMMON 10000, MISSING_RESOLVER 10001, INCONSISTENT_VERSION 10002, MISSING_IMPORTS 10003, DEFINITION_NOT_FOUND 10004, SINGLETON_INJECT_REQUEST 1005, DUPLICATE_CLASS_NAME 10006, INVALID_CONFIG 10007, USE_WRONG_METHOD 10008), and the codes are pairwise distinct |
| CoreErrors.InvalidConfigError | packages/core/src/error/core.ts:20-24 | the message is the header followed by the given message, with code INVALID_CONFIG; an absent message builds no error |
| CoreErrors.UseWrongMethodError | packages/core/src/error/core.ts:26-33 | the whole message: `describeKey not valid by wrongMethod, Use replacedMethod instead!` when `describeKey` is truthy, `You should not invoked by wrongMethod, Use replacedMethod instead!` otherwise; both contain both method names; code USE_WRONG_METHOD |
| CoreErrors.CommonError | packages/core/src/error/core.ts:37-41 | the message as given, code COMMON |
| CoreErrors.ResolverMissingError | packages/core/src/error/core.ts:46-50 | the whole message is the resolver type followed by `" resolver is not exists!"`; code MISSING_RESOLVER |
| CoreErrors.MissingImportComponentError | packages/core/src/error/core.ts:55-60 | the whole message: the quoted name, then `can't inject and maybe forgot add "{imports: [***]}" in @Configuration.`; code MISSING_IMPORTS |
| CoreErrors.InconsistentVersionError | packages/core/src/error/core.ts:65-71 | the whole fixed message, which advises `"npm update"`; code INCONSISTENT_VERSION |
| CoreErrors.DefinitionNotFoundError | packages/core/src/error/core.ts:81-84 | tagged; the message is exactly the identifier followed by the suffix, and `split(suffix)[0]` gives the identifier back when it does not contain the suffix; code DEFINITION_NOT_FOUND |
| CoreErrors.SplitAtSuffix | packages/core/src/error/core.ts:86 | `(a + suffix).split(suffix)[0] == a` when `a` does not contain the suffix |
| CoreErrors.UpdatedMessage | packages/core/src/error/core.ts:86-87 | the new message opens with the text before the suffix, continues with `" in class " + className` and ends with the suffix; a message without the suffix is kept whole at the start |
| CoreErrors.UpdateFreshError | packages/core/src/error/core.ts:85-88 | on a fresh error, `updateErrorMsg(c)` yields `id + " in class " + c + suffix` |
| CoreErrors.UpdateTwiceNests | packages/core/src/error/core.ts:85-88 | a second `updateErrorMsg` nests another `" in class "` segment, so the update is not idempotent |
| CoreErrors.DuplicateClassNameError | packages/core/src/error/core.ts:91-98 | the whole message `"className" duplicated between "existPath" and "existPathOther"`; it opens with the quoted class name and contains both quoted paths; code DUPLICATE_CLASS_NAME |
| CoreErrors.SingletonInjectRequestError | packages/core/src/error/core.ts:103-108 | the whole message, part by part; it opens with the singleton name, and the request-scope name appears in the statement and in both remedies; code SINGLETON_INJECT_REQUEST |
| CoreErrors.IsClosePrototypeOf | packages/core/src/error/core.ts:78-80 | true only for a present error; for an error whose tag matches its class, true exactly when it is a definition-not-found error |
| CoreErrors.IsClosePrototypeOfClassifies | packages/core/src/error/core.ts:78-80 | the tag test is true exactly for definition-not-found errors, updated ones included, and false for `null`/`undefined` |
| CoreErrors.CoreDefinitionNotFoundError.constructor | packages/core/src/error/core.ts:81-84 | the object stands for the error `DefinitionNotFoundError(identifier)` |
| CoreErrors.CoreDefinitionNotFoundError.UpdateErrorMsg | packages/core/src/error/core.ts:85-88 | the message becomes the text before the suffix, `" in class "`, the class name and the suffix; nothing else changes |

## Left out

- JavaScript symbols as identifiers: identifiers are strings only, so `toString()` on them is the identity.
- `getComponentUUID`, `getComponentId` and `getComponentName` read reflect metadata in the decorator layer. Here they are fields of `ComponentModule`. A falsy result is `""`.
- The `IObjectDefinition` predicates (`isSingletonScope()` and the others) are opaque boolean fields of `ObjectDefinition`. The definition's other attributes and properties are not modelled.
- Stored instances are opaque `ManagedObject` values. They have a handle and an optional `name` property, which is what `getDefinitionByName` reads.
- The registry's relation may be any `IIdentifierRelationShip`. Only `LegacyIdentifierRelation`, the one the source defines, is modelled.
- `getSingletonDefinitionIds()` returns the live array, so a caller could mutate it. The model returns the sequence's value, so that aliasing is not captured.
- `BaseError` and `registerErrorCode` are not part of this model. Only the raw code number and the message are modelled; the stack, the name and any decoration of the code are not.
- The scope-violation enforcement and any concurrent-construction guard are not part of the core's code. Only the message of the violation error is modelled.
- GetRelation: `saveClassRelation` on a module with an `undefined` UUID stores `undefined` under the key `undefined`, so afterwards `hasRelation(undefined)` is true while `getRelation(undefined)` returns `undefined`. The model writes `""` under `""`, so `GetRelation("")` is `Some("")`. That matches the source for the UUID `""`, but not for `undefined` or `null`, because the model has no nullish value.
- GetObject: `registerObject(id, undefined)` stores `undefined`, so afterwards `hasObject(id)` is true while `getObject(id)` returns `undefined`. Targets in the model are always `ManagedObject` values, so `GetObject` is `Some` whenever `HasObject` is true.
- GetDefinitionByName: a `null` or `undefined` target stored by `registerObject` makes `getDefinitionByName` throw a `TypeError` when it reads `.name` (definitionRegistry.ts, line 99). Stored values in the model are always objects, so that exception is not modelled.
- DefinitionNotFoundError, UpdateFreshError and UpdateTwiceNests: `split(suffix)[0]` giving the identifier back is stated only for identifiers that do not contain the suffix. For an identifier that contains the suffix, the split cuts inside the identifier, and the model states only the message itself, not what `updateErrorMsg` makes of it.
- RemovedDefinitionNotFound: stated only for identifiers that resolve to themselves. RemoveByAliasKeepsCanonical covers the alias case, where the definition stays visible.

One might expect `hasDefinition(id)` to be false after `removeDefinition(id)`, but that does not hold for every identifier. `removeDefinition` deletes only the literal key, while `hasDefinition` resolves its identifier first. So after `removeDefinition(alias)`, `hasDefinition(alias)` stays true whenever the alias resolves to another stored identifier (`RemoveByAliasKeepsCanonical`). The expectation holds for identifiers that resolve to themselves (`RemovedDefinitionNotFound`).
