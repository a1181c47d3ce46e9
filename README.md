# A Dafny model of the ndb normaliser

`@normalized-db/normalizer` turns nested JSON-like data into a flat,
normalised form driven by a schema, and back. A schema names entity types.
Each type has a key property holding an item's identity, and a set of
relation properties ("targets") that point at other types, singly or as
arrays. The package's core is:

- **Schema building** (`impl/schema.ts`, `v3/schema.ts`): a configuration
  object becomes a schema. Types inherit from a named parent or from
  `@defaults`. Target shorthands are expanded, and a missing key path throws.
- **Normalising** (`impl/normalizer.ts`, `v3/normalizer.ts`): walks a nested
  value against the schema. Each item is stored once per identity in the
  table of its type, with its relations replaced. `keyMap` indexes each
  identity's row. A reference tree records the relations:
  - the impl generation records parents (`refs`) and children (`props`) per
    node, and deletes the relation from the stored copy;
  - the v3 generation records children only, writes the child keys into the
    stored copy, and may write `_refs` reverse references, which are merged
    as Sets.
- **Denormalising** (`impl/denormalizer.ts`, `v3/denormalizer.ts`): rebuilds
  an item from its identity down to a depth (a number, or a per-property
  map). It optionally deletes `_refs`. The impl generation can first
  `preload` tables through a caller-supplied loader.
- **Tree tools** (`impl/tools.ts`, `impl/state.ts`, `utils/ndb.ts`):
  - `findEntityKeys` collects, per type, the identities reachable in a
    reference tree from some roots, bounded by a depth;
  - `mergeTrees` merges two trees whose relation values are Sets.
- **Helpers** (`utils/objects.ts`, `utils/arrays.ts`, `utils.ts`,
  `v3/utils.ts`): `patch`, the deep `merge`, `pushDistinct`, `upsert`,
  `mergePrimitive`, `mergeObjects` and `mergeReverseReferences`.

Modelling choices:

- **Values.** Values are a datatype: `undefined`, `null`, booleans,
  string/number identities, opaque Dates and Blobs, arrays, plain objects
  (maps) and Sets of identities. Spreading a value, or reading a property
  of it, sees a plain object's fields and the index properties (`"0"`,
  `"1"`, …) of an array or a string; reading `length` of an array or a
  string gives its length. Any other value spreads to `{}` and reads
  `undefined`.
- **Target order.** A type's targets are an ordered sequence, because the
  order of `Object.entries` decides the order in which tables fill.
- **Errors.** Thrown errors are a `Result` whose error kind names the cause.
  Message texts are not modelled.
- **Mutable state.** Code that mutates state is modelled with classes and
  methods. Each normalisation is a `Normalization` object whose fields are
  the result under construction. `findEntityKeys` keeps its visited set in
  an `EntityMap`. `mergeTrees`' per-type merge works on `TypeMap`,
  `NodeMap` and `ValueSet` objects.
- **Pure code.** Pure computations are functions, with the properties the
  source promises proved as lemmas.

Where the code and the package's own description disagree, the model
follows the code:

- **No identity for callback keys.** An identity made by `uniqueKeyCallback`
  is not written into the stored copy (`impl/normalizer.ts:49-55`,
  `v3/normalizer.ts:51-57`).
- **Impl upsert compares key fields.** The impl generation upserts by
  key-field equality (`impl/normalizer.ts:110`). Distinct auto-keyed items,
  whose key fields are all `undefined`, are therefore merged into one row.
- **Omitted per-property depth in the denormalisers.** A per-property depth
  map that omits a property means an unbounded descent there
  (`impl/denormalizer.ts:79`, `v3/denormalizer.ts:34`). Only
  `Ndb.nextDepth` reads such an omission as 0 (`utils/ndb.ts:110`).
- **No check for a missing target type.** Nothing checks that a target names
  a type. An untyped target looks up the property `"undefined"`.
- **No passthrough for normalised references.** A primitive met where an
  object belongs is not passed through as an existing identity. It is
  normalised like an object. A number or boolean has no key field, so it
  throws unless a key callback is set. A string's key field is read like any
  property: under a key path `length` or an index name (`"0"`, `"1"`, …) it
  has an identity, and its stored copy holds its characters under their
  indices.
- **mergeTrees writes into `tree1`.** `mergeTrees` writes into the node Maps
  and Sets of `tree1` and shares those of `tree2` (see Findings).

## Model

| member | source | states |
|---|---|---|
| Objects.JsObject.Patch | packages/normalizer/src/utils/objects.ts:3-22 | `patch`: a nullish entry takes the default; an existing entry stays when there is no merge callback, and is replaced by the callback's result otherwise; the result is what the entry now holds; no other property changes |
| Objects.Merge | packages/normalizer/src/utils/objects.ts:32-54 | the deep merge keeps every key of either object, and nothing else |
| Objects.MergeAt | packages/normalizer/src/utils/objects.ts:34-51 | per key: a key only in `item1` keeps its value; a blank (nullish or empty-array) value is replaced; a plain object is merged recursively with `item2`'s value spread, so a string or array contributes its index properties; a Set is replaced by `item2`'s value spread; any other value is overwritten by `item2`'s |
| Objects.MergeSelf | packages/normalizer/src/utils/objects.ts:32-54 | merging a Set-free object with itself gives the object back |
| Objects.MergeNullFreeSucceeds | packages/normalizer/src/utils/objects.ts:41-47 | the recursion cannot throw when `item2` holds no nullish value inside a plain object (only spreading `null`/`undefined` into the recursion does) |
| Objects.MergeSpreadsString | packages/normalizer/src/utils/objects.ts:41-47 | merging `{ a: "hi" }` into `{ a: { x: 1 } }` gives `{ a: { x: 1, "0": "h", "1": "i" } }` |
| Objects.MergeEmpty | packages/normalizer/src/utils/objects.ts:32-54 | an empty object is a left and right unit of the merge |
| Arrays.FindIndex | packages/normalizer/src/utils/arrays.ts:8 | `findIndex`: the first position satisfying the test, or -1 when none does |
| Arrays.IndexOfFinds | packages/normalizer/src/utils/arrays.ts:8 | without `eq`, `indexOf` finds a position exactly when the item is present |
| Arrays.PushDistinct | packages/normalizer/src/utils/arrays.ts:7-14 | appends the item exactly when no element matches it, and returns the position of the match or of the new element |
| Arrays.UpsertRow | packages/normalizer/src/utils/arrays.ts:16-25 | `upsert`: the first matching row is deep-merged with the item and the other rows stay; with no match the item is appended; it fails only when the merge of a matching row fails |
| Arrays.Upsert | packages/normalizer/src/utils/arrays.ts:16-25 | the in-place upsert leaves the array and index `UpsertRow` describes, and leaves the array as it was on failure |
| Arrays.Merge | packages/normalizer/src/utils/arrays.ts:27-33 | `merge` upserts every item of `items2` in turn into a copy of `items1` |
| Arrays.UpsertRowKeepsIdentities | packages/normalizer/src/utils/arrays.ts:16-25 | an upsert by key-field equality keeps every row's identity, and the written row carries the item's identity |
| Arrays.UpsertAllKeepsIdentities | packages/normalizer/src/utils/arrays.ts:27-33 | after `merge`, every identity of either input is carried by some row |
| Arrays.MergePrimitive | packages/normalizer/src/utils/arrays.ts:35-41 | `mergePrimitive` is the distinct append of `items2` to `items1` |
| Arrays.AppendDistinctSpec | packages/normalizer/src/utils/arrays.ts:35-41 | the first list stays a prefix; the result holds exactly the elements of both; no duplicate is added to a duplicate-free list |
| Utils.MergeObjects | packages/normalizer/src/utils.ts:4-22 | `mergeObjects` keeps every key of either object (the copy at `v3/utils.ts:4-22` is the same code) |
| Utils.MergeObjectsAt | packages/normalizer/src/utils.ts:12-19 | per key: a blank value takes `item2`'s; a custom merge combines both values; otherwise `item1`'s value stays |
| Utils.MergeObjectsAbsorbs | packages/normalizer/src/utils.ts:4-22 | without custom merges, merging the same `item2` twice changes nothing more |
| Utils.MergeObjectsEmpty | packages/normalizer/src/utils.ts:4-22 | an empty object is a left and right unit of `mergeObjects` |
| Utils.JsSet.AddAll | packages/normalizer/src/utils.ts:34 | `forEach(next => set.add(next))` leaves the union of both Sets |
| Utils.UnionReverseRefsSpec | packages/normalizer/src/utils.ts:24-39 | on values, merging reverse references keeps every type and unions the identities listed for each type |
| Utils.MergeReverseReferences | packages/normalizer/src/utils.ts:24-39 | a type the first record lacks takes the second record's Set; a type both have gets the union, written into the first record's own Set; every other Set is unchanged |
| V3Utils.MergeReverseReferences | packages/normalizer/src/v3/utils.ts:24-39 | as in `utils.ts`, except that without `?.` it throws exactly when the second record holds `undefined` for a type the first has a Set for; Sets already written keep their unions |
| SchemaBuilder.CompileTarget | packages/normalizer/src/impl/schema.ts:89-104 | impl: a target config fails exactly when it is falsy (`null`, `undefined`, `""`); v3 (`v3/schema.ts:83-95`): exactly when it is `null`; a type name becomes a single, non-cascading target |
| SchemaBuilder.BuildTargets | packages/normalizer/src/impl/schema.ts:84-108 | the `buildTargets` loop computes `TargetsOf`: each entry compiled in order |
| SchemaBuilder.TargetsFromFails | packages/normalizer/src/impl/schema.ts:89-93 | building targets succeeds exactly when every entry compiles |
| SchemaBuilder.TargetsFromNames | packages/normalizer/src/impl/schema.ts:89-105 | the built targets name exactly the configured properties, each once |
| SchemaBuilder.TargetsFromLookup | packages/normalizer/src/impl/schema.ts:94-104 | each configured property looks up to its own compiled target |
| SchemaBuilder.TargetsFromKeeps | packages/normalizer/src/impl/schema.ts:89-105 | a property not configured keeps what it held before |
| SchemaBuilder.Inherit | packages/normalizer/src/impl/schema.ts:47-81 | building a type from its config and parent fails only for a missing key path, a bad target or a `null` target (v3) |
| SchemaBuilder.BuildSchema | packages/normalizer/src/impl/schema.ts:12-23 | succeeds exactly when every key not starting with `@` builds; the schema holds exactly those types, each as built; a failure is the failure of one of them |
| SchemaBuilder.KeyPathNonEmpty | packages/normalizer/src/impl/schema.ts:52-54 | a built type's key path is never empty |
| SchemaBuilder.FuelMonotone | packages/normalizer/src/impl/schema.ts:38-45 | the recursion bound only decides whether a parent cycle is reported; otherwise more of it changes nothing |
| SchemaBuilder.RankedParentsFinish | packages/normalizer/src/impl/schema.ts:38-45 | when parents are well-founded, no cycle is reported |
| SchemaBuilder.SelfParentCycles | packages/normalizer/src/impl/schema.ts:38-42 | a type naming itself as parent never finishes (the source's stack overflow) |
| SchemaBuilder.Inheritance | packages/normalizer/src/impl/schema.ts:47-70 | an own non-empty key wins over the parent's; own targets override inherited ones property by property, and without own targets the parent's are kept as they are; `dataStore.autoKey` and `dataStore.logging` override only when defined, and otherwise are the parent's, or off and disabled without a parent |
| Values.IndexNameInjective | packages/normalizer/src/utils/objects.ts:43 | distinct indices have distinct property names, so spreading an array or a string loses no element |
| Values.Indices | packages/normalizer/src/utils/objects.ts:43 | the spread of an array holds exactly the properties `"0"` … `"n-1"`, each with its element |
| Values.Property | packages/normalizer/src/impl/normalizer.ts:49 | `item[prop]`: an object's field, the length of an array or string under `length`, `undefined` on any other non-indexable value |
| Values.PropertyIndex | packages/normalizer/src/impl/normalizer.ts:73 | a non-nullish property of an array or string other than `length` is one of its elements or characters, at an index named by the property |
| Values.PropertySpread | packages/normalizer/src/impl/normalizer.ts:46-73 | an own property reads as in the spread copy; only an array or string read under `length` or an index name gives a non-object something other than `undefined` |
| Values.Lookup | packages/normalizer/src/impl/tools.ts:68 | `targets[prop]` finds a value exactly when the property is named, and it is that entry's |
| Values.PutSpec | packages/normalizer/src/impl/schema.ts:94 | `entityTargets[propKey] = …` makes the property look up to the new value and leaves the others |
| Values.AssignSpec | packages/normalizer/src/impl/schema.ts:58 | `{ ...targets, ...entityTargets }`: a property of the second object looks up there, any other in the first |
| Depths.CountAlong | packages/normalizer/src/impl/denormalizer.ts:79 | a numeric depth drops by one per level |
| Depths.UnboundedAlong | packages/normalizer/src/impl/denormalizer.ts:73-79 | no depth stays unbounded all the way down |
| Depths.OmittedAlong | packages/normalizer/src/impl/denormalizer.ts:79 | a property a per-property depth omits is descended without bound |
| Ndb.EntityMap.constructor | packages/normalizer/src/utils/ndb.ts:4-6 | a new entity map has no entities and no visited nodes |
| Ndb.EntityMap.HasVisited | packages/normalizer/src/utils/ndb.ts:21-23 | `hasVisited` holds exactly when the key was added under the type |
| Ndb.EntityMap.AddEntity | packages/normalizer/src/utils/ndb.ts:8-19 | `addEntities` adds the key to its type's Set (made when missing) and marks the node visited (the copies at `impl/tools.ts:95-106` and `impl/state.ts:103-114` are the same code) |
| Ndb.CountDoneAfter | packages/normalizer/src/utils/ndb.ts:106-118 | from a numeric depth `n`, `isDone` holds exactly after `n` or more steps |
| Ndb.UnboundedNeverDone | packages/normalizer/src/utils/ndb.ts:106-118 | without a depth the traversal is never done |
| Ndb.OmittedDone | packages/normalizer/src/utils/ndb.ts:110 | a property a per-property depth omits reads as 0, so the traversal stops there |
| Ndb.Traverse | packages/normalizer/src/utils/ndb.ts:52-101 | `traverse` records only nodes reachable from the roots within the bound; on success every candidate key of the type is recorded, and without a bound the record is closed under relations; it throws only a missing schema, data or target, and never when the tree resolves |
| Ndb.Visit | packages/normalizer/src/utils/ndb.ts:72-81 | one key is recorded, and then expanded unless the depth is done |
| Ndb.Expand | packages/normalizer/src/utils/ndb.ts:83-99 | on success every successor of the node is recorded |
| Ndb.ExpandProp | packages/normalizer/src/utils/ndb.ts:88-98 | one relation: a missing target throws; truthy child keys are traversed with the next depth; on success every node it points at is recorded |
| Ndb.FewerUnvisited | packages/normalizer/src/utils/ndb.ts:73-77 | recording an unvisited node leaves fewer unvisited nodes (the traversal terminates) |
| Ndb.StepCandidates | packages/normalizer/src/utils/ndb.ts:94-97 | the keys traversed next are exactly the nodes the relation points at, one level further from the roots |
| Ndb.FinishExpand | packages/normalizer/src/utils/ndb.ts:88-99 | once every relation is followed, every successor is recorded |
| Ndb.FindEntityKeys | packages/normalizer/src/utils/ndb.ts:30-104 | the result holds only tree nodes reachable from the roots, and all the roots; with a numeric depth only nodes within that many steps; without a depth every reachable node; errors as `Traverse` |
| Tools.Traverse | packages/normalizer/src/impl/tools.ts:31-81 | depth exactly 0 returns at once, recording nothing; otherwise as `Ndb.Traverse` |
| Tools.Visit | packages/normalizer/src/impl/tools.ts:55-65 | one key is recorded, then its relations are expanded |
| Tools.Expand | packages/normalizer/src/impl/tools.ts:62-79 | each relation of the node is followed; errors only as resolved |
| Tools.ExpandProp | packages/normalizer/src/impl/tools.ts:67-78 | a missing target throws; truthy child keys are traversed with `depth - 1` or the per-property depth |
| Tools.FindEntityKeys | packages/normalizer/src/impl/tools.ts:8-84 | depth 0 gives an empty result; otherwise only reachable nodes and all roots; with depth `n > 0` only nodes within `n - 1` steps; a depth that never hits 0 collects every reachable node |
| State.Traverse | packages/normalizer/src/impl/state.ts:51-88 | over a Set-valued tree: only reachable nodes are recorded, every candidate key is, and the record is closed under relations; it throws only a missing schema, empty data or a missing target |
| State.Expand | packages/normalizer/src/impl/state.ts:76-86 | every relation of a node is followed, a Set as it is and a single key as a Set of one |
| State.FewerUnvisited | packages/normalizer/src/impl/state.ts:69-74 | recording an unvisited node leaves fewer unvisited nodes |
| State.StepCandidates | packages/normalizer/src/impl/state.ts:80-85 | the keys traversed next are exactly the nodes the relation points at |
| State.FinishExpand | packages/normalizer/src/impl/state.ts:76-86 | once a node's relations are followed, it no longer blocks closure |
| State.FindEntityKeys | packages/normalizer/src/impl/state.ts:39-91 | the result holds exactly the nodes reachable from the roots; it throws only as resolved |
| State.MergeTreesNodes | packages/normalizer/src/impl/state.ts:8-37 | the merged tree has exactly the nodes of both trees |
| State.MergeTreesUnionsSets | packages/normalizer/src/impl/state.ts:21-30 | a relation Set of `tree1` gains the keys `tree2` lists for it: a Set's members, or a single key |
| State.MergeTreesOverwrites | packages/normalizer/src/impl/state.ts:23-24 | a relation that is missing or not a Set in `tree1` takes `tree2`'s value |
| State.MergeTreesIdempotent | packages/normalizer/src/impl/state.ts:8-37 | merging a tree with itself gives the same tree |
| State.MergePropAbsorbs | packages/normalizer/src/impl/state.ts:21-29 | merging the same incoming relation into a node twice is merging it once: a Set's union absorbs it, an overwrite repeats |
| State.MergeNodeAbsorbs | packages/normalizer/src/impl/state.ts:21-30 | merging the same node of `tree2` twice gives what merging it once gives |
| State.MergeTreesEmpty | packages/normalizer/src/impl/state.ts:8-37 | merging with an empty tree gives the first tree |
| StateHeap.ValueSet.AddAll | packages/normalizer/src/impl/state.ts:26 | `nestedKeys.forEach(k => mergedKeys.add(k))` leaves the union in the Set |
| StateHeap.MergePropInto | packages/normalizer/src/impl/state.ts:22-29 | one relation merged into a node Map in place: it reads as `MergeProp` of the old and new values; a Set stays the same object |
| StateHeap.MergeNodeMaps | packages/normalizer/src/impl/state.ts:21-30 | merging node `n2` into node Map `n1` in place leaves `n1` reading as `MergeNode` of both, using only Sets it had or `n2`'s |
| StateHeap.MergeNodeStep | packages/normalizer/src/impl/state.ts:21-29 | after one more relation, the node reads as the merge over the relations done |
| StateHeap.MergeTypeStep | packages/normalizer/src/impl/state.ts:17-31 | one node of `tree2` merged into the type Map: a new key gets a fresh copy of the node, an existing node is merged in place, and the Map reads as before with that entry merged |
| StateHeap.SetNode | packages/normalizer/src/impl/state.ts:18-19 | a missing node is set to a new Map copying `tree2`'s, or to `undefined` |
| StateHeap.MergeNodeAt | packages/normalizer/src/impl/state.ts:20-31 | an existing node merged in place reads as `MergeNode` of its old value and `tree2`'s |
| StateHeap.MergeKey | packages/normalizer/src/impl/state.ts:17-31 | after one key the type Map reads as the merge over the keys done; untouched nodes stay the same objects, and new ones are fresh |
| StateHeap.MergeTypeMaps | packages/normalizer/src/impl/state.ts:16-32 | `tree2[type].forEach(…)` into the type Map leaves it reading as `MergeType` of both, and leaves `tree2`'s Maps as they were |
| StateHeap.MergeTypeKey | packages/normalizer/src/impl/state.ts:16-32 | one iteration of the `forEach` keeps the merge invariant and `tree2` unchanged |
| StateHeap.MergeWritesFirstTree | packages/normalizer/src/impl/state.ts:9-10 | the node Map `tree1` itself holds reads `posts` = Set {10} before the merge and Set {10, 11} after it |
| StateHeap.MergeNodeCopy | packages/normalizer/src/impl/state.ts:16-32 | the corrected node merge: a fresh Map with fresh Sets that reads as `MergeNode` of both nodes |
| StateHeap.NewNodeOf | packages/normalizer/src/impl/state.ts:19 | `new Map(nestedProperties)` with its Sets held anew reads as the given node |
| NormalizedTypes.IndexOf | packages/normalizer/src/impl/denormalizer.ts:63 | `keyMap[type]?.get(key)` finds an index exactly when the identity is indexed for the type |
| NormalizedTypes.Find | packages/normalizer/src/impl/denormalizer.ts:66 | `find(entity => entity[keyProperty] === key)` gives the first row whose key field strictly equals the key, and nothing exactly when there is none |
| Denormalizing.Locate | packages/normalizer/src/v3/denormalizer.ts:21-25 | the entity lookup throws exactly when the table is missing in v3 (no `?.`); a row found is one of the type's rows |
| Denormalizing.FromKeyOutcomes | packages/normalizer/src/impl/denormalizer.ts:57-92 | an unknown type or a missing v3 table throws; an identity with no row throws "could not find"; at depth 0 or below, the row is copied and optionally loses `_refs` |
| Denormalizing.FromKeyCopies | packages/normalizer/src/impl/denormalizer.ts:72-89 | the result is a shallow copy of the found row in which only relations were replaced, without `_refs` when asked |
| Denormalizing.MaterializeSpec | packages/normalizer/src/impl/denormalizer.ts:81-83 | an array of keys becomes the array of their items, element by element; a single key becomes its item |
| Denormalizing.FromKeysSpec | packages/normalizer/src/impl/denormalizer.ts:94-100 | `fromKeys` maps `fromKey` over the keys, and fails with the first failure |
| Denormalizing.HydrateCopies | packages/normalizer/src/impl/denormalizer.ts:74-84 | the relation loop sets every target property and keeps every other property of the copy |
| Denormalizing.HydrateValues | packages/normalizer/src/impl/denormalizer.ts:79-83 | each target property holds its relation materialised with the next depth |
| Denormalizing.CountedFromKey | packages/normalizer/src/impl/denormalizer.ts:73-79 | with a numeric depth `n`, a recursion bound of `n` never runs out |
| Denormalizing.FromKeyFuel | packages/normalizer/src/impl/denormalizer.ts:57-92 | once the recursion bound suffices, more of it changes nothing |
| Denormalizing.LocateMatches | packages/normalizer/src/impl/denormalizer.ts:63-66 | with a consistent index, a found row carries the key in its key field |
| Denormalizing.FromKeyIdentity | packages/normalizer/src/impl/denormalizer.ts:57-92 | the denormalised item carries the identity it was asked for, unless its key field is a relation or `_refs` that was deleted |
| Denormalizing.StrictFromKey | packages/normalizer/src/v3/denormalizer.ts:15-47 | when every configured type has a table, the v3 lookup without `?.` denormalises exactly as the impl one |
| V3Denormalizer.FromDataByKey | packages/normalizer/src/v3/denormalizer.ts:57-68 | `fromData` depends only on the key field: a nullish key throws "key is missing", otherwise it is `fromKey` of the key |
| V3Denormalizer.FromDataIdentity | packages/normalizer/src/v3/denormalizer.ts:57-68 | `fromData` returns an item with the same identity as the data |
| V3Denormalizer.FromArraySpec | packages/normalizer/src/v3/denormalizer.ts:70-75 | `fromArray` maps `fromData` over the items, and fails with the first failure |
| V3Denormalizer.AgreesWithImpl | packages/normalizer/src/v3/denormalizer.ts:15-47 | when every configured type has a table, v3 and impl denormalise alike |
| V3Denormalizer.MissingTable | packages/normalizer/src/v3/denormalizer.ts:23-25 | a configured type without a table throws a TypeError in v3, and "could not find" in impl |
| ImplDenormalizer.BelowIrreflexive | packages/normalizer/src/impl/denormalizer.ts:20 | the string order of `toSorted()` is irreflexive |
| ImplDenormalizer.BelowTransitive | packages/normalizer/src/impl/denormalizer.ts:20 | the string order of `toSorted()` is transitive |
| ImplDenormalizer.SortKeysSpec | packages/normalizer/src/impl/denormalizer.ts:20 | `[...keys].toSorted()` is sorted by string order and a permutation of the keys |
| ImplDenormalizer.InsertSpec | packages/normalizer/src/impl/denormalizer.ts:20 | inserting into a sorted list keeps it sorted and adds exactly the key |
| ImplDenormalizer.KeyIndexLast | packages/normalizer/src/impl/denormalizer.ts:21-31 | the index built while loading points every identity at its last row |
| ImplDenormalizer.KeyIndexCovers | packages/normalizer/src/impl/denormalizer.ts:21-31 | every loaded row's identity is indexed |
| ImplDenormalizer.AddRows | packages/normalizer/src/impl/denormalizer.ts:21-31 | the row loop leaves the table and index `AddTable` describes |
| ImplDenormalizer.AddTableIndexed | packages/normalizer/src/impl/denormalizer.ts:21-31 | adding a table keeps every index built from its own rows; an empty load adds no table |
| ImplDenormalizer.Preload | packages/normalizer/src/impl/denormalizer.ts:17-37 | the loop over requested types leaves the data `Preloaded` describes |
| ImplDenormalizer.PreloadedFailure | packages/normalizer/src/impl/denormalizer.ts:22 | `preload` fails exactly when a load returns rows for a type the schema lacks (reading `schema[type].key` throws) or a row whose identity is not a string or number |
| ImplDenormalizer.PreloadedIndexed | packages/normalizer/src/impl/denormalizer.ts:17-37 | preloaded data keeps the given tree, indexes every table from its own rows, and has tables only for requested types |
| ImplDenormalizer.PreloadedServes | packages/normalizer/src/impl/denormalizer.ts:19-31 | each requested type's table is exactly what `load` returned for its sorted keys |
| ImplDenormalizer.PreloadedFails | packages/normalizer/src/impl/denormalizer.ts:19-31 | once a load is rejected, nothing after it changes the outcome |
| ImplDenormalizer.IndexedConsistent | packages/normalizer/src/impl/denormalizer.ts:34-36 | preloaded data is a consistent context for denormalising |
| ImplDenormalizer.LocateIndexed | packages/normalizer/src/impl/denormalizer.ts:63-66 | on preloaded data the lookup finds a row exactly when some row carries the identity, and then the last such row |
| Normalizing.KeyOf | packages/normalizer/src/impl/normalizer.ts:49-55 | `item[keyPath]` is the identity when present, including a string's or array's `length`; a nullish key takes the callback's identity, or throws "key is missing" without a callback; a non-identity key is rejected |
| Normalizing.KeyOfNonObject | packages/normalizer/src/impl/normalizer.ts:49-55 | without a callback, a non-object has an identity only when it is a string or array and the key path is `length` or an index name |
| Normalizing.LengthKeyNotCopied | packages/normalizer/src/impl/normalizer.ts:46-49 | `"abc"` under key path `length` has identity 3, while its spread copy has no `length` property |
| Normalizing.TruthySpec | packages/normalizer/src/impl/normalizer.ts:35-37 | `filter(key => !!key)` keeps exactly the truthy keys, and drops nothing from all-truthy lists |
| Normalizing.IndexedStore | packages/normalizer/src/impl/normalizer.ts:109-111 | storing a row and indexing its identity keeps the index consistent with the tables |
| Normalizing.IndexedConsistent | packages/normalizer/src/impl/normalizer.ts:109-111 | normalised data whose identities come from key fields is a consistent context for denormalising |
| ImplNormalizer.MergeRefsMembers | packages/normalizer/src/impl/normalizer.ts:93-103 | the corrected `props` merge callback: recording a relation again unions its child keys when either side is an array, the old array staying a prefix and duplicate-free, and overwrites a scalar with a scalar |
| ImplNormalizer.MergeRefsAsWrittenMixed | packages/normalizer/src/impl/normalizer.ts:96-99 | as written, a mixed array/scalar merge stores `pushDistinct`'s `{ items, index }` record, whose `items` is what the corrected callback stores; other merges agree |
| ImplNormalizer.MergeRefsAsWrittenExample | packages/normalizer/src/impl/normalizer.ts:96-97 | scalar `"a"` then array `["b"]` is stored as `{ items: ["b", "a"], index: 1 }`, where `["b", "a"]` is meant |
| ImplNormalizer.Stored | packages/normalizer/src/impl/normalizer.ts:84 | the stored copy lacks every relation the item had, and keeps every other property |
| ImplNormalizer.StoreKeeps | packages/normalizer/src/impl/normalizer.ts:109-111 | an upsert keeps the index consistent, the tables free of relations, and every earlier index entry |
| ImplNormalizer.UpsertKeyFields | packages/normalizer/src/impl/normalizer.ts:110 | an upsert by key-field equality changes no row's key field |
| ImplNormalizer.UpsertStripped | packages/normalizer/src/impl/normalizer.ts:110 | upserting relation-free rows leaves relation-free rows |
| ImplNormalizer.PutNode | packages/normalizer/src/impl/normalizer.ts:58-64 | writing a grown node keeps every node and parent key, and no parent list gains a duplicate |
| ImplNormalizer.Normalization.constructor | packages/normalizer/src/impl/normalizer.ts:13 | the result starts with an empty tree, index and tables |
| ImplNormalizer.Normalization.Apply | packages/normalizer/src/impl/normalizer.ts:16-28 | nullish gives `undefined` and changes nothing; an array gives truthy keys, no more than items; an object gives an identity indexed and in the tree |
| ImplNormalizer.Normalization.ApplyArray | packages/normalizer/src/impl/normalizer.ts:30-38 | the result is the truthy part of the per-item results, and each non-nullish object item is in the tree |
| ImplNormalizer.Normalization.ApplyObject | packages/normalizer/src/impl/normalizer.ts:40-114 | an unknown type or a bad or missing key throws as `KeyOf` says; otherwise the returned identity is `KeyOf`'s, the node lists the parent, the index points at a row written from the relation-free copy, and the tree and index only grow |
| ImplNormalizer.Normalization.Place | packages/normalizer/src/impl/normalizer.ts:57-111 | once the identity is known: the node is in the tree with the parent among its `refs`, the identity is indexed at a row written from the relation-free copy, and the tree and index only grow |
| ImplNormalizer.StoredDelete | packages/normalizer/src/impl/normalizer.ts:73-84 | one more relation deletes its property from the copy exactly when `item[prop]` is not nullish |
| ImplNormalizer.Normalization.ApplyTargets | packages/normalizer/src/impl/normalizer.ts:68-105 | the targets loop returns the item copy with every non-nullish relation deleted |
| ImplNormalizer.Normalization.ApplyTarget | packages/normalizer/src/impl/normalizer.ts:69-104 | nullish relations are skipped with nothing changed; a shape contradicting `isArray` throws; a recursion past the bound reports `StackOverflow`; otherwise the node's `props` holds every child key returned |
| ImplNormalizer.Normalization.RecordParent | packages/normalizer/src/impl/normalizer.ts:58-64 | the node is created when missing, its children kept, and the parent's key listed under the parent's type |
| ImplNormalizer.Normalization.PushParent | packages/normalizer/src/impl/normalizer.ts:63 | `pushDistinct(keys, parent.key).items` lists the parent once and keeps every earlier key |
| ImplNormalizer.Normalization.RecordProp | packages/normalizer/src/impl/normalizer.ts:85-104 | only the node's `props[prop]` changes, to the patched value |
| ImplNormalizer.Normalization.PatchProp | packages/normalizer/src/impl/normalizer.ts:87-104 | `Objects.patch` with the merge callback leaves `props[prop]` patched |
| ImplNormalizer.Normalization.Store | packages/normalizer/src/impl/normalizer.ts:109-111 | the copy is upserted by key-field equality and the identity indexed at the row written; a failed merge changes nothing |
| ImplNormalizer.Normalization.UpsertTable | packages/normalizer/src/impl/normalizer.ts:110 | the table upsert is `UpsertRow` by key-field equality |
| ImplNormalizer.Normalize | packages/normalizer/src/impl/normalizer.ts:10-14 | normalised data is indexed consistently, free of relations in its tables, with duplicate-free parent lists; with no callback and no key path named `length` or like an index, every indexed row carries its identity in its key field, the consistency the denormaliser's lookup relies on (read as a lookup by identity, see Left out); nullish data gives empty data |
| V3Normalizer.RefsValue | packages/normalizer/src/v3/normalizer.ts:61-63 | `{ [parent.type]: new Set([parent.key]) }` lists exactly the parent |
| V3Normalizer.WithRefs | packages/normalizer/src/v3/normalizer.ts:60-64 | with a parent and reverse references on, `_refs` names the parent; nothing else changes |
| V3Normalizer.LastTargetIn | packages/normalizer/src/v3/normalizer.ts:68 | a property has a relation among the first `n` handled exactly when one of them is named after it, and that relation is one of them |
| V3Normalizer.TargetForLookup | packages/normalizer/src/v3/normalizer.ts:68 | with distinct property names, the relation whose child keys a property holds is the one `targets[prop]` looks up |
| V3Normalizer.ChildrenWrittenStep | packages/normalizer/src/v3/normalizer.ts:68-80 | one more relation keeps every written property holding its relation's child keys |
| V3Normalizer.LiveProps | packages/normalizer/src/v3/normalizer.ts:68-71 | the relations written are exactly the non-nullish ones |
| V3Normalizer.WrittenFirstWins | packages/normalizer/src/v3/normalizer.ts:105-114 | merging into an existing row keeps its non-blank values, takes the copy's values for blank ones, and keeps both key sets |
| V3Normalizer.WrittenRefs | packages/normalizer/src/v3/normalizer.ts:106-113 | after a merge the row's `_refs` lists the new parent as well as every parent it listed |
| V3Normalizer.MergeKeepsKey | packages/normalizer/src/v3/normalizer.ts:106-113 | merging keeps the row's identity in its key field |
| V3Normalizer.PlacedKeeps | packages/normalizer/src/v3/normalizer.ts:95-115 | storing keeps the index consistent and only growing, and indexes the identity at the row written |
| V3Normalizer.RecordedGrows | packages/normalizer/src/v3/normalizer.ts:81-91 | relations recorded in the tree stay recorded |
| V3Normalizer.Normalization.constructor | packages/normalizer/src/v3/normalizer.ts:15 | the result starts with an empty tree, index and tables |
| V3Normalizer.Normalization.Apply | packages/normalizer/src/v3/normalizer.ts:18-30 | nullish gives `undefined` and changes nothing; an array gives truthy keys; an object gives an indexed identity |
| V3Normalizer.Normalization.ApplyArray | packages/normalizer/src/v3/normalizer.ts:32-40 | the result is the truthy part of the per-item results |
| V3Normalizer.Normalization.ApplyObject | packages/normalizer/src/v3/normalizer.ts:42-118 | an unknown type or bad key throws as `KeyOf` says; otherwise the identity is `KeyOf`'s, its live relations are in the tree, and its row is written from the copy with `_refs` and, under exactly the live relations, their child keys: an indexed identity of the target type, or an array of truthy keys for an array target |
| V3Normalizer.Normalization.ApplyTargets | packages/normalizer/src/v3/normalizer.ts:68-92 | the loop writes into the copy, under exactly the live relations, each relation's child keys (an indexed identity of its target type, or an array of truthy keys for an array target), and records each in the tree |
| V3Normalizer.Normalization.NextTarget | packages/normalizer/src/v3/normalizer.ts:68-92 | one turn of the loop keeps the index consistent and only growing, the copy equal to the item's fields plus the live relations so far, each holding its child keys and recorded in the tree |
| V3Normalizer.Normalization.ReplaceTarget | packages/normalizer/src/v3/normalizer.ts:69-91 | a nullish relation leaves the copy as it was; otherwise the copy's property holds exactly the value recorded at `tree[type][key][prop]`, the relation's child keys |
| V3Normalizer.Normalization.ApplyTarget | packages/normalizer/src/v3/normalizer.ts:69-91 | nullish is skipped; a shape mismatch throws, and a TypeError at the root (`parent.type` of `undefined`); a recursion past the bound reports `StackOverflow`; otherwise the tree holds the child keys, an array exactly for array targets |
| V3Normalizer.Normalization.RecordTree | packages/normalizer/src/v3/normalizer.ts:81-91 | the node's Map is created when missing and gets `prop` set to the child keys; nothing else changes |
| V3Normalizer.Normalization.Store | packages/normalizer/src/v3/normalizer.ts:95-115 | the first row makes the table and index; a new identity is appended and indexed; a known one is merged with `mergeObjects`, with `_refs` merged as Sets |
| V3Normalizer.Normalize | packages/normalizer/src/v3/normalizer.ts:9-16 | normalised data has an index per table, indexed consistently; a consistent context for the denormaliser when identities come from key fields (no callback, no key path named `length` or like an index, no `_refs` key path with reverse references on); nullish data gives empty data |

## Left out

- I/O is not modelled. `preload`'s asynchronous `load` is a function
  parameter. The v3 denormaliser's `fetchCallback` (`v3/denormalizer.ts:13`)
  is read but never used.
- Error message texts are not modelled. Each throw is an error kind.
- `uniqueKeyCallback` is a function of the type and of the number of earlier
  calls. It stands for a stateful generator.
- Map and object iteration order inside methods (`for … in`, `forEach`) is
  not modelled. Keys are picked with `:|`. Depth-bounded traversals can
  therefore be proved sound and complete only up to the bounds stated.
  Which node a bounded traversal records first is not captured.
- String-keyed tree objects are keyed by identities. The `isNaN(+entityKey)`
  conversion back to numbers (`utils/ndb.ts:72`, `impl/tools.ts:55`) and
  the string form of `visitedKeys` are taken as exact. A number and a
  numeric string are two keys.
- Dates and Blobs are opaque values that the deep merge does not enter.
  Floating-point numbers are not modelled: numeric identities are integers.
- Recursion bounds stand for JavaScript's stack:
  - `buildType` runs on fuel, and a parent cycle reports `CyclicParents`;
  - the denormaliser's recursion runs on fuel, and running out reports
    `StackOverflow`.
- `State.MergeTrees`: the outer per-type loop of `mergeTrees`
  (`impl/state.ts:9-15`) is modelled on values only. The per-type merge is
  modelled on the heap (`StateHeap.MergeTypeMaps`). It requires the Maps
  and Sets of the two type Maps to be separate. Aliasing between them, and
  the sharing of `tree2`'s Maps in the result, are not captured.
- V3 `_refs` Sets are values in the normaliser. `mergeReverseReferences`
  writing into the stored row's own Sets is modelled in `Utils` and
  `V3Utils`, not inside `V3Normalizer.Normalization.Store`.
- The impl normaliser's `if (!target)` check (`impl/normalizer.ts:69-71`)
  and the impl denormaliser's (`impl/denormalizer.ts:75-77`) cannot fail:
  a built schema holds only compiled targets.
- ImplDenormalizer.PreloadedFailure: a loaded row whose key field is not a
  string or number is reported as `BadKey`. The source would index it under
  that value, but identities are `string | number` by the declared types,
  and the model's index is keyed by those.
- Normalizing.KeyOf: a key field holding something other than a string or
  number is reported as `BadKey`, for the same reason. The source would use
  that value as the identity.
- `buildSchema` returns `Schema`, not the `Partial` the code builds. Types
  starting with `@` are skipped as the code does.
- `Tools.ExpandProp`: closure is stated only for depths that never reach 0.
  A numeric or per-property depth can cut a node off before its successors
  are recorded.
- ImplNormalizer.Normalize: the recursion runs on a fuel parameter, and
  running out reports `StackOverflow` in place of JavaScript's RangeError.
  No fuel that suffices is proved. A string under a relation whose property
  is an index name recurses on its own first character without end, as the
  source does.
- V3Normalizer.Normalize: it runs on fuel as `ImplNormalizer.Normalize`
  does, for the same reason.
- Values.Property: only own properties and `length` are modelled. Inherited
  properties (methods, a Set's `size`, a Blob's `size` and `type`) read as
  `undefined`.
- The impl `keyMap` container: the source builds it as a plain object
  (`impl/normalizer.ts:111`), so identities `1` and `"1"` share one entry,
  while `impl/denormalizer.ts:63` calls `.get` on it, which a plain object
  lacks. The model keeps one map from identities to rows for both, so it
  does not capture that collision or that TypeError.
- Utils.MergeReverseReferences: it requires the Sets of the two records to
  be separate objects. Aliasing between them is not captured.
- V3Utils.MergeReverseReferences: it requires separate Sets as
  `Utils.MergeReverseReferences` does.
- Utils.UnionReverseRefsSpec: malformed `_refs` values are not modelled. A
  truthy non-Set in the first record would throw at `.add`, and an array in
  the second would have its elements added. Only a `_refs` property
  already present in the normalised data could hold one.
- V3Normalizer.MergeFns: it merges `_refs` as `utils.ts` does, with `?.`.
  The v3 normaliser imports `v3/utils.ts`, which throws when the copy's
  `_refs` maps a type to `undefined` and the stored row's `_refs` has a Set
  for it. Only a root item that already carries its own `_refs` can meet
  that case: every other copy's `_refs` is built from its parent.
- ImplDenormalizer.SortKeysSpec: `Below` compares strings by code point.
  `toSorted()` compares UTF-16 code units, which orders characters outside
  the Basic Multilingual Plane differently.
- `ImplNormalizer.Normalization.ApplyTarget`: it uses the corrected merge
  callback (`MergeRefs`) rather than the one written at
  `impl/normalizer.ts:96-99` (see Findings). Those branches cannot be
  reached in one normalisation, because lines 76-79 give every value of a
  relation the same shape.

## Findings

| source | as written | input that shows it | evidently intended | confidence | as-written member | corrected member |
|---|---|---|---|---|---|---|
| packages/normalizer/src/impl/state.ts:9-10 | the clone is `new Map(map)` per type, so the node Maps and Sets it merges into are `tree1`'s own, and `tree1` changes | `tree1` node 1 with `posts` = Set {10}, `tree2` node 1 with `posts` = Set {11}: afterwards `tree1`'s node reads Set {10, 11} | a merged tree independent of both inputs, which stay as they were | not executed | StateHeap.MergeWritesFirstTree | StateHeap.MergeNodeCopy |
| packages/normalizer/src/impl/normalizer.ts:96-99 | the mixed array/scalar branches return `Arrays.pushDistinct(…)`, the record `{ items, index }` | existing `props[p]` = `"a"`, new child keys `["b"]`: `{ items: ["b", "a"], index: 1 }` is stored | `.items`, as at line 63: the array `["b", "a"]` | not executed; lines 76-79 keep these branches from being reached in one normalisation | ImplNormalizer.MergeRefsAsWrittenExample | ImplNormalizer.MergeRefsMembers |
