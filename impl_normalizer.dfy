/*
 * The impl-generation normaliser, `normalizer(schema, defaults)(type, data,
 * options)`: it walks a nested value against the schema, records every item
 * in the reference tree (`refs` to its parents, `props` to its children),
 * deletes the relation properties from a copy of the item and upserts that
 * copy into the entity table of its type, indexing its identity in `keyMap`.
 */
module ImplNormalizer {
  import opened Values
  import opened SchemaTypes
  import opened NormalizedTypes
  import opened Normalizing
  import opened Trees
  import Arrays
  import Objects
  import Denormalizing
  import ImplDenormalizer

  /** `{ type, key }` of the item a nested value belongs to; `undefined` at the root. */
  type ParentRef = Option<Pair>

  /**
   * The `props` merge callback: what is stored when a relation already has
   * child keys. Two arrays are merged without duplicates (`mergePrimitive`),
   * a scalar is pushed into an array unless there (`pushDistinct`, which
   * compares with `===`), and a scalar replaces a scalar.
   */
  function MergeRefs(refs: Value, targetRef: Value): Value
  {
    if refs.Arr? && targetRef.Arr? then Arr(Arrays.AppendDistinct(refs.items, targetRef.items))
    else if targetRef.Arr? then (if refs in targetRef.items then targetRef else Arr(targetRef.items + [refs]))
    else if refs.Arr? then (if targetRef in refs.items then refs else Arr(refs.items + [targetRef]))
    else targetRef
  }

  /** The child keys a `props` value names: the elements of an array, or the value itself. */
  function Members(v: Value): set<Value>
  {
    if v.Arr? then set x | x in v.items else {v}
  }

  /**
   * Recording a relation again unions the child keys when either side is an
   * array (the old array stays a prefix when both are), and overwrites when
   * both are scalars; either way the new keys are all there.
   */
  lemma MergeRefsMembers(refs: Value, targetRef: Value)
    ensures refs.Arr? || targetRef.Arr? ==> Members(MergeRefs(refs, targetRef)) == Members(refs) + Members(targetRef)
    ensures !refs.Arr? && !targetRef.Arr? ==> Members(MergeRefs(refs, targetRef)) == Members(targetRef)
    ensures refs.Arr? && targetRef.Arr? ==> refs.items <= MergeRefs(refs, targetRef).items
    ensures refs.Arr? && targetRef.Arr? && Arrays.NoDuplicates(refs.items) ==> Arrays.NoDuplicates(MergeRefs(refs, targetRef).items)
  {
    if refs.Arr? && targetRef.Arr? {
      Arrays.AppendDistinctSpec(refs.items, targetRef.items);
    }
  }

  /** The record `{ items, index }` that `Arrays.pushDistinct(items, item)` returns. */
  function PushDistinctRecord(items: seq<Value>, item: Value): Value
  {
    var index := Arrays.FindIndex(items, Arrays.Matcher(item, None));
    if index >= 0 then Obj(map["items" := Arr(items), "index" := Prim(Num(index))])
    else Obj(map["items" := Arr(items + [item]), "index" := Prim(Num(|items|))])
  }

  /**
   * The callback as written: its two mixed branches return what
   * `pushDistinct` returns, the record, where `.items` was evidently meant.
   */
  function MergeRefsAsWritten(refs: Value, targetRef: Value): Value
  {
    if refs.Arr? && targetRef.Arr? then Arr(Arrays.AppendDistinct(refs.items, targetRef.items))
    else if targetRef.Arr? then PushDistinctRecord(targetRef.items, refs)
    else if refs.Arr? then PushDistinctRecord(refs.items, targetRef)
    else targetRef
  }

  /**
   * Whenever exactly one side is an array, the as-written callback stores a
   * record that is no list of child keys, whose `items` field holds the list
   * the corrected callback stores; elsewhere both agree.
   */
  lemma MergeRefsAsWrittenMixed(refs: Value, targetRef: Value)
    ensures refs.Arr? != targetRef.Arr? ==>
      && MergeRefsAsWritten(refs, targetRef).Obj?
      && MergeRefsAsWritten(refs, targetRef).fields["items"] == Arr(MergeRefs(refs, targetRef).items)
      && MergeRefsAsWritten(refs, targetRef) != MergeRefs(refs, targetRef)
    ensures refs.Arr? == targetRef.Arr? ==> MergeRefsAsWritten(refs, targetRef) == MergeRefs(refs, targetRef)
  {
    if targetRef.Arr? && !refs.Arr? {
      Arrays.IndexOfFinds(targetRef.items, refs);
    } else if refs.Arr? && !targetRef.Arr? {
      Arrays.IndexOfFinds(refs.items, targetRef);
    }
  }

  /** A scalar `"a"` recorded under a relation that now yields `["b"]` is stored as `{ items: ["b", "a"], index: 1 }`. */
  lemma MergeRefsAsWrittenExample()
    ensures MergeRefsAsWritten(Prim(Str("a")), Arr([Prim(Str("b"))]))
      == Obj(map["items" := Arr([Prim(Str("b")), Prim(Str("a"))]), "index" := Prim(Num(1))])
    ensures MergeRefs(Prim(Str("a")), Arr([Prim(Str("b"))])) == Arr([Prim(Str("b")), Prim(Str("a"))])
  {
    Arrays.IndexOfFinds([Prim(Str("b"))], Prim(Str("a")));
    assert Prim(Str("a")) !in [Prim(Str("b"))];
    assert [Prim(Str("b"))] + [Prim(Str("a"))] == [Prim(Str("b")), Prim(Str("a"))];
  }

  /** The value `Objects.patch(props, prop, targetRef, merge)` leaves under `prop`. */
  function PatchedRef(props: map<string, Value>, prop: string, targetRef: Value): Value
  {
    if IsNullish(Get(props, prop)) then targetRef else MergeRefs(props[prop], targetRef)
  }

  /**
   * The copy of an item that is stored: every property of a relation whose
   * value is not nullish is deleted; everything else is kept as it is.
   */
  function Stored(fields: Fields, targets: seq<(string, Target)>): (r: Fields)
    ensures forall p :: p in Names(targets) ==> IsNullish(Get(r, p))
    ensures forall p :: p in fields && !(p in Names(targets) && !IsNullish(fields[p])) ==> p in r && r[p] == fields[p]
    ensures r.Keys <= fields.Keys
  {
    map p | p in fields && !(p in Names(targets) && !IsNullish(fields[p])) :: fields[p]
  }

  /** One more relation handled: its property is deleted when its value was not nullish. */
  lemma StoredStep(fields: Fields, targets: seq<(string, Target)>, i: nat)
    requires i < |targets|
    ensures Names(targets[..i + 1]) == Names(targets[..i]) + {targets[i].0}
    ensures Stored(fields, targets[..i + 1]) ==
      if IsNullish(Get(fields, targets[i].0)) then Stored(fields, targets[..i]) else Stored(fields, targets[..i]) - {targets[i].0}
  {
    assert forall j :: 0 <= j < i ==> targets[..i + 1][j] == targets[..i][j];
    assert targets[..i + 1][i] == targets[i];
  }

  /**
   * Deleting a relation whose value is not nullish from the copy: a
   * relation the copy does not have (a string's `length`) is deleted
   * without effect.
   */
  lemma StoredDelete(item: Value, targets: seq<(string, Target)>, i: nat)
    requires i < |targets|
    ensures var before := Stored(Spread(item), targets[..i]);
      Stored(Spread(item), targets[..i + 1]) == if IsNullish(Property(item, targets[i].0)) then before else before - {targets[i].0}
  {
    var fields, p := Spread(item), targets[i].0;
    var before := Stored(fields, targets[..i]);
    StoredStep(fields, targets, i);
    PropertySpread(item, p);
    if IsNullish(Get(fields, p)) && !IsNullish(Property(item, p)) {
      assert p !in before;
      assert before - {p} == before;
    }
  }

  /** The parent keys a node lists under each type hold no duplicate (`pushDistinct`). */
  ghost predicate NodeDistinct(node: Node)
  {
    forall p :: p in node.refs ==> Arrays.NoDuplicates(node.refs[p])
  }

  /** Every node of the tree lists its parents without duplicates. */
  ghost predicate RefsDistinct(tree: Tree)
  {
    forall t, k :: t in tree && k in tree[t] ==> NodeDistinct(tree[t][k])
  }

  /** Every table belongs to a configured type, and no row holds a relation property that is not nullish. */
  ghost predicate Stripped(schema: Schema, entities: Tables)
  {
    forall t :: t in entities ==>
      && t in schema
      && forall i, p :: 0 <= i < |entities[t]| && p in Names(schema[t].targets) ==> IsNullish(Get(entities[t][i], p))
  }

  /** A node keeps every parent key it listed. */
  ghost predicate NodeGrows(before: Node, after: Node)
  {
    forall p, x :: p in before.refs && x in before.refs[p] ==> p in after.refs && x in after.refs[p]
  }

  /** A table without relation values for a configured type keeps the tables stripped. */
  lemma StrippedStore(schema: Schema, entities: Tables, t: string, rows: seq<Fields>)
    requires Stripped(schema, entities) && t in schema
    requires forall i, p :: 0 <= i < |rows| && p in Names(schema[t].targets) ==> IsNullish(Get(rows[i], p))
    ensures Stripped(schema, entities[t := rows])
  {
  }

  /** The row an upsert wrote at `index`: the item appended, or an old row with the item merged in (newer values win). */
  predicate Written(rows: seq<Fields>, item: Fields, index: nat, row: Fields)
  {
    || (index == |rows| && row == item)
    || (index < |rows| && Objects.Merge(rows[index], item) == Ok(row))
  }

  /**
   * Upserting a copy without relation values, whose key field is its
   * identity (or nullish), keeps the tables indexed and stripped; the row
   * written is the copy or an old row merged with it.
   */
  lemma StoreKeeps(schema: Schema, keyMap: KeyMap, entities: Tables, fromField: bool, t: string, k: Key, stored: Fields)
    requires Indexed(schema, keyMap, entities, fromField) && Stripped(schema, entities) && t in schema
    requires forall p :: p in Names(schema[t].targets) ==> IsNullish(Get(stored, p))
    requires Get(stored, schema[t].key).Prim? || IsNullish(Get(stored, schema[t].key))
    requires fromField ==> Get(stored, schema[t].key) == Prim(k)
    requires Arrays.UpsertRow(RowsOf(entities, t), stored, Arrays.SameField(schema[t].key)).Ok?
    ensures var up := Arrays.UpsertRow(RowsOf(entities, t), stored, Arrays.SameField(schema[t].key)).value;
      && Indexed(schema, WithIndex(keyMap, t, k, up.1), entities[t := up.0], fromField)
      && Stripped(schema, entities[t := up.0])
      && IndexGrows(keyMap, WithIndex(keyMap, t, k, up.1))
      && Written(RowsOf(entities, t), stored, up.1, up.0[up.1])
  {
    var rows := RowsOf(entities, t);
    var keyPath := schema[t].key;
    var up := Arrays.UpsertRow(rows, stored, Arrays.SameField(keyPath)).value;
    UpsertKeyFields(rows, stored, keyPath);
    UpsertStripped(rows, stored, Arrays.SameField(keyPath), Names(schema[t].targets));
    IndexedStore(schema, keyMap, entities, fromField, t, k, up.1, up.0);
    StrippedStore(schema, entities, t, up.0);
  }

  /** The tree only grows: nodes stay, and so do the parent keys they list. */
  ghost predicate Grows(before: Tree, after: Tree)
  {
    forall t, k :: t in before && k in before[t] ==> t in after && k in after[t] && NodeGrows(before[t][k], after[t][k])
  }

  /** Writing a node that keeps its parent keys, without duplicates, grows the tree and keeps it duplicate-free. */
  lemma PutNode(tree: Tree, t: string, k: Key, node: Node)
    requires RefsDistinct(tree) && NodeDistinct(node)
    requires t in tree && k in tree[t] ==> NodeGrows(tree[t][k], node)
    ensures var tree' := tree[t := (if t in tree then tree[t] else map[])[k := node]];
      Grows(tree, tree') && RefsDistinct(tree')
  {
  }

  lemma GrowsTrans(a: Tree, b: Tree, c: Tree)
    requires Grows(a, b) && Grows(b, c)
    ensures Grows(a, c)
  {
    forall t, k | t in a && k in a[t]
      ensures t in c && k in c[t] && NodeGrows(a[t][k], c[t][k])
    {
      assert NodeGrows(a[t][k], b[t][k]) && NodeGrows(b[t][k], c[t][k]);
    }
  }

  /**
   * Upserting by the key field keeps the key field of every old row, and the
   * row written carries the item's key field, when that is an identity or
   * nullish (the only key fields the normaliser stores).
   */
  lemma UpsertKeyFields(rows: seq<Fields>, item: Fields, keyPath: string)
    requires Get(item, keyPath).Prim? || IsNullish(Get(item, keyPath))
    requires Arrays.UpsertRow(rows, item, Arrays.SameField(keyPath)).Ok?
    ensures var r := Arrays.UpsertRow(rows, item, Arrays.SameField(keyPath)).value;
      && (forall j :: 0 <= j < |rows| ==> Get(r.0[j], keyPath) == Get(rows[j], keyPath))
      && Get(r.0[r.1], keyPath) == Get(item, keyPath)
  {
    var r := Arrays.UpsertRow(rows, item, Arrays.SameField(keyPath)).value;
    if r.1 < |rows| && (keyPath in rows[r.1] || keyPath in item) {
      Objects.MergeAt(rows[r.1], item, keyPath);
    }
  }

  /** Upserting a copy without relation values keeps every row without relation values. */
  lemma UpsertStripped(rows: seq<Fields>, item: Fields, eq: (Fields, Fields) -> bool, names: set<string>)
    requires forall i, p :: 0 <= i < |rows| && p in names ==> IsNullish(Get(rows[i], p))
    requires forall p :: p in names ==> IsNullish(Get(item, p))
    requires Arrays.UpsertRow(rows, item, eq).Ok?
    ensures var r := Arrays.UpsertRow(rows, item, eq).value.0;
      forall i, p :: 0 <= i < |r| && p in names ==> IsNullish(Get(r[i], p))
  {
    var r := Arrays.UpsertRow(rows, item, eq).value;
    forall i, p | 0 <= i < |r.0| && p in names
      ensures IsNullish(Get(r.0[i], p))
    {
      if i == r.1 && i < |rows| && (p in rows[i] || p in item) {
        Objects.MergeAt(rows[i], item, p);
      }
    }
  }

  /**
   * When every identity sits in the key field of its row: no key callback,
   * and no key path a string answers (a string keyed by `length` is stored
   * without it, and one keyed by an index can stand in a key field that is
   * also a relation, which is then deleted).
   */
  ghost predicate FromField(schema: Schema, keyCallback: Option<KeyCallback>)
  {
    keyCallback.None? && NamedKeys(schema)
  }

  /** The state of one `normalizer(...)(type, data, options)` call: the closure's `normalizedResult`. */
  class Normalization {
    const schema: Schema
    const keyCallback: Option<KeyCallback>
    var tree: Tree
    var keyMap: KeyMap
    var entities: Tables
    /** How often `uniqueKeyCallback` has been called. */
    var calls: nat

    ghost predicate Valid()
      reads this
    {
      && Indexed(schema, keyMap, entities, FromField(schema, keyCallback))
      && RefsDistinct(tree)
      && Stripped(schema, entities)
    }

    /** `{ keyMap: {}, tree: {}, entities: {} }` */
    constructor (schema: Schema, keyCallback: Option<KeyCallback>)
      ensures this.schema == schema && this.keyCallback == keyCallback
      ensures tree == map[] && keyMap == map[] && entities == map[] && calls == 0
      ensures Valid()
    {
      this.schema := schema;
      this.keyCallback := keyCallback;
      tree := map[];
      keyMap := map[];
      entities := map[];
      calls := 0;
    }

    /**
     * `apply(parent, type, item)`: nothing for a nullish value, the keys of
     * an array's items, or the key of an object. `fuel` bounds how deep
     * relations may nest: the source recurses without a bound.
     */
    method Apply(parent: ParentRef, typeName: string, item: Value, fuel: nat) returns (r: Result<Value>)
      requires Valid()
      modifies this
      ensures r.Ok? ==> Valid() && Grows(old(tree), tree) && IndexGrows(old(keyMap), keyMap) && old(calls) <= calls
      ensures IsNullish(item) ==> r == Ok(Undefined) && tree == old(tree) && keyMap == old(keyMap) && entities == old(entities)
      ensures r.Ok? && item.Arr? ==> r.value.Arr? && |r.value.items| <= |item.items|
      ensures r.Ok? && item.Arr? ==> forall i :: 0 <= i < |r.value.items| ==> IsTruthy(r.value.items[i])
      ensures r.Ok? && !IsNullish(item) && !item.Arr? ==>
        r.value.Prim? && typeName in tree && r.value.key in tree[typeName] && typeName in keyMap && r.value.key in keyMap[typeName]
      ensures r.Ok? && !IsNullish(item) && !item.Arr? && !item.Obj? && keyCallback.None? ==>
        typeName in schema && Indexable(item) && IndexLike(schema[typeName].key)
      decreases fuel, item, 4
    {
      if IsNullish(item) {
        return Ok(Undefined);
      } else if item.Arr? {
        ghost var each;
        r, each := ApplyArray(parent, typeName, item.items, fuel);
      } else {
        var key := ApplyObject(parent, typeName, item, fuel);
        if key.Err? {
          return Err(key.error);
        }
        r := Ok(Prim(key.value));
      }
    }

    /**
     * `applyArray(parent, type, items)`: `apply` on each item in order, then
     * the falsy results (no key, a key `0` or `''`) are dropped. `each` holds
     * what `apply` gave for each item.
     */
    method ApplyArray(parent: ParentRef, typeName: string, items: seq<Value>, fuel: nat) returns (r: Result<Value>, ghost each: seq<Value>)
      requires Valid()
      modifies this
      ensures r.Ok? ==> Valid() && Grows(old(tree), tree) && IndexGrows(old(keyMap), keyMap) && old(calls) <= calls
      ensures r.Ok? ==> |each| == |items| && r.value == Arr(Truthy(each))
      ensures r.Ok? ==> forall i :: 0 <= i < |items| ==> (each[i] == Undefined <==> IsNullish(items[i]))
      ensures r.Ok? ==> forall i :: 0 <= i < |items| && !IsNullish(items[i]) && !items[i].Arr? ==>
        each[i].Prim? && typeName in tree && each[i].key in tree[typeName]
      ensures r.Ok? ==> |r.value.items| <= |items| && forall i :: 0 <= i < |r.value.items| ==> IsTruthy(r.value.items[i])
      decreases fuel, Arr(items), 3
    {
      each := [];
      var keys: seq<Value> := [];
      for i := 0 to |items|
        invariant Valid() && Grows(old(tree), tree) && IndexGrows(old(keyMap), keyMap) && old(calls) <= calls
        invariant |each| == i && keys == Truthy(each)
        invariant forall j :: 0 <= j < i ==> (each[j] == Undefined <==> IsNullish(items[j]))
        invariant forall j :: 0 <= j < i && !IsNullish(items[j]) && !items[j].Arr? ==>
          each[j].Prim? && typeName in tree && each[j].key in tree[typeName]
      {
        ghost var before := tree;
        var key := Apply(parent, typeName, items[i], fuel);
        if key.Err? {
          return Err(key.error), each;
        }
        GrowsTrans(old(tree), before, tree);
        TruthySnoc(each, key.value);
        each := each + [key.value];
        if IsTruthy(key.value) {
          keys := keys + [key.value];
        }
      }
      TruthySpec(each);
      r := Ok(Arr(keys));
    }

    /**
     * `applyObject(parent, type, item)`: the item's identity, its node in the
     * tree (with the parent among its `refs`), its relations applied, and the
     * stored copy upserted into its table and indexed.
     */
    method ApplyObject(parent: ParentRef, typeName: string, item: Value, fuel: nat) returns (r: Result<Key>)
      requires Valid()
      modifies this
      ensures r.Ok? ==> Valid() && Grows(old(tree), tree) && IndexGrows(old(keyMap), keyMap) && old(calls) <= calls
      ensures typeName !in schema ==> r == Err(TypeError)
      ensures typeName in schema && KeyOf(item, typeName, schema[typeName].key, keyCallback, old(calls)).Err? ==>
        r == Err(KeyOf(item, typeName, schema[typeName].key, keyCallback, old(calls)).error)
      ensures r.Ok? ==> typeName in schema && KeyOf(item, typeName, schema[typeName].key, keyCallback, old(calls)).Ok?
      ensures r.Ok? ==> r.value == KeyOf(item, typeName, schema[typeName].key, keyCallback, old(calls)).value.0
      ensures r.Ok? ==> typeName in tree && r.value in tree[typeName] && typeName in keyMap && r.value in keyMap[typeName]
      ensures r.Ok? && parent.Some? ==>
        parent.value.0 in tree[typeName][r.value].refs && parent.value.1 in tree[typeName][r.value].refs[parent.value.0]
      ensures r.Ok? ==> exists rows :: Written(rows, Stored(Spread(item), schema[typeName].targets), keyMap[typeName][r.value], entities[typeName][keyMap[typeName][r.value]])
      ensures r.Ok? && !item.Obj? && keyCallback.None? ==> Indexable(item) && IndexLike(schema[typeName].key)
      decreases fuel, item, 3
    {
      if typeName !in schema {
        return Err(TypeError);
      }
      var keyPath := schema[typeName].key;
      var id := KeyOf(item, typeName, keyPath, keyCallback, calls);
      if id.Err? {
        return Err(id.error);
      }
      assert !item.Obj? && keyCallback.None? ==> Indexable(item) && IndexLike(keyPath) by {
        if !item.Obj? {
          KeyOfNonObject(item, typeName, keyPath, calls);
        }
      }
      var key := id.value.0;
      if id.value.1 {
        calls := calls + 1;
      }
      r := Place(parent, typeName, key, item, fuel);
    }

    /**
     * The rest of `applyObject` once the identity `key` is known: the node is
     * recorded with its parent, the relations applied, and the stored copy
     * upserted and indexed.
     */
    method Place(parent: ParentRef, typeName: string, key: Key, item: Value, fuel: nat) returns (r: Result<Key>)
      requires Valid() && typeName in schema
      requires Property(item, schema[typeName].key).Prim? || IsNullish(Property(item, schema[typeName].key))
      requires FromField(schema, keyCallback) ==> Property(item, schema[typeName].key) == Prim(key)
      modifies this
      ensures r.Ok? ==> Valid() && Grows(old(tree), tree) && IndexGrows(old(keyMap), keyMap) && old(calls) <= calls
      ensures r.Ok? ==> r.value == key
      ensures r.Ok? ==> typeName in tree && key in tree[typeName] && typeName in keyMap && key in keyMap[typeName]
      ensures r.Ok? && parent.Some? ==>
        parent.value.0 in tree[typeName][key].refs && parent.value.1 in tree[typeName][key].refs[parent.value.0]
      ensures r.Ok? ==> exists rows :: Written(rows, Stored(Spread(item), schema[typeName].targets), keyMap[typeName][key], entities[typeName][keyMap[typeName][key]])
      decreases fuel, item, 2
    {
      PropertySpread(item, schema[typeName].key);
      RecordParent(typeName, key, parent);
      ghost var recorded, indexed := tree, keyMap;
      var stored := ApplyTargets(typeName, key, item, fuel);
      if stored.Err? {
        return Err(stored.error);
      }
      GrowsTrans(old(tree), recorded, tree);
      IndexGrowsTrans(old(keyMap), indexed, keyMap);
      ghost var applied, rows := keyMap, RowsOf(entities, typeName);
      assert NodeGrows(recorded[typeName][key], tree[typeName][key]);
      var index := Store(typeName, key, stored.value);
      if index.Err? {
        return Err(index.error);
      }
      IndexGrowsTrans(old(keyMap), applied, keyMap);
      assert Written(rows, stored.value, keyMap[typeName][key], entities[typeName][keyMap[typeName][key]]);
      r := Ok(key);
    }

    /**
     * The loop over `Object.entries(targets)`: each relation with a value is
     * applied with this item as parent, recorded under `props` and deleted
     * from the copy. The copy is returned.
     */
    method ApplyTargets(typeName: string, key: Key, item: Value, fuel: nat) returns (r: Result<Fields>)
      requires Valid() && typeName in schema && typeName in tree && key in tree[typeName]
      requires FromField(schema, keyCallback) ==> Property(item, schema[typeName].key) == Prim(key)
      modifies this
      ensures r.Ok? ==> Valid() && Grows(old(tree), tree) && IndexGrows(old(keyMap), keyMap) && old(calls) <= calls
      ensures r.Ok? ==> typeName in tree && key in tree[typeName]
      ensures r.Ok? ==> r.value == Stored(Spread(item), schema[typeName].targets)
      ensures r.Ok? && FromField(schema, keyCallback) ==> Get(r.value, schema[typeName].key) == Prim(key)
      decreases fuel, item, 1
    {
      var targets := schema[typeName].targets;
      var fields := Spread(item);
      var normalizedItem := fields;
      assert FromField(schema, keyCallback) ==> Get(fields, schema[typeName].key) == Prim(key) by {
        PropertySpread(item, schema[typeName].key);
      }
      assert targets[..0] == [];
      for i := 0 to |targets|
        invariant Valid() && Grows(old(tree), tree) && IndexGrows(old(keyMap), keyMap) && old(calls) <= calls
        invariant typeName in tree && key in tree[typeName]
        invariant normalizedItem == Stored(fields, targets[..i])
        invariant FromField(schema, keyCallback) ==> Get(normalizedItem, schema[typeName].key) == Prim(key)
      {
        var (prop, target) := targets[i];
        StoredDelete(item, targets, i);
        ghost var before, indexed := tree, keyMap;
        var applied := ApplyTarget(typeName, key, item, prop, target, fuel);
        if applied.Err? {
          return Err(applied.error);
        }
        GrowsTrans(old(tree), before, tree);
        IndexGrowsTrans(old(keyMap), indexed, keyMap);
        assert applied.value.Some? && FromField(schema, keyCallback) ==> prop != schema[typeName].key;
        if applied.value.Some? {
          normalizedItem := normalizedItem - {prop};
        }
      }
      assert targets[..|targets|] == targets;
      r := Ok(normalizedItem);
    }

    /**
     * One relation `prop` of the item `(typeName, key)`: a nullish value is
     * skipped (`None`); a value whose shape contradicts `isArray` throws;
     * otherwise the value is applied with the item as parent, one level
     * deeper, and the child key(s) are recorded under `props[prop]`.
     */
    method ApplyTarget(typeName: string, key: Key, item: Value, prop: string, target: Target, fuel: nat) returns (r: Result<Option<Value>>)
      requires Valid() && typeName in tree && key in tree[typeName]
      modifies this
      ensures r.Ok? ==> Valid() && Grows(old(tree), tree) && IndexGrows(old(keyMap), keyMap) && old(calls) <= calls
      ensures r.Ok? ==> typeName in tree && key in tree[typeName]
      ensures IsNullish(Property(item, prop)) ==> r == Ok(None) && tree == old(tree) && keyMap == old(keyMap) && entities == old(entities)
      ensures !IsNullish(Property(item, prop)) && Mismatched(target, Property(item, prop)) ==> r == Err(ShapeMismatch(typeName, prop))
      ensures !IsNullish(Property(item, prop)) && !Mismatched(target, Property(item, prop)) && fuel == 0 ==> r == Err(StackOverflow)
      ensures r.Ok? ==> (r.value.Some? <==> !IsNullish(Property(item, prop)))
      ensures r.Ok? && r.value.Some? ==> prop in tree[typeName][key].props
      ensures r.Ok? && r.value.Some? ==> Members(r.value.value) <= Members(tree[typeName][key].props[prop])
      ensures r.Ok? && r.value.Some? && FromField(schema, keyCallback) ==> !Property(item, prop).Prim?
      decreases fuel, item, 0
    {
      // The source's check for an undefined target cannot fail here: a compiled target is always present.
      var nested := Property(item, prop);
      if IsNullish(nested) {
        return Ok(None);
      }
      if Mismatched(target, nested) {
        return Err(ShapeMismatch(typeName, prop));
      }
      if fuel == 0 {
        return Err(StackOverflow);
      }
      var targetRef := Apply(Some((typeName, key)), PropertyName(target.typeName), nested, fuel - 1);
      if targetRef.Err? {
        return Err(targetRef.error);
      }
      assert FromField(schema, keyCallback) ==> !nested.Prim? by {
        if FromField(schema, keyCallback) && nested.Prim? {
          // Apply gave an identity to a primitive, which only an index-like key path allows.
          assert false;
        }
      }
      // `targetRef` is an identity or an array of them: never `undefined`.
      ghost var applied, props := tree, tree[typeName][key].props;
      RecordProp(typeName, key, prop, targetRef.value);
      GrowsTrans(old(tree), applied, tree);
      if !IsNullish(Get(props, prop)) {
        MergeRefsMembers(props[prop], targetRef.value);
      }
      r := Ok(Some(targetRef.value));
    }

    /**
     * `tree[type][key]` is created when missing (`Objects.patch`); with a
     * parent, its key is pushed into `refs[parent.type]` unless already there.
     */
    method RecordParent(typeName: string, key: Key, parent: ParentRef)
      requires Valid()
      modifies this
      ensures Valid() && Grows(old(tree), tree)
      ensures keyMap == old(keyMap) && entities == old(entities) && calls == old(calls)
      ensures typeName in tree && key in tree[typeName]
      ensures tree == old(tree)[typeName := (if typeName in old(tree) then old(tree)[typeName] else map[])[key := tree[typeName][key]]]
      ensures typeName in old(tree) && key in old(tree)[typeName] ==> tree[typeName][key].props == old(tree)[typeName][key].props
      ensures parent.Some? ==> parent.value.0 in tree[typeName][key].refs && parent.value.1 in tree[typeName][key].refs[parent.value.0]
    {
      var typeTree := if typeName in tree then tree[typeName] else map[];
      var node := if key in typeTree then typeTree[key] else Node(map[], map[]);
      ghost var before := node;
      if parent.Some? {
        var (parentType, parentKey) := parent.value;
        var keys := [parentKey];
        if parentType in node.refs {
          keys := PushParent(node.refs[parentType], parentKey);
        }
        node := node.(refs := node.refs[parentType := keys]);
      }
      assert NodeGrows(before, node) && NodeDistinct(node);
      PutNode(tree, typeName, key, node);
      tree := tree[typeName := typeTree[key := node]];
    }

    /** The merge callback `keys => Arrays.pushDistinct(keys, parent.key).items` on an existing list of parent keys. */
    static method PushParent(keys: seq<Key>, parentKey: Key) returns (r: seq<Key>)
      ensures parentKey in r && forall x :: x in keys ==> x in r
      ensures r == if parentKey in keys then keys else keys + [parentKey]
      ensures Arrays.NoDuplicates(keys) ==> Arrays.NoDuplicates(r)
    {
      var a := new Arrays.JsArray(keys);
      Arrays.IndexOfFinds(a.items, parentKey);
      var _ := Arrays.PushDistinct(a, parentKey, None);
      r := a.items;
    }

    /** `Objects.patch(props, prop, targetRef, merge)` on the node `(typeName, key)`. */
    method RecordProp(typeName: string, key: Key, prop: string, targetRef: Value)
      requires Valid() && typeName in tree && key in tree[typeName]
      requires !IsNullish(targetRef)
      modifies this
      ensures Valid() && Grows(old(tree), tree)
      ensures keyMap == old(keyMap) && entities == old(entities) && calls == old(calls)
      ensures tree == old(tree)[typeName := old(tree)[typeName][key := old(tree)[typeName][key].(props := old(tree)[typeName][key].props[prop := PatchedRef(old(tree)[typeName][key].props, prop, targetRef)])]]
    {
      var node := tree[typeName][key];
      var props := PatchProp(node.props, prop, targetRef);
      assert NodeGrows(node, node.(props := props));
      PutNode(tree, typeName, key, node.(props := props));
      tree := tree[typeName := tree[typeName][key := node.(props := props)]];
    }

    /** `Objects.patch(props, prop, targetRef, merge)` on the `props` object of a node. */
    static method PatchProp(props: map<string, Value>, prop: string, targetRef: Value) returns (r: map<string, Value>)
      requires !IsNullish(targetRef)
      ensures r == props[prop := PatchedRef(props, prop, targetRef)]
    {
      var o := new Objects.JsObject(props);
      var _ := o.Patch(prop, targetRef, Some(existing => MergeRefs(existing, targetRef)));
      assert o.fields == props[prop := PatchedRef(props, prop, targetRef)];
      r := o.fields;
    }

    /**
     * `Arrays.upsert` of the stored copy into `entities[type]` by key-field
     * equality (a merge where the newer value wins), then `keyMap[type][key]`
     * is set to the row written.
     */
    method Store(typeName: string, key: Key, stored: Fields) returns (r: Result<nat>)
      requires Valid() && typeName in schema
      requires forall p :: p in Names(schema[typeName].targets) ==> IsNullish(Get(stored, p))
      requires Get(stored, schema[typeName].key).Prim? || IsNullish(Get(stored, schema[typeName].key))
      requires FromField(schema, keyCallback) ==> Get(stored, schema[typeName].key) == Prim(key)
      modifies this
      ensures Valid() && tree == old(tree) && calls == old(calls) && IndexGrows(old(keyMap), keyMap)
      ensures var up := Arrays.UpsertRow(RowsOf(old(entities), typeName), stored, Arrays.SameField(schema[typeName].key));
        && (up.Err? ==> r == Err(up.error))
        && (up.Ok? ==> r == Ok(up.value.1) && entities == old(entities)[typeName := up.value.0] && keyMap == WithIndex(old(keyMap), typeName, key, up.value.1))
      ensures r.Ok? ==> typeName in keyMap && key in keyMap[typeName] && keyMap[typeName][key] == r.value && r.value < |entities[typeName]|
      ensures r.Ok? ==> Written(RowsOf(old(entities), typeName), stored, r.value, entities[typeName][r.value])
    {
      var keyPath := schema[typeName].key;
      var up := UpsertTable(RowsOf(entities, typeName), stored, keyPath);
      if up.Err? {
        return Err(up.error);
      }
      var (table, index) := up.value;
      StoreKeeps(schema, keyMap, entities, FromField(schema, keyCallback), typeName, key, stored);
      entities := entities[typeName := table];
      keyMap := WithIndex(keyMap, typeName, key, index);
      r := Ok(index);
    }

    /** `Arrays.upsert(items, item, (a, b) => a[keyPath] === b[keyPath])` on the rows of one table. */
    static method UpsertTable(rows: seq<Fields>, item: Fields, keyPath: string) returns (r: Result<(seq<Fields>, nat)>)
      ensures r == Arrays.UpsertRow(rows, item, Arrays.SameField(keyPath))
    {
      var table := new Arrays.JsArray(rows);
      var index := Arrays.Upsert(table, item, Arrays.SameField(keyPath));
      if index.Err? {
        return Err(index.error);
      }
      r := Ok((table.items, index.value));
    }
  }

  /**
   * `normalizer(schema, defaultOptions)(rootType, rootData, options)`: the
   * normalised data of one call. The tables are indexed by identity, keep no
   * relation values and list each parent once; when no key callback is
   * given and no key path is one a string answers, every identity sits in
   * its row's key field, which is what a lookup by identity relies on.
   * Relations nest at most `fuel` deep; deeper ones stand for the source's
   * stack overflow.
   */
  method Normalize(schema: Schema, defaultCallback: Option<KeyCallback>, rootType: string, rootData: Value, callback: Option<KeyCallback>, fuel: nat)
    returns (r: Result<ImplData>)
    ensures r.Ok? ==> Indexed(schema, r.value.keyMap, r.value.entities, FromField(schema, ChosenCallback(callback, defaultCallback)))
    ensures r.Ok? ==> Stripped(schema, r.value.entities) && RefsDistinct(r.value.tree)
    ensures r.Ok? && FromField(schema, ChosenCallback(callback, defaultCallback)) ==>
      && Denormalizing.Consistent(ImplDenormalizer.ContextOf(schema, r.value, false))
      && Denormalizing.Consistent(ImplDenormalizer.ContextOf(schema, r.value, true))
    ensures IsNullish(rootData) ==> r == Ok(ImplData(map[], map[], map[]))
  {
    var n := new Normalization(schema, ChosenCallback(callback, defaultCallback));
    var root := n.Apply(None, rootType, rootData, fuel);
    if root.Err? {
      return Err(root.error);
    }
    r := Ok(ImplData(n.tree, n.keyMap, n.entities));
    if FromField(schema, n.keyCallback) {
      IndexedConsistent(schema, n.keyMap, n.entities, false, false);
      IndexedConsistent(schema, n.keyMap, n.entities, false, true);
    }
  }
}
