/*
 * The v3 normaliser, `normalizer(schema, defaults)(type, data, options)`: it
 * walks a nested value against the schema, replaces every relation property
 * of a copy of each item by the child identity (or identities), records that
 * value in the tree under `tree[type][key][prop]`, optionally adds the
 * parent to the copy's `_refs`, and adds the copy to the table of its type;
 * a copy with an identity already indexed is merged into the old row, where
 * the first value of a property wins.
 */
module V3Normalizer {
  import opened Values
  import opened SchemaTypes
  import opened NormalizedTypes
  import opened Normalizing
  import Utils
  import Denormalizing
  import V3Denormalizer

  /** `{ type, key }` of the item a nested value belongs to; `undefined` at the root. */
  type ParentRef = Option<(string, Key)>

  /**
   * `options?.reverseRefs !== undefined ? options.reverseRefs :
   * (defaultOptions?.reverseRefs ?? false)`.
   */
  function ReverseRefsOn(call: Option<bool>, defaults: Option<bool>): bool
  {
    if call.Some? then call.value else if defaults.Some? then defaults.value else false
  }

  /** `{ [parent.type]: new Set([parent.key]) }` */
  function RefsValue(parent: (string, Key)): (v: Value)
    ensures Utils.WellFormedRefs(v)
    ensures forall t :: Utils.RefsOf(v, t) == if t == parent.0 then {parent.1} else {}
  {
    Obj(map[parent.0 := KeySet({parent.1})])
  }

  /** `{ ...item }`, with `_refs` naming the parent when there is one and reverse references are on. */
  function WithRefs(fields: Fields, parent: ParentRef, hasRefs: bool): (r: Fields)
    ensures parent.Some? && hasRefs ==> Get(r, "_refs") == RefsValue(parent.value)
    ensures forall p :: p != "_refs" || parent.None? || !hasRefs ==> Get(r, p) == Get(fields, p)
  {
    if parent.Some? && hasRefs then fields["_refs" := RefsValue(parent.value)] else fields
  }

  /** The merge functions handed to `mergeObjects`: `{ _refs: mergeReverseReferences }` when reverse references are on. */
  function MergeFns(hasRefs: bool): map<string, (Value, Value) -> Value>
  {
    if hasRefs then map["_refs" := (a: Value, b: Value) => Utils.UnionReverseRefs(a, b)] else map[]
  }

  /** The relation properties of an item that hold a value: the ones the copy gets a child identity for. */
  function LiveProps(item: Value, targets: seq<(string, Target)>): (r: set<string>)
    ensures forall p :: p in r <==> p in Names(targets) && !IsNullish(Property(item, p))
  {
    set p | p in Names(targets) && !IsNullish(Property(item, p))
  }

  /** One more relation handled: its property joins the live ones when its value is not nullish. */
  lemma LivePropsStep(item: Value, targets: seq<(string, Target)>, i: nat)
    requires i < |targets|
    ensures LiveProps(item, targets[..i + 1]) ==
      LiveProps(item, targets[..i]) + (if IsNullish(Property(item, targets[i].0)) then {} else {targets[i].0})
  {
    assert forall j :: 0 <= j < i ==> targets[..i + 1][j] == targets[..i][j];
    assert targets[..i + 1][i] == targets[i];
    assert Names(targets[..i + 1]) == Names(targets[..i]) + {targets[i].0};
  }

  /**
   * The target of the last of the first `n` entries named `p`: the one
   * whose child keys the copy keeps under `p` once `n` relations are done.
   */
  function LastTarget(targets: seq<(string, Target)>, n: nat, p: string): Option<Target>
    requires n <= |targets|
  {
    if n == 0 then None
    else if targets[n - 1].0 == p then Some(targets[n - 1].1)
    else LastTarget(targets, n - 1, p)
  }

  /** There is such a target exactly when one of the first `n` entries is named `p`, and it is that entry's. */
  lemma {:induction false} LastTargetIn(targets: seq<(string, Target)>, n: nat, p: string)
    requires n <= |targets|
    ensures LastTarget(targets, n, p).Some? <==> exists i :: 0 <= i < n && targets[i].0 == p
    ensures LastTarget(targets, n, p).Some? ==> exists i :: 0 <= i < n && targets[i] == (p, LastTarget(targets, n, p).value)
  {
    if n > 0 && targets[n - 1].0 != p {
      LastTargetIn(targets, n - 1, p);
    }
  }

  /** With distinct property names, that is the target `targets[p]` looks up. */
  lemma TargetForLookup(targets: seq<(string, Target)>, p: string)
    requires DistinctNames(targets)
    ensures Lookup(targets, p) == LastTarget(targets, |targets|, p)
  {
    LastTargetIn(targets, |targets|, p);
  }

  /**
   * What `applyObject` writes under a relation: for an array target an array
   * of truthy child keys, otherwise one child identity indexed under the
   * target's type.
   */
  predicate ChildKeys(keyMap: KeyMap, target: Target, v: Value)
  {
    if target.isArray then v.Arr? && forall i :: 0 <= i < |v.items| ==> IsTruthy(v.items[i])
    else v.Prim? && PropertyName(target.typeName) in keyMap && v.key in keyMap[PropertyName(target.typeName)]
  }

  /** Once the first `n` relations are done, every property written holds the child keys of its relation. */
  ghost predicate ChildrenWritten(keyMap: KeyMap, targets: seq<(string, Target)>, n: nat, written: map<string, Value>)
    requires n <= |targets|
  {
    forall p :: p in written ==> LastTarget(targets, n, p).Some? && ChildKeys(keyMap, LastTarget(targets, n, p).value, written[p])
  }

  /**
   * One more relation: the child keys just written join those of the earlier
   * relations, which stay child keys as the index grows.
   */
  lemma ChildrenWrittenStep(before: KeyMap, after: KeyMap, item: Value, targets: seq<(string, Target)>, i: nat,
                            written0: map<string, Value>, written: map<string, Value>)
    requires i < |targets| && IndexGrows(before, after)
    requires ChildrenWritten(before, targets, i, written0)
    requires targets[i].0 in written0 ==> !IsNullish(Property(item, targets[i].0))
    requires IsNullish(Property(item, targets[i].0)) ==> written == written0
    requires !IsNullish(Property(item, targets[i].0)) ==>
      targets[i].0 in written && written == written0[targets[i].0 := written[targets[i].0]] &&
      ChildKeys(after, targets[i].1, written[targets[i].0])
    ensures ChildrenWritten(after, targets, i + 1, written)
  {
    var prop := targets[i].0;
    forall p | p in written
      ensures LastTarget(targets, i + 1, p).Some? && ChildKeys(after, LastTarget(targets, i + 1, p).value, written[p])
    {
      if p == prop {
        assert !IsNullish(Property(item, prop));
      } else {
        assert p in written0 && written[p] == written0[p];
        assert ChildKeys(before, LastTarget(targets, i, p).value, written0[p]);
      }
    }
  }

  /** Child keys written stay child keys while the index grows. */
  lemma ChildrenWrittenGrow(before: KeyMap, after: KeyMap, targets: seq<(string, Target)>, n: nat, written: map<string, Value>)
    requires n <= |targets| && ChildrenWritten(before, targets, n, written) && IndexGrows(before, after)
    ensures ChildrenWritten(after, targets, n, written)
  {
    forall p | p in written
      ensures ChildKeys(after, LastTarget(targets, n, p).value, written[p])
    {
      assert ChildKeys(before, LastTarget(targets, n, p).value, written[p]);
    }
  }

  /**
   * The row the copy ended in at `index`: appended to the table, or merged
   * into the old row of the same identity with `mergeObjects`.
   */
  predicate Written(rows: seq<Fields>, item: Fields, index: nat, row: Fields, hasRefs: bool)
  {
    || (index == |rows| && row == item)
    || (index < |rows| && row == Utils.MergeObjects(rows[index], item, MergeFns(hasRefs)))
  }

  /**
   * A merged row keeps what the old row had: a property of the old row that
   * is not blank keeps its value (first value wins), except `_refs` when
   * reverse references are on; a blank or missing one takes the copy's.
   */
  lemma WrittenFirstWins(rows: seq<Fields>, item: Fields, index: nat, row: Fields, hasRefs: bool, p: string)
    requires Written(rows, item, index, row, hasRefs) && index < |rows|
    ensures p in rows[index] && !IsBlank(rows[index][p]) && !(hasRefs && p == "_refs") ==> p in row && row[p] == rows[index][p]
    ensures (p !in rows[index] || IsBlank(rows[index][p])) && p in item ==> p in row && row[p] == item[p]
    ensures row.Keys == rows[index].Keys + item.Keys
  {
    if p in rows[index] || p in item {
      Utils.MergeObjectsAt(rows[index], item, MergeFns(hasRefs), p);
    }
  }

  /**
   * With reverse references on, the row written for a copy that names its
   * parent under `_refs` names that parent too; merged into a row whose
   * `_refs` is an object of Sets, it holds the union of both, type by type.
   */
  lemma WrittenRefs(rows: seq<Fields>, item: Fields, index: nat, row: Fields, parent: (string, Key))
    requires Written(rows, item, index, row, true)
    requires Get(item, "_refs") == RefsValue(parent)
    requires index < |rows| ==> IsBlank(Get(rows[index], "_refs")) || Utils.WellFormedRefs(Get(rows[index], "_refs"))
    ensures Utils.WellFormedRefs(Get(row, "_refs"))
    ensures parent.1 in Utils.RefsOf(Get(row, "_refs"), parent.0)
    ensures index < |rows| && !IsBlank(Get(rows[index], "_refs")) ==>
      forall t :: Utils.RefsOf(Get(row, "_refs"), t) == Utils.RefsOf(Get(rows[index], "_refs"), t) + Utils.RefsOf(RefsValue(parent), t)
  {
    if index < |rows| {
      var old_ := rows[index];
      Utils.MergeObjectsAt(old_, item, MergeFns(true), "_refs");
      if !IsBlank(Get(old_, "_refs")) {
        Utils.UnionReverseRefsSpec(old_["_refs"], RefsValue(parent));
      }
    }
  }

  /**
   * The index, tables and row index after adding `item` with identity `k`
   * to the table of `t`: a new table, a row appended, or the item merged
   * into the row already indexed.
   */
  function Placed(keyMap: KeyMap, entities: Tables, t: string, k: Key, item: Fields, hasRefs: bool): (KeyMap, Tables, nat)
    requires keyMap.Keys == entities.Keys && InRange(keyMap, entities)
  {
    if t !in entities then (keyMap[t := map[k := 0]], entities[t := [item]], 0)
    else if k !in keyMap[t] then (keyMap[t := keyMap[t][k := |entities[t]|]], entities[t := entities[t] + [item]], |entities[t]|)
    else
      var i := keyMap[t][k];
      (keyMap, entities[t := entities[t][i := Utils.MergeObjects(entities[t][i], item, MergeFns(hasRefs))]], i)
  }

  /** A merge keeps a key field that holds an identity (unless `_refs` is merged as reverse references). */
  lemma MergeKeepsKey(row: Fields, item: Fields, hasRefs: bool, keyPath: string, k: Key)
    requires Get(row, keyPath) == Prim(k) && !(hasRefs && keyPath == "_refs")
    ensures Get(Utils.MergeObjects(row, item, MergeFns(hasRefs)), keyPath) == Prim(k)
  {
    Utils.MergeObjectsAt(row, item, MergeFns(hasRefs), keyPath);
  }

  /**
   * Adding an item keeps the index: the identity is indexed at the row
   * written, which is the item or the old row merged with it, and with
   * identities from key fields the row written carries the identity (a
   * merge keeps the old row's key field).
   */
  lemma PlacedKeeps(schema: Schema, keyMap: KeyMap, entities: Tables, fromField: bool, t: string, k: Key, item: Fields, hasRefs: bool)
    requires Indexed(schema, keyMap, entities, fromField) && keyMap.Keys == entities.Keys && t in schema
    requires fromField ==> Get(item, schema[t].key) == Prim(k)
    requires fromField && hasRefs ==> schema[t].key != "_refs"
    ensures InRange(keyMap, entities)
    ensures var p := Placed(keyMap, entities, t, k, item, hasRefs);
      && Indexed(schema, p.0, p.1, fromField) && p.0.Keys == p.1.Keys
      && p.0 == WithIndex(keyMap, t, k, p.2) && IndexGrows(keyMap, p.0)
      && t in p.1 && p.2 < |p.1[t]|
      && Written(RowsOf(entities, t), item, p.2, p.1[t][p.2], hasRefs)
  {
    if t !in entities {
      IndexedStore(schema, keyMap, entities, fromField, t, k, 0, [item]);
    } else if k !in keyMap[t] {
      IndexedStore(schema, keyMap, entities, fromField, t, k, |entities[t]|, entities[t] + [item]);
    } else {
      var rows, index := entities[t], keyMap[t][k];
      var row := Utils.MergeObjects(rows[index], item, MergeFns(hasRefs));
      if fromField {
        MergeKeepsKey(rows[index], item, hasRefs, schema[t].key, k);
      }
      IndexedStore(schema, keyMap, entities, fromField, t, k, index, rows[index := row]);
      assert keyMap[t][k := index] == keyMap[t];
    }
  }

  /** The tree only grows: a node, once there, stays, and so do its properties. */
  ghost predicate TreeGrows(before: V3Tree, after: V3Tree)
  {
    forall t, k :: t in before && k in before[t] ==> t in after && k in after[t] && before[t][k].Keys <= after[t][k].Keys
  }

  lemma TreeGrowsTrans(a: V3Tree, b: V3Tree, c: V3Tree)
    requires TreeGrows(a, b) && TreeGrows(b, c)
    ensures TreeGrows(a, c)
  {
  }

  /** After one more relation the tree and index have still only grown, and the copy's new properties are the live ones so far. */
  lemma TargetDone(tree0: V3Tree, before: V3Tree, tree: V3Tree, keyMap0: KeyMap, indexed: KeyMap, keyMap: KeyMap,
                   item: Value, targets: seq<(string, Target)>, i: nat, written0: map<string, Value>, written: map<string, Value>)
    requires i < |targets|
    requires TreeGrows(tree0, before) && TreeGrows(before, tree)
    requires IndexGrows(keyMap0, indexed) && IndexGrows(indexed, keyMap)
    requires written0.Keys == LiveProps(item, targets[..i])
    requires written.Keys == written0.Keys + (if IsNullish(Property(item, targets[i].0)) then {} else {targets[i].0})
    ensures TreeGrows(tree0, tree) && IndexGrows(keyMap0, keyMap)
    ensures written.Keys == LiveProps(item, targets[..i + 1])
  {
    TreeGrowsTrans(tree0, before, tree);
    IndexGrowsTrans(keyMap0, indexed, keyMap);
    LivePropsStep(item, targets, i);
  }

  /** The node `(t, k)` of the tree records each of `props`. */
  ghost predicate Recorded(tree: V3Tree, t: string, k: Key, props: set<string>)
  {
    forall p :: p in props ==> t in tree && k in tree[t] && p in tree[t][k]
  }

  /** What a node records stays recorded while the tree grows. */
  lemma RecordedGrows(before: V3Tree, after: V3Tree, t: string, k: Key, props: set<string>)
    requires Recorded(before, t, k, props) && TreeGrows(before, after)
    ensures Recorded(after, t, k, props)
  {
    if props != {} {
      var p :| p in props;
      assert before[t][k].Keys <= after[t][k].Keys;
    }
  }

  /** A property the node now holds joins those it records. */
  lemma RecordedAdd(tree: V3Tree, t: string, k: Key, props: set<string>, p: string)
    requires Recorded(tree, t, k, props) && t in tree && k in tree[t] && p in tree[t][k]
    ensures Recorded(tree, t, k, props + {p})
  {
  }

  /** Setting a property of the written part sets it in the copy. */
  lemma UpdateUnion(base: Fields, written: map<string, Value>, p: string, v: Value)
    ensures base + written[p := v] == (base + written)[p := v]
  {
  }

  /** No configured type names `_refs` as its key field. */
  ghost predicate RefsKeyFree(schema: Schema)
  {
    forall t :: t in schema ==> schema[t].key != "_refs"
  }

  /**
   * When every identity sits in the key field of its row: no key callback,
   * no key path a string answers (a string keyed by `length` is stored
   * without it, and one keyed by an index can stand in a key field that is
   * also a relation, which is then overwritten), and no `_refs` written over
   * a key field.
   */
  ghost predicate FromField(schema: Schema, keyCallback: Option<KeyCallback>, hasRefs: bool)
  {
    keyCallback.None? && NamedKeys(schema) && (!hasRefs || RefsKeyFree(schema))
  }

  /** The state of one `normalizer(...)(type, data, options)` call: the closure's `normalizedResult`. */
  class Normalization {
    const schema: Schema
    const keyCallback: Option<KeyCallback>
    const hasRefs: bool
    var keyMap: KeyMap
    var tree: V3Tree
    var entities: Tables
    /** How often `uniqueKeyCallback` has been called. */
    var calls: nat

    /** Every table has an index and every index a table; the index points into the tables. */
    ghost predicate Valid()
      reads this
    {
      && Indexed(schema, keyMap, entities, FromField(schema, keyCallback, hasRefs))
      && keyMap.Keys == entities.Keys
    }

    /** `{ keyMap: {}, tree: {}, entities: {} }` */
    constructor (schema: Schema, keyCallback: Option<KeyCallback>, hasRefs: bool)
      ensures this.schema == schema && this.keyCallback == keyCallback && this.hasRefs == hasRefs
      ensures keyMap == map[] && tree == map[] && entities == map[] && calls == 0
      ensures Valid()
    {
      this.schema := schema;
      this.keyCallback := keyCallback;
      this.hasRefs := hasRefs;
      keyMap := map[];
      tree := map[];
      entities := map[];
      calls := 0;
    }

    /**
     * `apply(parent, type, item)`: nothing for a nullish value, the keys of
     * an array's items, or the key of an object. `fuel` bounds how deep
     * relations may nest: the source recurses without a bound.
     */
    method Apply(parent: ParentRef, typeName: string, item: Value, fuel: nat) returns (r: Result<Value>)
      requires Valid()
      modifies this
      ensures r.Ok? ==> Valid() && TreeGrows(old(tree), tree) && IndexGrows(old(keyMap), keyMap) && old(calls) <= calls
      ensures IsNullish(item) ==> r == Ok(Undefined) && tree == old(tree) && keyMap == old(keyMap) && entities == old(entities)
      ensures r.Ok? && item.Arr? ==> r.value.Arr? && |r.value.items| <= |item.items|
      ensures r.Ok? && item.Arr? ==> forall i :: 0 <= i < |r.value.items| ==> IsTruthy(r.value.items[i])
      ensures r.Ok? && !IsNullish(item) && !item.Arr? ==>
        r.value.Prim? && typeName in keyMap && r.value.key in keyMap[typeName]
      ensures r.Ok? && !IsNullish(item) && !item.Arr? && !item.Obj? && keyCallback.None? ==>
        typeName in schema && Indexable(item) && IndexLike(schema[typeName].key)
      decreases fuel, item, 6
    {
      if IsNullish(item) {
        return Ok(Undefined);
      } else if item.Arr? {
        ghost var each;
        r, each := ApplyArray(parent, typeName, item.items, fuel);
      } else {
        var key := ApplyObject(parent, typeName, item, fuel);
        if key.Err? {
          return Err(key.error);
        }
        r := Ok(Prim(key.value));
      }
    }

    /**
     * `applyArray(parent, type, items)`: `apply` on each item in order, then
     * the falsy results (no key, a key `0` or `''`) are dropped. `each` holds
     * what `apply` gave for each item.
     */
    method ApplyArray(parent: ParentRef, typeName: string, items: seq<Value>, fuel: nat) returns (r: Result<Value>, ghost each: seq<Value>)
      requires Valid()
      modifies this
      ensures r.Ok? ==> Valid() && TreeGrows(old(tree), tree) && IndexGrows(old(keyMap), keyMap) && old(calls) <= calls
      ensures r.Ok? ==> |each| == |items| && r.value == Arr(Truthy(each))
      ensures r.Ok? ==> forall i :: 0 <= i < |items| ==> (each[i] == Undefined <==> IsNullish(items[i]))
      ensures r.Ok? ==> forall i :: 0 <= i < |items| && !IsNullish(items[i]) && !items[i].Arr? ==>
        each[i].Prim? && typeName in keyMap && each[i].key in keyMap[typeName]
      ensures r.Ok? ==> |r.value.items| <= |items| && forall i :: 0 <= i < |r.value.items| ==> IsTruthy(r.value.items[i])
      decreases fuel, Arr(items), 5
    {
      each := [];
      var keys: seq<Value> := [];
      for i := 0 to |items|
        invariant Valid() && TreeGrows(old(tree), tree) && IndexGrows(old(keyMap), keyMap) && old(calls) <= calls
        invariant |each| == i && keys == Truthy(each)
        invariant forall j :: 0 <= j < i ==> (each[j] == Undefined <==> IsNullish(items[j]))
        invariant forall j :: 0 <= j < i && !IsNullish(items[j]) && !items[j].Arr? ==>
          each[j].Prim? && typeName in keyMap && each[j].key in keyMap[typeName]
      {
        ghost var before, indexed := tree, keyMap;
        var key := Apply(parent, typeName, items[i], fuel);
        if key.Err? {
          return Err(key.error), each;
        }
        TreeGrowsTrans(old(tree), before, tree);
        IndexGrowsTrans(old(keyMap), indexed, keyMap);
        TruthySnoc(each, key.value);
        each := each + [key.value];
        if IsTruthy(key.value) {
          keys := keys + [key.value];
        }
      }
      TruthySpec(each);
      r := Ok(Arr(keys));
    }

    /**
     * `applyObject(parent, type, item)`: the item's identity, the copy with
     * `_refs` and the child identities of its relations, and that copy added
     * to (or merged into) the table of its type and indexed.
     */
    method ApplyObject(parent: ParentRef, typeName: string, item: Value, fuel: nat) returns (r: Result<Key>)
      requires Valid()
      modifies this
      ensures r.Ok? ==> Valid() && TreeGrows(old(tree), tree) && IndexGrows(old(keyMap), keyMap) && old(calls) <= calls
      ensures typeName !in schema ==> r == Err(TypeError)
      ensures typeName in schema && KeyOf(item, typeName, schema[typeName].key, keyCallback, old(calls)).Err? ==>
        r == Err(KeyOf(item, typeName, schema[typeName].key, keyCallback, old(calls)).error)
      ensures r.Ok? ==> typeName in schema && KeyOf(item, typeName, schema[typeName].key, keyCallback, old(calls)).Ok?
      ensures r.Ok? ==> r.value == KeyOf(item, typeName, schema[typeName].key, keyCallback, old(calls)).value.0
      ensures r.Ok? ==> typeName in keyMap && r.value in keyMap[typeName] && 0 <= keyMap[typeName][r.value] < |entities[typeName]|
      ensures r.Ok? ==> Recorded(tree, typeName, r.value, LiveProps(item, schema[typeName].targets))
      ensures r.Ok? ==> exists rows, written: map<string, Value> ::
        && written.Keys == LiveProps(item, schema[typeName].targets)
        && ChildrenWritten(keyMap, schema[typeName].targets, |schema[typeName].targets|, written)
        && Written(rows, WithRefs(Spread(item), parent, hasRefs) + written, keyMap[typeName][r.value], entities[typeName][keyMap[typeName][r.value]], hasRefs)
      ensures r.Ok? && !item.Obj? && keyCallback.None? ==> Indexable(item) && IndexLike(schema[typeName].key)
      decreases fuel, item, 4
    {
      if typeName !in schema {
        return Err(TypeError);
      }
      var fields := Spread(item);
      var id := KeyOf(item, typeName, schema[typeName].key, keyCallback, calls);
      if id.Err? {
        return Err(id.error);
      }
      PropertySpread(item, schema[typeName].key);
      if !item.Obj? {
        KeyOfNonObject(item, typeName, schema[typeName].key, calls);
      }
      var key := id.value.0;
      if id.value.1 {
        calls := calls + 1;
      }
      ghost var written;
      var base := WithRefs(fields, parent, hasRefs);
      var normalizedItem;
      normalizedItem, written := ApplyTargets(parent, typeName, key, item, base, fuel);
      if normalizedItem.Err? {
        return Err(normalizedItem.error);
      }
      assert FromField(schema, keyCallback, hasRefs) ==> Get(normalizedItem.value, schema[typeName].key) == Prim(key);
      ghost var applied, rows := keyMap, RowsOf(entities, typeName);
      var index := Store(typeName, key, normalizedItem.value);
      IndexGrowsTrans(old(keyMap), applied, keyMap);
      ChildrenWrittenGrow(applied, keyMap, schema[typeName].targets, |schema[typeName].targets|, written);
      assert Written(rows, base + written, keyMap[typeName][key], entities[typeName][keyMap[typeName][key]], hasRefs);
      r := Ok(key);
    }

    /**
     * The loop over `Object.entries(targets)`: each relation with a value is
     * applied with this item as parent, and its property in the copy `base`
     * is replaced by the child identity or identities (`written`).
     */
    method ApplyTargets(parent: ParentRef, typeName: string, key: Key, item: Value, base: Fields, fuel: nat)
      returns (r: Result<Fields>, ghost written: map<string, Value>)
      requires Valid() && typeName in schema
      requires FromField(schema, keyCallback, hasRefs) ==> Property(item, schema[typeName].key) == Prim(key)
      modifies this
      ensures r.Ok? ==> Valid() && TreeGrows(old(tree), tree) && IndexGrows(old(keyMap), keyMap) && old(calls) <= calls
      ensures r.Ok? ==> r.value == base + written && written.Keys == LiveProps(item, schema[typeName].targets)
      ensures r.Ok? ==> ChildrenWritten(keyMap, schema[typeName].targets, |schema[typeName].targets|, written)
      ensures r.Ok? ==> Recorded(tree, typeName, key, written.Keys)
      ensures r.Ok? && FromField(schema, keyCallback, hasRefs) ==> schema[typeName].key !in written
      decreases fuel, item, 3
    {
      var targets := schema[typeName].targets;
      var normalizedItem := base;
      written := map[];
      assert targets[..0] == [];
      ghost var tree0, keyMap0, calls0 := tree, keyMap, calls;
      for i := 0 to |targets|
        invariant Progress(tree0, keyMap0, calls0, typeName, key, item, base, targets, i, normalizedItem, written)
      {
        var next;
        next, written := NextTarget(parent, typeName, key, item, base, normalizedItem, written, tree0, keyMap0, calls0, i, fuel);
        if next.Err? {
          return Err(next.error), written;
        }
        normalizedItem := next.value;
      }
      assert targets[..|targets|] == targets;
      r := Ok(normalizedItem);
    }

    /** Where that loop stands once the first `i` relations are done. */
    ghost predicate Progress(tree0: V3Tree, keyMap0: KeyMap, calls0: nat, typeName: string, key: Key, item: Value,
                             base: Fields, targets: seq<(string, Target)>, i: nat, normalizedItem: Fields,
                             written: map<string, Value>)
      reads this
    {
      && i <= |targets| && typeName in schema && targets == schema[typeName].targets
      && Valid() && TreeGrows(tree0, tree) && IndexGrows(keyMap0, keyMap) && calls0 <= calls
      && normalizedItem == base + written && written.Keys == LiveProps(item, targets[..i])
      && ChildrenWritten(keyMap, targets, i, written)
      && Recorded(tree, typeName, key, written.Keys)
      && (FromField(schema, keyCallback, hasRefs) ==> schema[typeName].key !in written)
    }

    /** The `i`th turn of that loop, as `ReplaceTarget` does it, kept in step with the loop's progress. */
    method NextTarget(parent: ParentRef, typeName: string, key: Key, item: Value, ghost base: Fields,
                      normalizedItem: Fields, ghost written0: map<string, Value>,
                      ghost tree0: V3Tree, ghost keyMap0: KeyMap, ghost calls0: nat, i: nat, fuel: nat)
      returns (r: Result<Fields>, ghost written: map<string, Value>)
      requires typeName in schema && i < |schema[typeName].targets|
      requires Progress(tree0, keyMap0, calls0, typeName, key, item, base, schema[typeName].targets, i, normalizedItem, written0)
      requires FromField(schema, keyCallback, hasRefs) ==> Property(item, schema[typeName].key) == Prim(key)
      modifies this
      ensures r.Ok? ==>
        && typeName in schema
        && Progress(tree0, keyMap0, calls0, typeName, key, item, base, schema[typeName].targets, i + 1, r.value, written)
      decreases fuel, item, 2
    {
      var targets := schema[typeName].targets;
      var (prop, target) := targets[i];
      ghost var before, indexed := tree, keyMap;
      assert prop in written0 ==> !IsNullish(Property(item, prop));
      r, written := ReplaceTarget(parent, typeName, key, item, prop, target, base, normalizedItem, written0, targets, i, fuel);
      if r.Ok? {
        TargetDone(tree0, before, tree, keyMap0, indexed, keyMap, item, targets, i, written0, written);
      }
    }

    /**
     * One turn of that loop: the relation `prop` is applied and, when it held
     * a value, its property in the copy is set to the result.
     */
    method ReplaceTarget(parent: ParentRef, typeName: string, key: Key, item: Value, prop: string, target: Target,
                         ghost base: Fields, normalizedItem: Fields, ghost written0: map<string, Value>,
                         ghost targets: seq<(string, Target)>, ghost i: nat, fuel: nat)
      returns (r: Result<Fields>, ghost written: map<string, Value>)
      requires Valid() && typeName in schema
      requires i < |targets| && targets[i] == (prop, target)
      requires ChildrenWritten(keyMap, targets, i, written0)
      requires prop in written0 ==> !IsNullish(Property(item, prop))
      requires FromField(schema, keyCallback, hasRefs) ==> Property(item, schema[typeName].key) == Prim(key)
      requires FromField(schema, keyCallback, hasRefs) ==> schema[typeName].key !in written0
      requires normalizedItem == base + written0 && Recorded(tree, typeName, key, written0.Keys)
      modifies this
      ensures r.Ok? ==> Valid() && TreeGrows(old(tree), tree) && IndexGrows(old(keyMap), keyMap) && old(calls) <= calls
      ensures r.Ok? ==> r.value == base + written
      ensures r.Ok? ==> written.Keys == written0.Keys + (if IsNullish(Property(item, prop)) then {} else {prop})
      ensures r.Ok? && IsNullish(Property(item, prop)) ==> written == written0
      ensures r.Ok? && !IsNullish(Property(item, prop)) ==>
        && typeName in tree && key in tree[typeName] && prop in tree[typeName][key]
        && written == written0[prop := tree[typeName][key][prop]]
        && ChildKeys(keyMap, target, written[prop])
      ensures r.Ok? ==> ChildrenWritten(keyMap, targets, i + 1, written)
      ensures r.Ok? ==> Recorded(tree, typeName, key, written.Keys)
      ensures r.Ok? && FromField(schema, keyCallback, hasRefs) ==> schema[typeName].key !in written
      decreases fuel, item, 1
    {
      written := written0;
      ghost var before, indexed := tree, keyMap;
      var applied := ApplyTarget(parent, typeName, key, item, prop, target, fuel);
      if applied.Err? {
        return Err(applied.error), written;
      }
      RecordedGrows(before, tree, typeName, key, written.Keys);
      r := Ok(normalizedItem);
      if applied.value.Some? {
        var childKeys := applied.value.value;
        RecordedAdd(tree, typeName, key, written.Keys, prop);
        UpdateUnion(base, written, prop, childKeys);
        r := Ok(normalizedItem[prop := childKeys]);
        written := written[prop := childKeys];
      }
      ChildrenWrittenStep(indexed, keyMap, item, targets, i, written0, written);
    }

    /**
     * One relation `prop` of the item `(typeName, key)`: a nullish value is
     * skipped (`None`); a value whose shape contradicts `isArray` throws
     * (while building its message, which reads the parent's type, a
     * TypeError at the root); otherwise the value is applied with the item
     * as parent, one level deeper, and the result recorded in the tree.
     */
    method ApplyTarget(parent: ParentRef, typeName: string, key: Key, item: Value, prop: string, target: Target, fuel: nat)
      returns (r: Result<Option<Value>>)
      requires Valid()
      modifies this
      ensures r.Ok? ==> Valid() && TreeGrows(old(tree), tree) && IndexGrows(old(keyMap), keyMap) && old(calls) <= calls
      ensures IsNullish(Property(item, prop)) ==> r == Ok(None) && tree == old(tree) && keyMap == old(keyMap) && entities == old(entities)
      ensures !IsNullish(Property(item, prop)) && Mismatched(target, Property(item, prop)) ==>
        r == Err(if parent.None? then TypeError else ShapeMismatch(parent.value.0, prop))
      ensures !IsNullish(Property(item, prop)) && !Mismatched(target, Property(item, prop)) && fuel == 0 ==> r == Err(StackOverflow)
      ensures r.Ok? ==> (r.value.Some? <==> !IsNullish(Property(item, prop)))
      ensures r.Ok? && r.value.Some? ==> typeName in tree && key in tree[typeName] && prop in tree[typeName][key]
      ensures r.Ok? && r.value.Some? ==> tree[typeName][key][prop] == r.value.value
      ensures r.Ok? && r.value.Some? && target.isArray ==> r.value.value.Arr?
      ensures r.Ok? && r.value.Some? && !target.isArray ==> r.value.value.Prim?
      ensures r.Ok? && r.value.Some? ==> ChildKeys(keyMap, target, r.value.value)
      ensures r.Ok? && r.value.Some? && FromField(schema, keyCallback, hasRefs) ==> !Property(item, prop).Prim?
      decreases fuel, item, 0
    {
      var nested := Property(item, prop);
      if IsNullish(nested) {
        return Ok(None);
      }
      if Mismatched(target, nested) {
        return Err(if parent.None? then TypeError else ShapeMismatch(parent.value.0, prop));
      }
      if fuel == 0 {
        return Err(StackOverflow);
      }
      var targetRef := Apply(Some((typeName, key)), PropertyName(target.typeName), nested, fuel - 1);
      if targetRef.Err? {
        return Err(targetRef.error);
      }
      ghost var before := tree;
      RecordTree(typeName, key, prop, targetRef.value);
      TreeGrowsTrans(old(tree), before, tree);
      r := Ok(Some(targetRef.value));
    }

    /** `tree[type][key][prop] = targetRef`, creating the type's Map and the node's Map when missing. */
    method RecordTree(typeName: string, key: Key, prop: string, targetRef: Value)
      modifies this
      ensures keyMap == old(keyMap) && entities == old(entities) && calls == old(calls)
      ensures TreeGrows(old(tree), tree)
      ensures typeName in tree && key in tree[typeName] && prop in tree[typeName][key]
      ensures tree == old(tree)[typeName := tree[typeName]]
      ensures tree[typeName] == (if typeName in old(tree) then old(tree)[typeName] else map[])[key := tree[typeName][key]]
      ensures tree[typeName][key] ==
        (if typeName in old(tree) && key in old(tree)[typeName] then old(tree)[typeName][key] else map[])[prop := targetRef]
    {
      var typeTree := if typeName in tree then tree[typeName] else map[];
      var node := if key in typeTree then typeTree[key] else map[];
      tree := tree[typeName := typeTree[key := node[prop := targetRef]]];
    }

    /**
     * Adding the copy to `entities[type]`: the first item of a type starts
     * its table and index; an identity not yet indexed is appended; an
     * identity already indexed is merged into its row (`mergeObjects`, with
     * `mergeReverseReferences` for `_refs` when reverse references are on).
     */
    method Store(typeName: string, key: Key, stored: Fields) returns (index: nat)
      requires Valid() && typeName in schema
      requires FromField(schema, keyCallback, hasRefs) ==> Get(stored, schema[typeName].key) == Prim(key)
      modifies this
      ensures Valid() && tree == old(tree) && calls == old(calls)
      ensures (keyMap, entities, index) == Placed(old(keyMap), old(entities), typeName, key, stored, hasRefs)
      ensures IndexGrows(old(keyMap), keyMap) && typeName in keyMap && key in keyMap[typeName] && keyMap[typeName][key] == index
      ensures index < |entities[typeName]| && Written(RowsOf(old(entities), typeName), stored, index, entities[typeName][index], hasRefs)
    {
      PlacedKeeps(schema, keyMap, entities, FromField(schema, keyCallback, hasRefs), typeName, key, stored, hasRefs);
      if typeName !in entities {
        keyMap := keyMap[typeName := map[key := 0]];
        entities := entities[typeName := [stored]];
        index := 0;
      } else {
        var rows := entities[typeName];
        if key !in keyMap[typeName] {
          keyMap := keyMap[typeName := keyMap[typeName][key := |rows|]];
          entities := entities[typeName := rows + [stored]];
          index := |rows|;
        } else {
          index := keyMap[typeName][key];
          entities := entities[typeName := rows[index := Utils.MergeObjects(rows[index], stored, MergeFns(hasRefs))]];
        }
      }
    }
  }

  /**
   * `normalizer(schema, defaultOptions)(rootType, rootData, options)`: the
   * normalised data of one call. Every table is indexed; when no key
   * callback is given, no key path is one a string answers and no key field
   * is `_refs` (with reverse references on), every identity sits in its
   * row's key field, which is what the v3 denormaliser relies on. Relations
   * nest at most `fuel` deep; deeper ones stand for the source's stack
   * overflow.
   */
  method Normalize(schema: Schema, defaultCallback: Option<KeyCallback>, defaultRefs: Option<bool>,
                   rootType: string, rootData: Value, callback: Option<KeyCallback>, reverseRefs: Option<bool>, fuel: nat)
    returns (r: Result<V3Data>)
    ensures r.Ok? ==> r.value.keyMap.Keys == r.value.entities.Keys
    ensures r.Ok? ==> Indexed(schema, r.value.keyMap, r.value.entities,
      FromField(schema, ChosenCallback(callback, defaultCallback), ReverseRefsOn(reverseRefs, defaultRefs)))
    ensures r.Ok? && FromField(schema, ChosenCallback(callback, defaultCallback), ReverseRefsOn(reverseRefs, defaultRefs)) ==>
      && Denormalizing.Consistent(V3Denormalizer.ContextOf(schema, r.value, false))
      && Denormalizing.Consistent(V3Denormalizer.ContextOf(schema, r.value, true))
    ensures IsNullish(rootData) ==> r == Ok(V3Data(map[], map[], map[]))
  {
    var n := new Normalization(schema, ChosenCallback(callback, defaultCallback), ReverseRefsOn(reverseRefs, defaultRefs));
    var root := n.Apply(None, rootType, rootData, fuel);
    if root.Err? {
      return Err(root.error);
    }
    r := Ok(V3Data(n.keyMap, n.tree, n.entities));
    if FromField(schema, n.keyCallback, n.hasRefs) {
      IndexedConsistent(schema, n.keyMap, n.entities, true, false);
      IndexedConsistent(schema, n.keyMap, n.entities, true, true);
    }
  }
}
