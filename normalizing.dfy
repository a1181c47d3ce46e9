/*
 * What the two normaliser generations share: the choice of the key callback,
 * the identity of an item, the shape check of a nested value, the filter on
 * the keys of an array, and the invariant their `keyMap` keeps over the
 * entity tables.
 */
module Normalizing {
  import opened Values
  import opened SchemaTypes
  import opened NormalizedTypes
  import Denormalizing

  /**
   * `uniqueKeyCallback(type)`: the identity generated for an item without
   * one. The callback may keep state of its own, so the model gives it the
   * number of earlier calls as well.
   */
  type KeyCallback = (string, nat) -> Key

  /** `options?.uniqueKeyCallback ?? defaultOptions?.uniqueKeyCallback` */
  function ChosenCallback(call: Option<KeyCallback>, defaults: Option<KeyCallback>): Option<KeyCallback>
  {
    if call.Some? then call else defaults
  }

  /**
   * The identity of an item and whether the callback made it: `item[keyPath]`
   * when it holds a string or a number, else (nullish) the callback's next
   * key. A nullish key without a callback throws; any other key is not an
   * identity the model accepts.
   */
  function KeyOf(item: Value, typeName: string, keyPath: string, callback: Option<KeyCallback>, calls: nat): (r: Result<(Key, bool)>)
    ensures r.Ok? && !r.value.1 ==> Property(item, keyPath) == Prim(r.value.0)
    ensures r.Ok? && r.value.1 ==> IsNullish(Property(item, keyPath)) && callback.Some? && r.value.0 == callback.value(typeName, calls)
    ensures r.Err? <==> (IsNullish(Property(item, keyPath)) && callback.None?) || (!IsNullish(Property(item, keyPath)) && !Property(item, keyPath).Prim?)
    ensures r.Err? && IsNullish(Property(item, keyPath)) ==> r.error == MissingKey(typeName)
    ensures r.Err? && !IsNullish(Property(item, keyPath)) ==> r.error == BadKey(typeName)
  {
    var key := Property(item, keyPath);
    if IsNullish(key) then
      if callback.None? then Err(MissingKey(typeName)) else Ok((callback.value(typeName, calls), true))
    else if key.Prim? then Ok((key.key, false))
    else Err(BadKey(typeName))
  }

  /** A nested value whose shape contradicts `target.isArray` (an array where an object belongs, or the reverse). */
  predicate Mismatched(target: Target, value: Value)
  {
    target.isArray != value.Arr?
  }

  /**
   * No configured type reads its identity from `length` or an index, the
   * only properties a string answers: without a key callback, only objects
   * then have an identity.
   */
  ghost predicate NamedKeys(schema: Schema)
  {
    forall t :: t in schema ==> !IndexLike(schema[t].key)
  }

  /**
   * Without a key callback, an item that is not an object has an identity
   * only when it is a string or an array and the key path is `length` or an
   * index; under `NamedKeys` it has none.
   */
  lemma KeyOfNonObject(item: Value, typeName: string, keyPath: string, calls: nat)
    requires !item.Obj?
    ensures KeyOf(item, typeName, keyPath, None, calls).Ok? ==> Indexable(item) && IndexLike(keyPath)
  {
    PropertySpread(item, keyPath);
  }

  /**
   * A string keyed by its `length` has an identity its copy `{ ...item }`
   * lacks: `'abc'.length` is 3, and the copy holds only `0`, `1` and `2`.
   */
  lemma LengthKeyNotCopied()
    ensures KeyOf(Prim(Str("abc")), "T", "length", None, 0) == Ok((Num(3), false))
    ensures "length" !in Spread(Prim(Str("abc")))
  {
    PropertySpread(Prim(Str("abc")), "length");
  }

  /** `.filter(key => !!key)`: the truthy keys, in order. */
  function Truthy(keys: seq<Value>): seq<Value>
  {
    if |keys| == 0 then []
    else (if IsTruthy(keys[0]) then [keys[0]] else []) + Truthy(keys[1..])
  }

  /**
   * The filter keeps exactly the truthy keys, in their order: a key `0` or
   * `''` is dropped, and nothing is dropped from keys that are all truthy.
   */
  lemma {:induction false} TruthySpec(keys: seq<Value>)
    ensures forall v :: v in Truthy(keys) <==> v in keys && IsTruthy(v)
    ensures |Truthy(keys)| <= |keys|
    ensures (forall i :: 0 <= i < |keys| ==> IsTruthy(keys[i])) ==> Truthy(keys) == keys
  {
    if |keys| > 0 {
      TruthySpec(keys[1..]);
      assert keys == [keys[0]] + keys[1..];
    }
  }

  /** The filter applied to a longer list: one more key, kept when truthy. */
  lemma {:induction false} TruthySnoc(keys: seq<Value>, v: Value)
    ensures Truthy(keys + [v]) == Truthy(keys) + (if IsTruthy(v) then [v] else [])
  {
    if |keys| == 0 {
      assert keys + [v] == [v];
    } else {
      var rest := keys[1..];
      assert (keys + [v])[0] == keys[0];
      assert (keys + [v])[1..] == rest + [v];
      TruthySnoc(rest, v);
      assert Truthy(keys + [v]) == (if IsTruthy(keys[0]) then [keys[0]] else []) + Truthy(rest + [v]);
      assert Truthy(keys) == (if IsTruthy(keys[0]) then [keys[0]] else []) + Truthy(rest);
    }
  }

  /**
   * What the normalisers keep between `keyMap` and `entities`: every indexed
   * identity belongs to a configured type with a table and points at a row
   * of it; when every identity came from a key field (`fromField`), that row
   * carries the identity in its key field.
   */
  ghost predicate Indexed(schema: Schema, keyMap: KeyMap, entities: Tables, fromField: bool)
  {
    && (forall t, k :: t in keyMap && k in keyMap[t] ==> t in schema && t in entities && 0 <= keyMap[t][k] < |entities[t]|)
    && (fromField ==> forall t, k :: t in keyMap && k in keyMap[t] && t in schema && t in entities && 0 <= keyMap[t][k] < |entities[t]| ==>
          Get(entities[t][keyMap[t][k]], schema[t].key) == Prim(k))
  }

  /** Nothing is indexed before the first item. */
  lemma IndexedEmpty(schema: Schema, fromField: bool)
    ensures Indexed(schema, map[], map[], fromField)
  {
  }

  /**
   * Writing `rows` as the table of `t` and indexing `k` at `index` keeps the
   * index when the old rows keep their key fields and the row at `index`
   * carries `k` (when identities come from key fields).
   */
  lemma IndexedStore(schema: Schema, keyMap: KeyMap, entities: Tables, fromField: bool, t: string, k: Key, index: nat, rows: seq<Fields>)
    requires Indexed(schema, keyMap, entities, fromField)
    requires t in schema && index < |rows|
    requires t in entities ==> |entities[t]| <= |rows|
    requires fromField && t in entities ==> forall i :: 0 <= i < |entities[t]| ==> Get(rows[i], schema[t].key) == Get(entities[t][i], schema[t].key)
    requires fromField ==> Get(rows[index], schema[t].key) == Prim(k)
    ensures Indexed(schema, keyMap[t := (if t in keyMap then keyMap[t] else map[])[k := index]], entities[t := rows], fromField)
  {
    var keyMap' := keyMap[t := (if t in keyMap then keyMap[t] else map[])[k := index]];
    var entities' := entities[t := rows];
    forall u, j | u in keyMap' && j in keyMap'[u]
      ensures u in schema && u in entities' && 0 <= keyMap'[u][j] < |entities'[u]|
      ensures fromField ==> Get(entities'[u][keyMap'[u][j]], schema[u].key) == Prim(j)
    {
      if u != t || j != k {
        var i := keyMap[u][j];
        if fromField && u == t {
          assert Get(rows[i], schema[t].key) == Get(entities[t][i], schema[t].key);
        }
      }
    }
  }

  /** `entities[type]`, or `[]` before the first item of the type. */
  function RowsOf(entities: Tables, t: string): seq<Fields>
  {
    if t in entities then entities[t] else []
  }

  /** `keyMap[type][key] = index`, creating the type's index when missing. */
  function WithIndex(keyMap: KeyMap, t: string, k: Key, index: int): KeyMap
  {
    keyMap[t := (if t in keyMap then keyMap[t] else map[])[k := index]]
  }

  /** The index only grows: an identity once indexed stays indexed. */
  ghost predicate IndexGrows(before: KeyMap, after: KeyMap)
  {
    forall t, k :: t in before && k in before[t] ==> t in after && k in after[t]
  }

  lemma IndexGrowsTrans(a: KeyMap, b: KeyMap, c: KeyMap)
    requires IndexGrows(a, b) && IndexGrows(b, c)
    ensures IndexGrows(a, c)
  {
  }

  /**
   * An index built from key fields is what the denormalisers rely on: it is
   * `Denormalizing.Consistent` whatever the lookup mode.
   */
  lemma IndexedConsistent(schema: Schema, keyMap: KeyMap, entities: Tables, strictTables: bool, deleteRefs: bool)
    requires Indexed(schema, keyMap, entities, true)
    ensures Denormalizing.Consistent(Denormalizing.Context(schema, keyMap, entities, strictTables, deleteRefs))
  {
    var ctx := Denormalizing.Context(schema, keyMap, entities, strictTables, deleteRefs);
    forall t, k | t in ctx.keyMap && k in ctx.keyMap[t]
      ensures t in ctx.schema && t in ctx.entities && ctx.keyMap[t][k] < |ctx.entities[t]|
      ensures Get(ctx.entities[t][ctx.keyMap[t][k]], ctx.schema[t].key) == Prim(k)
    {
      var i := keyMap[t][k];
    }
  }
}
