/*
 * The output of a normaliser and input of a denormaliser, `NormalizedData`,
 * in both generations: per type an entity table, an index from identity to
 * row, and the reference tree (whose shape differs between generations), with
 * the two ways a denormaliser looks a row up.
 */
module NormalizedTypes {
  import opened Values
  import Trees
  import Arrays

  /** `entities[type]`: the rows of each type, in insertion order. */
  type Tables = map<string, seq<Fields>>

  /**
   * `keyMap[type]`: identity -> row index. The model keys it by identity
   * whatever the JavaScript container (a Map in v3 and in `preload`, a plain
   * record in the impl normaliser).
   */
  type KeyMap = map<string, map<Key, int>>

  /** `NormalizedData` of the impl generation: the tree holds `props` and `refs` per node. */
  datatype ImplData = ImplData(tree: Trees.Tree, keyMap: KeyMap, entities: Tables)

  /** The v3 tree: `tree[type]` is a Map from identity to a Map from property to identity or identities. */
  type V3Tree = map<string, map<Key, map<string, Value>>>

  /** `NormalizedData` of the v3 generation. */
  datatype V3Data = V3Data(keyMap: KeyMap, tree: V3Tree, entities: Tables)

  /** `keyMap[type]?.get(key)`: only a string or a number can be a key of the Map. */
  function IndexOf(keyMap: KeyMap, typeName: string, key: Value): (r: Option<int>)
    ensures r.Some? <==> typeName in keyMap && key.Prim? && key.key in keyMap[typeName]
    ensures r.Some? ==> r.value == keyMap[typeName][key.key]
  {
    if typeName in keyMap && key.Prim? && key.key in keyMap[typeName] then Some(keyMap[typeName][key.key]) else None
  }

  /** `rows.find(entity => entity[keyPath] === key)`: the first row whose key field is `key`. */
  function Find(rows: seq<Fields>, keyPath: string, key: Value): (r: Option<Fields>)
    ensures r.None? <==> forall i :: 0 <= i < |rows| ==> !StrictEquals(Get(rows[i], keyPath), key)
    ensures r.Some? ==> exists i :: 0 <= i < |rows| && rows[i] == r.value && FirstMatch(rows, keyPath, key, i)
  {
    var i := Arrays.FindIndex(rows, (row: Fields) => StrictEquals(Get(row, keyPath), key));
    if i < 0 then None else Some(rows[i])
  }

  /** Row `i` is the first whose key field is `key`. */
  predicate FirstMatch(rows: seq<Fields>, keyPath: string, key: Value, i: int)
    requires 0 <= i < |rows|
  {
    StrictEquals(Get(rows[i], keyPath), key) && forall j :: 0 <= j < i ==> !StrictEquals(Get(rows[j], keyPath), key)
  }

  /** Every index of `keyMap` points into the table of its type. */
  predicate InRange(keyMap: KeyMap, entities: Tables)
  {
    forall t, k :: t in keyMap && k in keyMap[t] ==> t in entities && 0 <= keyMap[t][k] < |entities[t]|
  }
}
