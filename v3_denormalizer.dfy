/*
 * The v3 denormaliser, `denormalizer(schema, defaults)(data, type, options)`:
 * `fromKey` and `fromKeys` as in the impl generation except that a missing
 * entity table throws, plus `fromData` and `fromArray`, which take the
 * identity from a (partial) entity.
 */
module V3Denormalizer {
  import opened Values
  import opened SchemaTypes
  import opened Depths
  import opened NormalizedTypes
  import Denormalizing
  import ImplDenormalizer
  import Trees

  /** What this generation's closures read: `entities[type]` is read without `?.`, so a missing table throws. */
  function ContextOf(schema: Schema, data: V3Data, deleteRefs: bool): Denormalizing.Context
  {
    Denormalizing.Context(schema, data.keyMap, data.entities, true, deleteRefs)
  }

  /**
   * `fromData(data)`: the entity of the closure's type whose identity is
   * `data`'s key field; an unknown type throws on destructuring its
   * configuration, a nullish identity throws before any lookup.
   */
  function FromData(ctx: Denormalizing.Context, typeName: string, depth: Depth, data: Fields, fuel: nat): Result<Fields>
  {
    if typeName !in ctx.schema then Err(TypeError)
    else
      var key := Get(data, ctx.schema[typeName].key);
      if IsNullish(key) then Err(MissingKey(typeName))
      else Denormalizing.FromKey(ctx, typeName, key, depth, fuel)
  }

  /** `fromArray(items)`: `items.map(fromData)`; the first failure throws. */
  function FromArray(ctx: Denormalizing.Context, typeName: string, depth: Depth, items: seq<Fields>, fuel: nat): Result<seq<Fields>>
  {
    if |items| == 0 then Ok([])
    else
      var first :- FromData(ctx, typeName, depth, items[0], fuel);
      var rest :- FromArray(ctx, typeName, depth, items[1..], fuel);
      Ok([first] + rest)
  }

  /**
   * `fromData` reads nothing of `data` but its identity: it is `fromKey` of
   * that identity, and a missing identity is an error of its own.
   */
  lemma FromDataByKey(ctx: Denormalizing.Context, typeName: string, depth: Depth, data: Fields, other: Fields, fuel: nat)
    requires typeName in ctx.schema
    requires Get(data, ctx.schema[typeName].key) == Get(other, ctx.schema[typeName].key)
    ensures FromData(ctx, typeName, depth, data, fuel) == FromData(ctx, typeName, depth, other, fuel)
    ensures var key := Get(data, ctx.schema[typeName].key);
      && (IsNullish(key) ==> FromData(ctx, typeName, depth, data, fuel) == Err(MissingKey(typeName)))
      && (!IsNullish(key) ==> FromData(ctx, typeName, depth, data, fuel) == Denormalizing.FromKey(ctx, typeName, key, depth, fuel))
  {
  }

  /**
   * With a consistent index, `fromData(data)` gives the stored entity with
   * `data`'s identity (unless the key field is rewritten or deleted on the way).
   */
  lemma FromDataIdentity(ctx: Denormalizing.Context, typeName: string, depth: Depth, data: Fields, fuel: nat)
    requires Denormalizing.Consistent(ctx) && typeName in ctx.schema
    requires ctx.schema[typeName].key !in Denormalizing.Replaced(ctx.schema[typeName].targets, depth)
    requires !(ctx.deleteRefs && ctx.schema[typeName].key == "_refs")
    ensures var r := FromData(ctx, typeName, depth, data, fuel);
      r.Ok? ==> StrictEquals(Get(r.value, ctx.schema[typeName].key), Get(data, ctx.schema[typeName].key))
  {
    var key := Get(data, ctx.schema[typeName].key);
    if !IsNullish(key) {
      Denormalizing.FromKeyIdentity(ctx, typeName, key, depth, fuel);
    }
  }

  /**
   * `fromArray` is `fromData` over the items: one entity per item, in
   * order, or the error of an item that fails.
   */
  lemma {:induction false} FromArraySpec(ctx: Denormalizing.Context, typeName: string, depth: Depth, items: seq<Fields>, fuel: nat)
    ensures var r := FromArray(ctx, typeName, depth, items, fuel);
      r.Ok? ==> |r.value| == |items| && forall i :: 0 <= i < |items| ==> FromData(ctx, typeName, depth, items[i], fuel) == Ok(r.value[i])
    ensures var r := FromArray(ctx, typeName, depth, items, fuel);
      r.Err? ==> exists i :: 0 <= i < |items| && FromData(ctx, typeName, depth, items[i], fuel) == Err(r.error)
    decreases |items|
  {
    if |items| > 0 {
      var first := FromData(ctx, typeName, depth, items[0], fuel);
      if first.Ok? {
        var rest := FromArray(ctx, typeName, depth, items[1..], fuel);
        FromArraySpec(ctx, typeName, depth, items[1..], fuel);
        assert forall i :: 1 <= i < |items| ==> items[i] == items[1..][i - 1];
        if rest.Err? {
          var i :| 0 <= i < |items[1..]| && FromData(ctx, typeName, depth, items[1..][i], fuel) == Err(rest.error);
          assert FromData(ctx, typeName, depth, items[i + 1], fuel) == Err(rest.error);
        }
      } else {
        assert FromData(ctx, typeName, depth, items[0], fuel) == Err(first.error);
      }
    }
  }

  /**
   * When every configured type has a table, the v3 `fromKey` and the impl
   * `fromKey` over the same index and tables give the same result.
   */
  lemma AgreesWithImpl(schema: Schema, data: V3Data, tree: Trees.Tree, deleteRefs: bool, typeName: string, key: Value, depth: Depth, fuel: nat)
    requires schema.Keys <= data.entities.Keys
    ensures Denormalizing.FromKey(ContextOf(schema, data, deleteRefs), typeName, key, depth, fuel)
      == Denormalizing.FromKey(ImplDenormalizer.ContextOf(schema, ImplData(tree, data.keyMap, data.entities), deleteRefs), typeName, key, depth, fuel)
  {
    Denormalizing.StrictFromKey(ContextOf(schema, data, deleteRefs), ImplDenormalizer.ContextOf(schema, ImplData(tree, data.keyMap, data.entities), deleteRefs), typeName, key, depth, fuel);
  }

  /** A missing table is where the generations part: v3 throws where the impl generation finds nothing. */
  lemma MissingTable(schema: Schema, data: V3Data, tree: Trees.Tree, deleteRefs: bool, typeName: string, key: Value, depth: Depth, fuel: nat)
    requires typeName in schema && typeName !in data.entities
    ensures Denormalizing.FromKey(ContextOf(schema, data, deleteRefs), typeName, key, depth, fuel) == Err(TypeError)
    ensures Denormalizing.FromKey(ImplDenormalizer.ContextOf(schema, ImplData(tree, data.keyMap, data.entities), deleteRefs), typeName, key, depth, fuel)
      == Err(NotFound(typeName, key))
  {
    Denormalizing.FromKeyOutcomes(ContextOf(schema, data, deleteRefs), typeName, key, depth, fuel);
    Denormalizing.FromKeyOutcomes(ImplDenormalizer.ContextOf(schema, ImplData(tree, data.keyMap, data.entities), deleteRefs), typeName, key, depth, fuel);
  }
}
