/*
 * The recursion both denormaliser generations share: `fromKey` copies a
 * stored entity and, down to the requested depth, replaces each relation
 * property by the entities its identities name; `fromKeys` maps `fromKey`
 * over identities. The two generations differ only in what a missing table
 * does, which `Context.strictTables` selects.
 */
module Denormalizing {
  import opened Values
  import opened SchemaTypes
  import opened Depths
  import opened NormalizedTypes

  /* ---------------- `fromKey` / `fromKeys` ---------------- */

  /**
   * What the closures of a denormaliser read: the schema, the index and the
   * entity tables, whether a missing table throws (`strictTables`, the v3
   * code reads `entities[type]` without `?.`), and whether `_refs` is deleted.
   */
  datatype Context = Context(schema: Schema, keyMap: KeyMap, entities: Tables, strictTables: bool, deleteRefs: bool)

  /** `{ depth?, reverseRefsDeleted? }`, for one call or as factory defaults; no depth is `Unbounded`. */
  datatype Options = Options(depth: Depth, reverseRefsDeleted: Option<bool>)

  /** The call's depth unless it is undefined, then the default one. */
  function ChosenDepth(options: Options, defaults: Options): Depth
  {
    if options.depth != Unbounded then options.depth else defaults.depth
  }

  /** The call's `reverseRefsDeleted`, else the default one, else `false`. */
  function DeletesRefs(options: Options, defaults: Options): bool
  {
    if options.reverseRefsDeleted.Some? then options.reverseRefsDeleted.value
    else if defaults.reverseRefsDeleted.Some? then defaults.reverseRefsDeleted.value
    else false
  }

  /**
   * The stored entity `fromKey` starts from: the row at `keyMap[type]?.get(key)`
   * when that is a non-negative index (nothing past the end of the table),
   * otherwise the first row whose key field is `=== key`. A missing table
   * has no rows, or throws when tables are strict.
   */
  function Locate(ctx: Context, typeName: string, keyPath: string, key: Value): (r: Result<Option<Fields>>)
    ensures r.Err? <==> ctx.strictTables && typeName !in ctx.entities
    ensures r.Err? ==> r.error == TypeError
    ensures r.Ok? && r.value.Some? ==> typeName in ctx.entities && r.value.value in ctx.entities[typeName]
  {
    if typeName !in ctx.entities then
      if ctx.strictTables then Err(TypeError) else Ok(None)
    else
      var rows := ctx.entities[typeName];
      var index := IndexOf(ctx.keyMap, typeName, key);
      if index.Some? && index.value >= 0 then
        Ok(if index.value < |rows| then Some(rows[index.value]) else None)
      else Ok(Find(rows, keyPath, key))
  }

  /** Whether `fromKey` replaces relations at this depth: anything but a number at most 0. */
  predicate Expands(depth: Depth)
  {
    !(depth.Count? && depth.n <= 0)
  }

  /** `delete copy._refs` when reverse references are deleted. */
  function Strip(entity: Fields, deleteRefs: bool): Fields
  {
    if deleteRefs then entity - {"_refs"} else entity
  }

  /** The properties `fromKey` replaces: every configured target, when the depth expands. */
  function Replaced(targets: seq<(string, Target)>, depth: Depth): set<string>
  {
    if Expands(depth) then Names(targets) else {}
  }

  /**
   * `result` is a shallow copy of `entity` in which the `replaced` properties
   * were (re)written and, if asked, `_refs` deleted: every other property is
   * the stored value itself.
   */
  predicate Copies(result: Fields, entity: Fields, replaced: set<string>, deleteRefs: bool)
  {
    && result.Keys == (entity.Keys + replaced) - (if deleteRefs then {"_refs"} else {})
    && forall p :: p in entity && p !in replaced && !(deleteRefs && p == "_refs") ==> result[p] == entity[p]
  }

  /**
   * `fromKey(type, key, depth)`: the stored entity, copied; unless the depth
   * is a number at most 0, every target property is replaced by the
   * entities its identities name, one level deeper. A missing entity throws;
   * so does an unknown type, whose configuration cannot be destructured.
   */
  function FromKey(ctx: Context, typeName: string, key: Value, depth: Depth, fuel: nat): (r: Result<Fields>)
    decreases fuel, 1
  {
    if typeName !in ctx.schema then Err(TypeError)
    else
      var found :- Locate(ctx, typeName, ctx.schema[typeName].key, key);
      if found.None? then Err(NotFound(typeName, key))
      else if !Expands(depth) then Ok(Strip(found.value, ctx.deleteRefs))
      else
        var copy :- Hydrate(ctx, found.value, ctx.schema[typeName].targets, depth, fuel, found.value);
        Ok(Strip(copy, ctx.deleteRefs))
  }

  /**
   * The loop over `Object.entries(targets)`: each target property of `copy`
   * is replaced in turn, with the depth one level down for it; the first
   * failure ends the loop. A level deeper than the fuel overflows.
   */
  function Hydrate(ctx: Context, entity: Fields, targets: seq<(string, Target)>, depth: Depth, fuel: nat, copy: Fields): (r: Result<Fields>)
    decreases fuel, 0, |targets|
  {
    if |targets| == 0 then Ok(copy)
    else if fuel == 0 then Err(StackOverflow)
    else
      var p := targets[0].0;
      var v :- Materialize(ctx, Get(entity, p), targets[0].1, Descend(depth, p), fuel - 1);
      Hydrate(ctx, entity, targets[1..], depth, fuel, copy[p := v])
  }

  /**
   * One relation: an array of identities goes through `fromKeys`, anything
   * else (an identity, or `undefined` when the relation is absent) through `fromKey`.
   */
  function Materialize(ctx: Context, raw: Value, target: Target, depth: Depth, fuel: nat): (r: Result<Value>)
    decreases fuel, 3
  {
    var typeName := PropertyName(target.typeName);
    if raw.Arr? then
      var entities :- FromKeys(ctx, typeName, raw.items, depth, fuel);
      Ok(Arr(seq(|entities|, i requires 0 <= i < |entities| => Obj(entities[i]))))
    else
      var entity :- FromKey(ctx, typeName, raw, depth, fuel);
      Ok(Obj(entity))
  }

  /** `fromKeys(type, keys, depth)`: `keys.map(key => fromKey(type, key, depth))`; the first failure throws. */
  function FromKeys(ctx: Context, typeName: string, keys: seq<Value>, depth: Depth, fuel: nat): (r: Result<seq<Fields>>)
    decreases fuel, 2, |keys|
  {
    if |keys| == 0 then Ok([])
    else
      var first :- FromKey(ctx, typeName, keys[0], depth, fuel);
      var rest :- FromKeys(ctx, typeName, keys[1..], depth, fuel);
      Ok([first] + rest)
  }

  /**
   * `fromKey`'s outcomes: an unknown type throws (its configuration cannot
   * be destructured), so do a missing strict table and a missing entity; a
   * depth at most 0 gives the stored entity as it is.
   */
  lemma FromKeyOutcomes(ctx: Context, typeName: string, key: Value, depth: Depth, fuel: nat)
    ensures typeName !in ctx.schema ==> FromKey(ctx, typeName, key, depth, fuel) == Err(TypeError)
    ensures typeName in ctx.schema ==>
      var r := FromKey(ctx, typeName, key, depth, fuel);
      var found := Locate(ctx, typeName, ctx.schema[typeName].key, key);
      && (found.Err? ==> r == Err(TypeError))
      && (found == Ok(None) ==> r == Err(NotFound(typeName, key)))
      && (found.Ok? && found.value.Some? && !Expands(depth) ==> r == Ok(Strip(found.value.value, ctx.deleteRefs)))
  {
  }

  /**
   * Any result of `fromKey` is a copy of the stored entity with only the
   * target properties rewritten, and without `_refs` if asked.
   */
  lemma FromKeyCopies(ctx: Context, typeName: string, key: Value, depth: Depth, fuel: nat)
    requires FromKey(ctx, typeName, key, depth, fuel).Ok?
    ensures typeName in ctx.schema
    ensures var r := FromKey(ctx, typeName, key, depth, fuel).value;
      var found := Locate(ctx, typeName, ctx.schema[typeName].key, key);
      && found.Ok? && found.value.Some?
      && Copies(r, found.value.value, Replaced(ctx.schema[typeName].targets, depth), ctx.deleteRefs)
      && (ctx.deleteRefs ==> "_refs" !in r)
  {
    var found := Locate(ctx, typeName, ctx.schema[typeName].key, key);
    if Expands(depth) {
      var entity := found.value.value;
      HydrateCopies(ctx, entity, ctx.schema[typeName].targets, depth, fuel, entity);
    }
  }

  /**
   * One relation becomes an entity for an identity, and an array of as many
   * entities, in order, for an array of identities.
   */
  lemma MaterializeSpec(ctx: Context, raw: Value, target: Target, depth: Depth, fuel: nat)
    ensures var r := Materialize(ctx, raw, target, depth, fuel);
      r.Ok? && raw.Arr? ==>
        && r.value.Arr? && |r.value.items| == |raw.items|
        && forall i :: 0 <= i < |raw.items| ==>
             r.value.items[i].Obj? && FromKey(ctx, PropertyName(target.typeName), raw.items[i], depth, fuel) == Ok(r.value.items[i].fields)
    ensures var r := Materialize(ctx, raw, target, depth, fuel);
      r.Ok? && !raw.Arr? ==> r.value.Obj? && FromKey(ctx, PropertyName(target.typeName), raw, depth, fuel) == Ok(r.value.fields)
  {
    if raw.Arr? {
      FromKeysSpec(ctx, PropertyName(target.typeName), raw.items, depth, fuel);
    }
  }

  /**
   * `fromKeys` is `fromKey` over the identities: one entity per identity, in
   * order, or the error of an identity that fails.
   */
  lemma {:induction false} FromKeysSpec(ctx: Context, typeName: string, keys: seq<Value>, depth: Depth, fuel: nat)
    ensures var r := FromKeys(ctx, typeName, keys, depth, fuel);
      r.Ok? ==> |r.value| == |keys| && forall i :: 0 <= i < |keys| ==> FromKey(ctx, typeName, keys[i], depth, fuel) == Ok(r.value[i])
    ensures var r := FromKeys(ctx, typeName, keys, depth, fuel);
      r.Err? ==> exists i :: 0 <= i < |keys| && FromKey(ctx, typeName, keys[i], depth, fuel) == Err(r.error)
    decreases |keys|
  {
    if |keys| > 0 {
      var first := FromKey(ctx, typeName, keys[0], depth, fuel);
      if first.Ok? {
        var rest := FromKeys(ctx, typeName, keys[1..], depth, fuel);
        FromKeysSpec(ctx, typeName, keys[1..], depth, fuel);
        assert forall i :: 1 <= i < |keys| ==> keys[i] == keys[1..][i - 1];
        if rest.Err? {
          var i :| 0 <= i < |keys[1..]| && FromKey(ctx, typeName, keys[1..][i], depth, fuel) == Err(rest.error);
          assert FromKey(ctx, typeName, keys[i + 1], depth, fuel) == Err(rest.error);
        }
      } else {
        assert FromKey(ctx, typeName, keys[0], depth, fuel) == Err(first.error);
      }
    }
  }

  /**
   * The loop writes exactly the target properties: every other property of
   * the copy is left as it was.
   */
  lemma {:induction false} HydrateCopies(ctx: Context, entity: Fields, targets: seq<(string, Target)>, depth: Depth, fuel: nat, copy: Fields)
    requires Hydrate(ctx, entity, targets, depth, fuel, copy).Ok?
    ensures var r := Hydrate(ctx, entity, targets, depth, fuel, copy).value;
      && r.Keys == copy.Keys + Names(targets)
      && forall p :: p in copy && p !in Names(targets) ==> r[p] == copy[p]
    decreases |targets|
  {
    if |targets| > 0 {
      var p := targets[0].0;
      var m := Materialize(ctx, Get(entity, p), targets[0].1, Descend(depth, p), fuel - 1);
      NamesTail(targets);
      HydrateCopies(ctx, entity, targets[1..], depth, fuel, copy[p := m.value]);
    }
  }

  /**
   * With distinct target names, every target property of the copy holds what
   * its relation materialises to, one level down.
   */
  lemma {:induction false} HydrateValues(ctx: Context, entity: Fields, targets: seq<(string, Target)>, depth: Depth, fuel: nat, copy: Fields, i: nat)
    requires DistinctNames(targets) && i < |targets|
    requires Hydrate(ctx, entity, targets, depth, fuel, copy).Ok?
    ensures fuel > 0
    ensures var r := Hydrate(ctx, entity, targets, depth, fuel, copy).value;
      && targets[i].0 in r
      && Materialize(ctx, Get(entity, targets[i].0), targets[i].1, Descend(depth, targets[i].0), fuel - 1) == Ok(r[targets[i].0])
    decreases |targets|
  {
    var p := targets[0].0;
    var m := Materialize(ctx, Get(entity, p), targets[0].1, Descend(depth, p), fuel - 1);
    var v := m.value;
    var rest := Hydrate(ctx, entity, targets[1..], depth, fuel, copy[p := v]);
    assert Hydrate(ctx, entity, targets, depth, fuel, copy) == rest;
    NamesTail(targets);
    HydrateCopies(ctx, entity, targets[1..], depth, fuel, copy[p := v]);
    if i == 0 {
      assert rest.value[p] == v;
    } else {
      assert targets[i] == targets[1..][i - 1];
      HydrateValues(ctx, entity, targets[1..], depth, fuel, copy[p := v], i - 1);
    }
  }

  /*
   * The fuel only stands for the call stack: a call that does not overflow
   * gives the same result with any more fuel.
   */

  lemma {:induction false} FromKeyFuel(ctx: Context, typeName: string, key: Value, depth: Depth, fuel: nat, more: nat)
    requires fuel <= more && FromKey(ctx, typeName, key, depth, fuel) != Err(StackOverflow)
    ensures FromKey(ctx, typeName, key, depth, more) == FromKey(ctx, typeName, key, depth, fuel)
    decreases fuel, 1
  {
    if typeName in ctx.schema {
      var found := Locate(ctx, typeName, ctx.schema[typeName].key, key);
      if found.Ok? && found.value.Some? && Expands(depth) {
        HydrateFuel(ctx, found.value.value, ctx.schema[typeName].targets, depth, fuel, more, found.value.value);
      }
    }
  }

  lemma {:induction false} HydrateFuel(ctx: Context, entity: Fields, targets: seq<(string, Target)>, depth: Depth, fuel: nat, more: nat, copy: Fields)
    requires fuel <= more && Hydrate(ctx, entity, targets, depth, fuel, copy) != Err(StackOverflow)
    ensures Hydrate(ctx, entity, targets, depth, more, copy) == Hydrate(ctx, entity, targets, depth, fuel, copy)
    decreases fuel, 0, |targets|
  {
    if |targets| > 0 {
      var p := targets[0].0;
      MaterializeFuel(ctx, Get(entity, p), targets[0].1, Descend(depth, p), fuel - 1, more - 1);
      var m := Materialize(ctx, Get(entity, p), targets[0].1, Descend(depth, p), fuel - 1);
      if m.Ok? {
        HydrateFuel(ctx, entity, targets[1..], depth, fuel, more, copy[p := m.value]);
      }
    }
  }

  lemma {:induction false} MaterializeFuel(ctx: Context, raw: Value, target: Target, depth: Depth, fuel: nat, more: nat)
    requires fuel <= more && Materialize(ctx, raw, target, depth, fuel) != Err(StackOverflow)
    ensures Materialize(ctx, raw, target, depth, more) == Materialize(ctx, raw, target, depth, fuel)
    decreases fuel, 3
  {
    if raw.Arr? {
      FromKeysFuel(ctx, PropertyName(target.typeName), raw.items, depth, fuel, more);
    } else {
      FromKeyFuel(ctx, PropertyName(target.typeName), raw, depth, fuel, more);
    }
  }

  lemma {:induction false} FromKeysFuel(ctx: Context, typeName: string, keys: seq<Value>, depth: Depth, fuel: nat, more: nat)
    requires fuel <= more && FromKeys(ctx, typeName, keys, depth, fuel) != Err(StackOverflow)
    ensures FromKeys(ctx, typeName, keys, depth, more) == FromKeys(ctx, typeName, keys, depth, fuel)
    decreases fuel, 2, |keys|
  {
    if |keys| > 0 {
      FromKeyFuel(ctx, typeName, keys[0], depth, fuel, more);
      if FromKey(ctx, typeName, keys[0], depth, fuel).Ok? {
        FromKeysFuel(ctx, typeName, keys[1..], depth, fuel, more);
      }
    }
  }

  /*
   * A numeric depth bounds the nesting: with at least that much fuel the
   * recursion never overflows, whatever the data (cycles included).
   */

  lemma {:induction false} CountedFromKey(ctx: Context, typeName: string, key: Value, n: int, fuel: nat)
    requires n <= fuel
    ensures FromKey(ctx, typeName, key, Count(n), fuel) != Err(StackOverflow)
    decreases fuel, 1
  {
    if typeName in ctx.schema && n > 0 {
      var found := Locate(ctx, typeName, ctx.schema[typeName].key, key);
      if found.Ok? && found.value.Some? {
        CountedHydrate(ctx, found.value.value, ctx.schema[typeName].targets, n, fuel, found.value.value);
      }
    }
  }

  lemma {:induction false} CountedHydrate(ctx: Context, entity: Fields, targets: seq<(string, Target)>, n: int, fuel: nat, copy: Fields)
    requires 0 < n <= fuel
    ensures Hydrate(ctx, entity, targets, Count(n), fuel, copy) != Err(StackOverflow)
    decreases fuel, 0, |targets|
  {
    if |targets| > 0 {
      var p := targets[0].0;
      CountedMaterialize(ctx, Get(entity, p), targets[0].1, n - 1, fuel - 1);
      var m := Materialize(ctx, Get(entity, p), targets[0].1, Count(n - 1), fuel - 1);
      if m.Ok? {
        CountedHydrate(ctx, entity, targets[1..], n, fuel, copy[p := m.value]);
      }
    }
  }

  lemma {:induction false} CountedMaterialize(ctx: Context, raw: Value, target: Target, n: int, fuel: nat)
    requires n <= fuel
    ensures Materialize(ctx, raw, target, Count(n), fuel) != Err(StackOverflow)
    decreases fuel, 3
  {
    if raw.Arr? {
      CountedFromKeys(ctx, PropertyName(target.typeName), raw.items, n, fuel);
    } else {
      CountedFromKey(ctx, PropertyName(target.typeName), raw, n, fuel);
    }
  }

  lemma {:induction false} CountedFromKeys(ctx: Context, typeName: string, keys: seq<Value>, n: int, fuel: nat)
    requires n <= fuel
    ensures FromKeys(ctx, typeName, keys, Count(n), fuel) != Err(StackOverflow)
    decreases fuel, 2, |keys|
  {
    if |keys| > 0 {
      CountedFromKey(ctx, typeName, keys[0], n, fuel);
      if FromKey(ctx, typeName, keys[0], Count(n), fuel).Ok? {
        CountedFromKeys(ctx, typeName, keys[1..], n, fuel);
      }
    }
  }

  /* ---------------- the index and the identities found ---------------- */

  /**
   * The index agrees with the tables: an index entry names a configured
   * type with a table, and a non-negative index points at a row carrying
   * that identity.
   */
  predicate Consistent(ctx: Context)
  {
    forall t, k :: t in ctx.keyMap && k in ctx.keyMap[t] ==>
      && t in ctx.schema && t in ctx.entities
      && (ctx.keyMap[t][k] >= 0 ==>
            && ctx.keyMap[t][k] < |ctx.entities[t]|
            && Get(ctx.entities[t][ctx.keyMap[t][k]], ctx.schema[t].key) == Prim(k))
  }

  /** With a consistent index, the row found carries the identity asked for. */
  lemma LocateMatches(ctx: Context, typeName: string, key: Value)
    requires Consistent(ctx) && typeName in ctx.schema
    ensures var found := Locate(ctx, typeName, ctx.schema[typeName].key, key);
      found.Ok? && found.value.Some? ==> StrictEquals(Get(found.value.value, ctx.schema[typeName].key), key)
  {
    var found := Locate(ctx, typeName, ctx.schema[typeName].key, key);
    if found.Ok? && found.value.Some? {
      var index := IndexOf(ctx.keyMap, typeName, key);
      if index.Some? && index.value >= 0 {
        assert key.Prim? && key.key in ctx.keyMap[typeName];
      }
    }
  }

  /**
   * `fromKey(key)` gives the entity whose key field is `key`, unless that
   * field is itself a relation rewritten on the way or the deleted `_refs`.
   */
  lemma FromKeyIdentity(ctx: Context, typeName: string, key: Value, depth: Depth, fuel: nat)
    requires Consistent(ctx) && typeName in ctx.schema
    requires ctx.schema[typeName].key !in Replaced(ctx.schema[typeName].targets, depth)
    requires !(ctx.deleteRefs && ctx.schema[typeName].key == "_refs")
    ensures var r := FromKey(ctx, typeName, key, depth, fuel);
      r.Ok? ==> StrictEquals(Get(r.value, ctx.schema[typeName].key), key)
  {
    if FromKey(ctx, typeName, key, depth, fuel).Ok? {
      FromKeyCopies(ctx, typeName, key, depth, fuel);
      LocateMatches(ctx, typeName, key);
    }
  }

  /* ---------------- strict and lax tables ---------------- */

  /*
   * When every configured type has a table, whether a missing table throws
   * makes no difference: both generations denormalise alike.
   */

  /** Two contexts that differ at most in whether a missing table throws, and every configured type has a table. */
  predicate Twins(strict: Context, lax: Context)
  {
    strict.(strictTables := lax.strictTables) == lax && strict.schema.Keys <= strict.entities.Keys
  }

  /** Twins find the same row for a configured type. */
  lemma LocateTwins(strict: Context, lax: Context, typeName: string, keyPath: string, key: Value)
    requires Twins(strict, lax) && typeName in strict.schema
    ensures Locate(strict, typeName, keyPath, key) == Locate(lax, typeName, keyPath, key)
  {
    assert typeName in strict.entities;
  }

  lemma {:induction false} StrictFromKey(strict: Context, lax: Context, typeName: string, key: Value, depth: Depth, fuel: nat)
    requires Twins(strict, lax)
    ensures FromKey(strict, typeName, key, depth, fuel) == FromKey(lax, typeName, key, depth, fuel)
    decreases fuel, 1
  {
    if typeName in lax.schema {
      var found := Locate(lax, typeName, lax.schema[typeName].key, key);
      LocateTwins(strict, lax, typeName, lax.schema[typeName].key, key);
      if found.Ok? && found.value.Some? && Expands(depth) {
        StrictHydrate(strict, lax, found.value.value, lax.schema[typeName].targets, depth, fuel, found.value.value);
      }
    }
  }

  lemma {:induction false} StrictHydrate(strict: Context, lax: Context, entity: Fields, targets: seq<(string, Target)>, depth: Depth, fuel: nat, copy: Fields)
    requires Twins(strict, lax)
    ensures Hydrate(strict, entity, targets, depth, fuel, copy) == Hydrate(lax, entity, targets, depth, fuel, copy)
    decreases fuel, 0, |targets|
  {
    if |targets| > 0 && fuel > 0 {
      var p := targets[0].0;
      StrictMaterialize(strict, lax, Get(entity, p), targets[0].1, Descend(depth, p), fuel - 1);
      var m := Materialize(lax, Get(entity, p), targets[0].1, Descend(depth, p), fuel - 1);
      if m.Ok? {
        StrictHydrate(strict, lax, entity, targets[1..], depth, fuel, copy[p := m.value]);
      }
    }
  }

  lemma {:induction false} StrictMaterialize(strict: Context, lax: Context, raw: Value, target: Target, depth: Depth, fuel: nat)
    requires Twins(strict, lax)
    ensures Materialize(strict, raw, target, depth, fuel) == Materialize(lax, raw, target, depth, fuel)
    decreases fuel, 3
  {
    if raw.Arr? {
      StrictFromKeys(strict, lax, PropertyName(target.typeName), raw.items, depth, fuel);
    } else {
      StrictFromKey(strict, lax, PropertyName(target.typeName), raw, depth, fuel);
    }
  }

  lemma {:induction false} StrictFromKeys(strict: Context, lax: Context, typeName: string, keys: seq<Value>, depth: Depth, fuel: nat)
    requires Twins(strict, lax)
    ensures FromKeys(strict, typeName, keys, depth, fuel) == FromKeys(lax, typeName, keys, depth, fuel)
    decreases fuel, 2, |keys|
  {
    if |keys| > 0 {
      StrictFromKey(strict, lax, typeName, keys[0], depth, fuel);
      if FromKey(lax, typeName, keys[0], depth, fuel).Ok? {
        StrictFromKeys(strict, lax, typeName, keys[1..], depth, fuel);
      }
    }
  }
}
