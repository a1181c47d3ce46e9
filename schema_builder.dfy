/*
 * `buildSchema`, `buildType` and `buildTargets` of both generations
 * (impl/schema.ts and v3/schema.ts are the same algorithm; they differ in how
 * a target entry is compiled and in the spelling of the default log mode).
 */
module SchemaBuilder {
  import opened Values
  import opened SchemaTypes

  datatype Generation = Impl | V3

  /** The log configuration an entity gets when neither it nor a parent sets one. */
  function DisabledLogging(gen: Generation): LogConfig
  {
    LogConfig(if gen == Impl then "Disabled" else "disabled", None)
  }

  /**
   * One target entry. The impl generation rejects a falsy entry; v3 reads
   * `.type` of whatever it gets, so `null` throws a TypeError and `undefined`
   * compiles to a relation without a type.
   */
  function CompileTarget(gen: Generation, prop: string, config: TargetConfig): (r: Result<Target>)
    ensures gen == Impl ==>
      (r.Err? <==> config.NullTarget? || config.UndefinedTarget? || config == TypeRef(""))
    ensures gen == V3 ==> (r.Err? <==> config.NullTarget?)
    ensures config.TypeRef? && r.Ok? ==> r.value == Target(Some(config.name), false, false)
  {
    match config
    case TargetSpec(typeName, isArray, cascadeRemoval) =>
      Ok(Target(typeName,
                if isArray.Some? then isArray.value else false,
                if cascadeRemoval.Some? then cascadeRemoval.value else false))
    case TypeRef(name) =>
      if gen == Impl && name == "" then Err(MissingTargetConfig(prop))
      else Ok(Target(Some(name), false, false))
    case NullTarget =>
      if gen == Impl then Err(MissingTargetConfig(prop)) else Err(TypeError)
    case UndefinedTarget =>
      if gen == Impl then Err(MissingTargetConfig(prop)) else Ok(Target(None, false, false))
  }

  /** The record `buildTargets` fills, from `acc` on, entry by entry. */
  function TargetsFrom(gen: Generation, acc: seq<(string, Target)>, configs: seq<(string, TargetConfig)>): (r: Result<seq<(string, Target)>>)
    ensures r.Err? ==> r.error.MissingTargetConfig? || r.error == TypeError
    decreases |configs|
  {
    if |configs| == 0 then Ok(acc)
    else
      var target :- CompileTarget(gen, configs[0].0, configs[0].1);
      TargetsFrom(gen, Put(acc, configs[0].0, target), configs[1..])
  }

  /** What `buildTargets(configs)` returns. */
  function TargetsOf(gen: Generation, configs: seq<(string, TargetConfig)>): Result<seq<(string, Target)>>
  {
    TargetsFrom(gen, [], configs)
  }

  /** `buildTargets(targets)`: compiles every entry into a fresh record, in order. */
  method BuildTargets(gen: Generation, configs: seq<(string, TargetConfig)>) returns (r: Result<seq<(string, Target)>>)
    ensures r == TargetsOf(gen, configs)
  {
    var targets: seq<(string, Target)> := [];
    var i := 0;
    while i < |configs|
      invariant 0 <= i <= |configs|
      invariant TargetsOf(gen, configs) == TargetsFrom(gen, targets, configs[i..])
    {
      assert configs[i..][1..] == configs[i + 1..];
      var (prop, config) := configs[i];
      var target := CompileTarget(gen, prop, config);
      if target.Err? {
        return Err(target.error);
      }
      targets := Put(targets, prop, target.value);
      i := i + 1;
    }
    r := Ok(targets);
  }

  /** `buildTargets` fails exactly when some entry does not compile. */
  lemma {:induction false} TargetsFromFails(gen: Generation, acc: seq<(string, Target)>, configs: seq<(string, TargetConfig)>)
    ensures TargetsFrom(gen, acc, configs).Ok? <==>
      forall i :: 0 <= i < |configs| ==> CompileTarget(gen, configs[i].0, configs[i].1).Ok?
    decreases |configs|
  {
    if |configs| > 0 {
      var rest := configs[1..];
      assert forall i :: 1 <= i < |configs| ==> configs[i] == rest[i - 1];
      var first := CompileTarget(gen, configs[0].0, configs[0].1);
      if first.Ok? {
        TargetsFromFails(gen, Put(acc, configs[0].0, first.value), rest);
      }
    }
  }

  /** The compiled record names every configured property once. */
  lemma {:induction false} TargetsFromNames(gen: Generation, acc: seq<(string, Target)>, configs: seq<(string, TargetConfig)>)
    requires DistinctNames(acc)
    requires TargetsFrom(gen, acc, configs).Ok?
    ensures DistinctNames(TargetsFrom(gen, acc, configs).value)
    ensures Names(TargetsFrom(gen, acc, configs).value) == Names(acc) + Names(configs)
    decreases |configs|
  {
    if |configs| > 0 {
      var rest := configs[1..];
      assert forall i :: 1 <= i < |configs| ==> configs[i] == rest[i - 1];
      assert Names(configs) == {configs[0].0} + Names(rest);
      var first := CompileTarget(gen, configs[0].0, configs[0].1);
      PutSpec(acc, configs[0].0, first.value);
      TargetsFromNames(gen, Put(acc, configs[0].0, first.value), rest);
    }
  }

  /** Each configured property compiles to its own entry. */
  lemma {:induction false} TargetsFromLookup(gen: Generation, acc: seq<(string, Target)>, configs: seq<(string, TargetConfig)>)
    requires TargetsFrom(gen, acc, configs).Ok?
    requires DistinctNames(configs)
    ensures forall i :: 0 <= i < |configs| ==>
      && CompileTarget(gen, configs[i].0, configs[i].1).Ok?
      && Lookup(TargetsFrom(gen, acc, configs).value, configs[i].0) == Some(CompileTarget(gen, configs[i].0, configs[i].1).value)
    decreases |configs|
  {
    TargetsFromFails(gen, acc, configs);
    if |configs| > 0 {
      var rest := configs[1..];
      assert forall i :: 1 <= i < |configs| ==> configs[i] == rest[i - 1];
      assert DistinctNames(rest);
      var first := CompileTarget(gen, configs[0].0, configs[0].1);
      var next := Put(acc, configs[0].0, first.value);
      PutSpec(acc, configs[0].0, first.value);
      TargetsFromLookup(gen, next, rest);
      assert configs[0].0 !in Names(rest);
      TargetsFromKeeps(gen, next, rest, configs[0].0);
    }
  }

  /** A name no later entry mentions keeps the value it had in the accumulator. */
  lemma {:induction false} TargetsFromKeeps(gen: Generation, acc: seq<(string, Target)>, configs: seq<(string, TargetConfig)>, name: string)
    requires TargetsFrom(gen, acc, configs).Ok?
    requires name !in Names(configs)
    ensures Lookup(TargetsFrom(gen, acc, configs).value, name) == Lookup(acc, name)
    decreases |configs|
  {
    if |configs| > 0 {
      var rest := configs[1..];
      assert forall i :: 1 <= i < |configs| ==> configs[i] == rest[i - 1];
      assert configs[0].0 in Names(configs);
      var first := CompileTarget(gen, configs[0].0, configs[0].1);
      PutSpec(acc, configs[0].0, first.value);
      TargetsFromKeeps(gen, Put(acc, configs[0].0, first.value), rest, name);
    }
  }

  /** The name `buildType` takes its parent from: the shorthand string or `parent` (falsy means none). */
  function ParentName(entity: EntityConfig): Option<string>
  {
    var p := if entity.ParentRef? then Some(entity.name)
             else if entity.EntitySpec? then entity.parent
             else None;
    if p.Some? && p.value != "" then p else None
  }

  /** The config under `name`, `NoEntity` when the key is absent. */
  function ConfigOf(config: SchemaConfig, name: string): EntityConfig
  {
    if name in config then config[name] else NoEntity
  }

  /** A config `buildType` accepts: present and truthy (a non-empty shorthand or an object). */
  predicate IsPresent(entity: EntityConfig)
  {
    entity.EntitySpec? || (entity.ParentRef? && entity.name != "")
  }

  /**
   * The parent whose settings `name` inherits: none for `@defaults`; else its
   * own parent name; else `@defaults` when the configuration has that key.
   */
  function ParentOf(config: SchemaConfig, name: string): Option<string>
  {
    if name == DefaultsKey then None
    else if ParentName(ConfigOf(config, name)).Some? then ParentName(ConfigOf(config, name))
    else if DefaultsKey in config then Some(DefaultsKey)
    else None
  }

  /**
   * `buildType(config, name)`: the parent (or the defaults) is built first,
   * recursively and with no cycle check; `fuel` bounds the recursion and its
   * exhaustion stands for the stack overflow.
   */
  function BuildType(gen: Generation, config: SchemaConfig, name: string, fuel: nat): Result<Entity>
    decreases fuel
  {
    var entity := ConfigOf(config, name);
    if !IsPresent(entity) then Err(MissingConfig(name))
    else if fuel == 0 then Err(CyclicParents(name))
    else
      var parentName := ParentOf(config, name);
      if parentName.None? then Inherit(gen, name, entity, None)
      else
        var parent :- BuildType(gen, config, parentName.value, fuel - 1);
        Inherit(gen, name, entity, Some(parent))
  }

  /**
   * The rest of `buildType` once the parent is known: inherited settings are
   * overridden by a truthy own `key`, own `targets` (spread over the inherited
   * ones) and `dataStore` values that are not `undefined`; a missing key path
   * throws.
   */
  function Inherit(gen: Generation, name: string, entity: EntityConfig, parent: Option<Entity>): (r: Result<Entity>)
    ensures r.Err? ==> r.error == MissingKeyPath(name) || r.error.MissingTargetConfig? || r.error == TypeError
  {
    var keyPath := if parent.Some? then Some(parent.value.key) else None;
    var targets := if parent.Some? then parent.value.targets else [];
    var autoKey := if parent.Some? then parent.value.autoKey else false;
    var logging := if parent.Some? then parent.value.logging else DisabledLogging(gen);
    if entity.EntitySpec? then
      var ownKey := if entity.key.Some? && entity.key.value != "" then entity.key else keyPath;
      var ownTargets :-
        if entity.targets.None? then Ok(targets)
        else
          var own :- TargetsOf(gen, entity.targets.value);
          Ok(Assign(targets, own));
      var store := entity.dataStore;
      var ownAutoKey := if store.Some? && store.value.autoKey.Some? then store.value.autoKey.value else autoKey;
      var ownLogging := if store.Some? && store.value.logging.Some? then store.value.logging.value else logging;
      Finish(name, ownKey, ownTargets, ownAutoKey, ownLogging)
    else
      Finish(name, keyPath, targets, autoKey, logging)
  }

  /** The final key-path check of `buildType`. */
  function Finish(name: string, keyPath: Option<string>, targets: seq<(string, Target)>, autoKey: bool, logging: LogConfig): Result<Entity>
  {
    if keyPath.None? then Err(MissingKeyPath(name)) else Ok(Entity(keyPath.value, targets, autoKey, logging))
  }

  /** The recursion depth `buildSchema` allows: one more than the number of configs. */
  function Fuel(config: SchemaConfig): nat
  {
    |config| + 1
  }

  /**
   * `buildSchema(config)`: builds every concrete (not `@`-prefixed) type; the
   * first failing type's error is thrown.
   */
  method BuildSchema(gen: Generation, config: SchemaConfig) returns (r: Result<Schema>)
    ensures r.Ok? <==> forall k :: k in config && IsConcrete(k) ==> BuildType(gen, config, k, Fuel(config)).Ok?
    ensures r.Ok? ==> r.value.Keys == set k | k in config && IsConcrete(k)
    ensures r.Ok? ==> forall k :: k in r.value ==> BuildType(gen, config, k, Fuel(config)) == Ok(r.value[k])
    ensures r.Err? ==> exists k :: k in config && IsConcrete(k) && BuildType(gen, config, k, Fuel(config)) == Err(r.error)
  {
    var schema: Schema := map[];
    var todo := config.Keys;
    while todo != {}
      invariant todo <= config.Keys
      invariant schema.Keys == set k | k in config && k !in todo && IsConcrete(k)
      invariant forall k :: k in schema ==> BuildType(gen, config, k, Fuel(config)) == Ok(schema[k])
      decreases todo
    {
      var key :| key in todo;
      todo := todo - {key};
      if IsConcrete(key) {
        var entity := BuildType(gen, config, key, Fuel(config));
        if entity.Err? {
          return Err(entity.error);
        }
        schema := schema[key := entity.value];
      }
    }
    r := Ok(schema);
  }

  /** A built entity always has a non-empty key path. */
  lemma {:induction false} KeyPathNonEmpty(gen: Generation, config: SchemaConfig, name: string, fuel: nat)
    requires BuildType(gen, config, name, fuel).Ok?
    ensures BuildType(gen, config, name, fuel).value.key != ""
    decreases fuel
  {
    var parentName := ParentOf(config, name);
    if parentName.Some? {
      KeyPathNonEmpty(gen, config, parentName.value, fuel - 1);
    }
  }

  /** More fuel changes nothing once the recursion did not run out. */
  lemma {:induction false} FuelMonotone(gen: Generation, config: SchemaConfig, name: string, fuel: nat, more: nat)
    requires fuel <= more
    requires !(BuildType(gen, config, name, fuel).Err? && BuildType(gen, config, name, fuel).error.CyclicParents?)
    ensures BuildType(gen, config, name, more) == BuildType(gen, config, name, fuel)
    decreases fuel
  {
    var parentName := ParentOf(config, name);
    if IsPresent(ConfigOf(config, name)) && fuel > 0 && parentName.Some? {
      FuelMonotone(gen, config, parentName.value, fuel - 1, more - 1);
    }
  }

  /**
   * When the parent relation strictly decreases some rank, a fuel above the
   * rank never runs out: acyclic inheritance always finishes.
   */
  lemma {:induction false} RankedParentsFinish(gen: Generation, config: SchemaConfig, rank: string -> nat, name: string, fuel: nat)
    requires forall n :: ParentOf(config, n).Some? ==> rank(ParentOf(config, n).value) < rank(n)
    requires rank(name) < fuel
    ensures !(BuildType(gen, config, name, fuel).Err? && BuildType(gen, config, name, fuel).error.CyclicParents?)
    decreases fuel
  {
    var parentName := ParentOf(config, name);
    if parentName.Some? {
      RankedParentsFinish(gen, config, rank, parentName.value, fuel - 1);
    }
  }

  /** A type that names itself as its parent never builds, however deep the recursion may go. */
  lemma {:induction false} SelfParentCycles(gen: Generation, config: SchemaConfig, name: string, fuel: nat)
    requires name != DefaultsKey
    requires IsPresent(ConfigOf(config, name)) && ParentName(ConfigOf(config, name)) == Some(name)
    ensures BuildType(gen, config, name, fuel) == Err(CyclicParents(name))
    decreases fuel
  {
    if fuel > 0 {
      SelfParentCycles(gen, config, name, fuel - 1);
    }
  }

  /**
   * Inheritance: without an own truthy key the parent's key path is used;
   * own targets win over inherited ones of the same name, the others are
   * inherited, and without own targets all of them are; `dataStore`'s
   * `autoKey` and `logging` override the parent's only when defined; with
   * neither parent nor own `dataStore`, auto keys are off and logging is
   * disabled.
   */
  lemma Inheritance(gen: Generation, config: SchemaConfig, name: string, fuel: nat)
    requires BuildType(gen, config, name, fuel).Ok?
    requires ConfigOf(config, name).EntitySpec?
    ensures var e := BuildType(gen, config, name, fuel).value;
      var spec := ConfigOf(config, name);
      var parent := ParentOf(config, name);
      && (spec.key.Some? && spec.key.value != "" ==> e.key == spec.key.value)
      && (!(spec.key.Some? && spec.key.value != "") ==>
            parent.Some? && e.key == BuildType(gen, config, parent.value, fuel - 1).value.key)
      && (parent.None? && spec.dataStore.None? ==> !e.autoKey && e.logging == DisabledLogging(gen))
      && e.autoKey ==
           (if spec.dataStore.Some? && spec.dataStore.value.autoKey.Some? then spec.dataStore.value.autoKey.value
            else if parent.Some? then BuildType(gen, config, parent.value, fuel - 1).value.autoKey
            else false)
      && e.logging ==
           (if spec.dataStore.Some? && spec.dataStore.value.logging.Some? then spec.dataStore.value.logging.value
            else if parent.Some? then BuildType(gen, config, parent.value, fuel - 1).value.logging
            else DisabledLogging(gen))
      && (spec.targets.None? ==>
            e.targets == if parent.Some? then BuildType(gen, config, parent.value, fuel - 1).value.targets else [])
      && (spec.targets.Some? ==> forall prop ::
            var own := TargetsOf(gen, spec.targets.value).value;
            var inherited := if parent.Some? then BuildType(gen, config, parent.value, fuel - 1).value.targets else [];
            Lookup(e.targets, prop) == if Lookup(own, prop).Some? then Lookup(own, prop) else Lookup(inherited, prop))
  {
    var spec := ConfigOf(config, name);
    if spec.targets.Some? {
      var own := TargetsOf(gen, spec.targets.value).value;
      TargetsFromNames(gen, [], spec.targets.value);
      var parent := ParentOf(config, name);
      var inherited := if parent.Some? then BuildType(gen, config, parent.value, fuel - 1).value.targets else [];
      AssignSpec(inherited, own);
    }
  }
}
