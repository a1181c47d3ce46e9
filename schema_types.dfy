/*
 * The schema configuration a user writes and the compiled schema the engine
 * works from (both generations share these shapes).
 */
module SchemaTypes {
  import opened Values

  /** `{ mode, eventSelection? }` of a store's log configuration. */
  datatype LogConfig = LogConfig(mode: string, eventSelection: Option<seq<string>>)

  /** `{ autoKey?, logging? }` */
  datatype DataStoreConfig = DataStoreConfig(autoKey: Option<bool>, logging: Option<LogConfig>)

  /** One entry of an entity's `targets` configuration. */
  datatype TargetConfig =
    | TypeRef(name: string)                     // the shorthand: just a type name
    | TargetSpec(typeName: Option<string>, isArray: Option<bool>, cascadeRemoval: Option<bool>)
    | NullTarget                                // `null`
    | UndefinedTarget                           // an entry explicitly set to `undefined`

  /** One entry of the schema configuration. */
  datatype EntityConfig =
    | ParentRef(name: string)                   // the shorthand: just a parent name
    | EntitySpec(key: Option<string>, parent: Option<string>,
                 targets: Option<seq<(string, TargetConfig)>>, dataStore: Option<DataStoreConfig>)
    | NoEntity                                  // `null` or `undefined`

  /** The configuration object: type names (and `@`-prefixed abstract names) to configs. */
  type SchemaConfig = map<string, EntityConfig>

  /** A compiled relation: the related type (`undefined` when the config gave none). */
  datatype Target = Target(typeName: Option<string>, isArray: bool, cascadeRemoval: bool)

  /** A compiled entity type; `targets` keeps the configuration's property order. */
  datatype Entity = Entity(key: string, targets: seq<(string, Target)>, autoKey: bool, logging: LogConfig)

  type Schema = map<string, Entity>

  const DefaultsKey: string := "@defaults"

  /** A configuration key that names a concrete type: it does not start with `@`. */
  predicate IsConcrete(name: string)
  {
    !(|name| > 0 && name[0] == '@')
  }

  /** The relation compiled for property `prop` of `typeName`, if any. */
  function TargetOf(schema: Schema, typeName: string, prop: string): Option<Target>
  {
    if typeName in schema then Lookup(schema[typeName].targets, prop) else None
  }
}
