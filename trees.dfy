/*
 * The reference tree the impl normaliser builds, `tree[type][key] =
 * { props?, refs? }`, and the relation between its nodes that the
 * key-collecting traversals of `utils/ndb.ts` and `impl/tools.ts` follow.
 */
module Trees {
  import opened Values
  import opened SchemaTypes

  /**
   * One node: `props[prop]` holds the related identity or array of
   * identities, `refs[parentType]` the identities of the parents.
   * An absent `props` or `refs` object is an empty map.
   */
  datatype Node = Node(props: map<string, Value>, refs: map<string, seq<Key>>)

  type Tree = map<string, map<Key, Node>>

  /** A `(type, key)` pair: one node of a tree. */
  type Pair = (string, Key)

  /** The nodes of a tree. */
  function TreePairs(tree: Tree): set<Pair>
  {
    set t, k | t in tree && k in tree[t] :: (t, k)
  }

  /**
   * The identities a prop value names once it is made a Set: the string and
   * number elements of an array, or the value itself. Other elements can
   * never equal a tree key and are dropped.
   */
  function NextKeys(v: Value): set<Key>
  {
    if v.Arr? then set i | 0 <= i < |v.items| && v.items[i].Prim? :: v.items[i].key
    else if v.Prim? then {v.key}
    else {}
  }

  /** Node `v` is reached from node `u` through the truthy prop `p` of `u`. */
  predicate Follows(schema: Schema, tree: Tree, u: Pair, p: string, v: Pair)
  {
    && u.0 in tree && u.1 in tree[u.0]
    && p in tree[u.0][u.1].props
    && IsTruthy(tree[u.0][u.1].props[p])
    && TargetOf(schema, u.0, p).Some?
    && PropertyName(TargetOf(schema, u.0, p).value.typeName) == v.0
    && v.0 in tree && v.1 in tree[v.0]
    && v.1 in NextKeys(tree[u.0][u.1].props[p])
  }

  ghost predicate Edge(schema: Schema, tree: Tree, u: Pair, v: Pair)
  {
    exists p :: Follows(schema, tree, u, p, v)
  }

  /** The relation as a value, for the reachability definitions of `Graphs`. */
  ghost function Relation(schema: Schema, tree: Tree): (Pair, Pair) -> bool
  {
    (u, v) => Edge(schema, tree, u, v)
  }

  /** The start nodes: every key of the root type, or only the given ones. */
  function RootPairs(tree: Tree, rootType: string, rootKeys: Option<set<Key>>): set<Pair>
  {
    if rootType in tree then
      set k | k in tree[rootType] && (rootKeys.None? || k in rootKeys.value) :: (rootType, k)
    else {}
  }

  /**
   * Every type in the tree has a schema, every prop a target, and every
   * truthy prop names a type the tree has: nothing a traversal meets throws.
   */
  predicate Resolvable(schema: Schema, tree: Tree)
  {
    forall t :: t in tree ==>
      && t in schema
      && forall k, p :: k in tree[t] && p in tree[t][k].props ==>
        && TargetOf(schema, t, p).Some?
        && (IsTruthy(tree[t][k].props[p]) ==> PropertyName(TargetOf(schema, t, p).value.typeName) in tree)
  }

  /** What a traversal may throw, with the evidence for it. */
  predicate TraversalError(schema: Schema, tree: Tree, e: Error)
  {
    || (e.MissingSchema? && e.typeName !in schema)
    || (e.MissingData? && e.typeName !in tree)
    || (e.MissingTarget? && e.typeName in tree &&
        exists k :: k in tree[e.typeName] && e.prop in tree[e.typeName][k].props &&
          TargetOf(schema, e.typeName, e.prop).None?)
  }
}
