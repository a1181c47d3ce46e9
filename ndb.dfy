/*
 * `utils/ndb.ts`: the bookkeeping of visited nodes (`entityMap`), the depth
 * rules `Ndb.nextDepth` / `Ndb.isDone`, and `Ndb.findEntityKeys`, which
 * collects the `(type, key)` nodes reachable from a root type in an impl tree.
 */
module Ndb {
  import opened Values
  import opened SchemaTypes
  import opened Depths
  import opened Trees
  import opened Graphs

  /** The pairs held by a `type -> Set<key>` map. */
  function Pairs(entities: map<string, set<Key>>): set<Pair>
  {
    set t, k | t in entities && k in entities[t] :: (t, k)
  }

  /**
   * `entityMap()`: the keys collected per type and the visited nodes. The
   * source keeps the latter as `"type.key"` strings; here they are pairs.
   */
  class EntityMap {
    var entities: map<string, set<Key>>
    var visited: set<Pair>

    /** Both records name the same nodes. */
    ghost predicate Valid()
      reads this
    {
      visited == Pairs(entities)
    }

    constructor ()
      ensures Valid()
      ensures entities == map[] && visited == {}
    {
      entities := map[];
      visited := {};
    }

    /** `hasVisited(type, key)` */
    predicate HasVisited(typeName: string, key: Key): (b: bool)
      reads this
      ensures Valid() ==> (b <==> typeName in entities && key in entities[typeName])
    {
      (typeName, key) in visited
    }

    /** `addEntities(type, key)`: the key joins its type's Set, the node is visited. */
    method AddEntity(typeName: string, key: Key)
      requires Valid()
      modifies this
      ensures Valid()
      ensures visited == old(visited) + {(typeName, key)}
      ensures entities == old(entities)[typeName := (if typeName in old(entities) then old(entities)[typeName] else {}) + {key}]
    {
      var keysToLoad := if typeName in entities then entities[typeName] else {};
      entities := entities[typeName := keysToLoad + {key}];
      visited := visited + {(typeName, key)};
      assert forall t, k :: t in entities && k in entities[t] ==> (t, k) in visited;
    }
  }

  /**
   * `Ndb.nextDepth(depth, prop)`: one less for a number, the property's
   * entry for a mapping, where an omitted property becomes 0.
   */
  function NextDepth(depth: Depth, prop: string): Depth
  {
    match depth
    case Count(n) => Count(n - 1)
    case PerProp(props) => if prop in props then props[prop] else Count(0)
    case Unbounded => Unbounded
  }

  /** `Ndb.isDone(depth)`: a number no greater than zero. */
  predicate IsDone(depth: Depth)
  {
    depth.Count? && depth.n <= 0
  }

  /** The depth after following the properties of `path` by `NextDepth`. */
  function NextDepthAlong(depth: Depth, path: seq<string>): Depth
    decreases |path|
  {
    if |path| == 0 then depth else NextDepthAlong(NextDepth(depth, path[0]), path[1..])
  }

  /** A number `n` is done after exactly `n` levels, along any properties. */
  lemma {:induction false} CountDoneAfter(n: int, path: seq<string>)
    ensures IsDone(NextDepthAlong(Count(n), path)) <==> |path| >= n
    decreases |path|
  {
    if |path| > 0 {
      CountDoneAfter(n - 1, path[1..]);
    }
  }

  /** No depth is never done, along any properties. */
  lemma {:induction false} UnboundedNeverDone(path: seq<string>)
    ensures !IsDone(NextDepthAlong(Unbounded, path))
    decreases |path|
  {
    if |path| > 0 {
      UnboundedNeverDone(path[1..]);
    }
  }

  /** A property a mapping omits is done at once and stays done. */
  lemma OmittedDone(props: map<string, Depth>, prop: string, path: seq<string>)
    requires prop !in props
    ensures IsDone(NextDepthAlong(PerProp(props), [prop] + path))
  {
    assert ([prop] + path)[1..] == path;
    CountDoneAfter(0, path);
  }

  /** Every recorded node is reachable from the roots, within `bound` steps when there is one. */
  ghost predicate Sound(schema: Schema, tree: Tree, roots: set<Pair>, bound: Option<nat>, visited: set<Pair>)
  {
    forall v :: v in visited ==>
      && Reachable(Relation(schema, tree), roots, v)
      && (bound.Some? ==> ReachableIn(Relation(schema, tree), roots, v, bound.value))
  }

  /** Every recorded node outside `stack` has all its successors recorded. */
  ghost predicate ClosedExcept(schema: Schema, tree: Tree, visited: set<Pair>, stack: set<Pair>)
  {
    forall u, v :: u in visited && u !in stack && Edge(schema, tree, u, v) ==> v in visited
  }

  /** The nodes a `traverse(type, keys, ...)` call starts from. */
  ghost predicate Candidate(tree: Tree, typeName: string, keys: Option<set<Key>>, k: Key)
  {
    typeName in tree && k in tree[typeName] && (keys.None? || k in keys.value)
  }

  /** Every candidate outside `todo` is recorded. */
  ghost predicate CoveredExcept(tree: Tree, typeName: string, keys: Option<set<Key>>, todo: set<Key>, visited: set<Pair>)
  {
    forall k :: Candidate(tree, typeName, keys, k) && k !in todo ==> (typeName, k) in visited
  }

  /** Recording more nodes keeps the covered candidates covered, and adds the one just considered. */
  lemma CoveredMore(tree: Tree, typeName: string, keys: Option<set<Key>>, todo: set<Key>, k: Key, before: set<Pair>, after: set<Pair>)
    requires CoveredExcept(tree, typeName, keys, todo, before) && before <= after
    requires Candidate(tree, typeName, keys, k) ==> (typeName, k) in after
    ensures CoveredExcept(tree, typeName, keys, todo - {k}, after)
  {
  }

  lemma RecordSound(schema: Schema, tree: Tree, roots: set<Pair>, bound: Option<nat>, visited: set<Pair>, u: Pair, level: nat)
    requires Sound(schema, tree, roots, bound, visited)
    requires ReachableIn(Relation(schema, tree), roots, u, level)
    requires bound.Some? ==> level <= bound.value
    ensures Sound(schema, tree, roots, bound, visited + {u})
  {
    if bound.Some? {
      ReachableInMonotone(Relation(schema, tree), roots, u, level, bound.value);
    }
  }

  lemma FewerUnvisited(tree: Tree, visited: set<Pair>, u: Pair)
    requires visited <= TreePairs(tree)
    requires u in TreePairs(tree) && u !in visited
    ensures |TreePairs(tree) - (visited + {u})| < |TreePairs(tree) - visited|
  {
    assert TreePairs(tree) - visited == (TreePairs(tree) - (visited + {u})) + {u};
  }

  lemma NoMoreUnvisited(tree: Tree, before: set<Pair>, after: set<Pair>)
    requires before <= after
    ensures |TreePairs(tree) - after| <= |TreePairs(tree) - before|
  {
    var rest := TreePairs(tree) - after;
    assert TreePairs(tree) - before == rest + ((TreePairs(tree) - before) - rest);
  }

  /**
   * `traverse(type, keys, depth)`. The ghost parameters carry the proof:
   * `level` is how far the candidates lie from the roots, `bound` the
   * level no recorded node may pass, `stack` the nodes whose props are
   * being followed, and `complete` says the whole traversal has no depth.
   */
  method Traverse(em: EntityMap, schema: Schema, tree: Tree, typeName: string, keys: Option<set<Key>>, depth: Depth,
                  ghost roots: set<Pair>, ghost level: nat, ghost bound: Option<nat>, ghost stack: set<Pair>, ghost complete: bool)
    returns (r: Result<()>)
    requires em.Valid() && em.visited <= TreePairs(tree)
    requires Sound(schema, tree, roots, bound, em.visited)
    requires forall k :: Candidate(tree, typeName, keys, k) ==> ReachableIn(Relation(schema, tree), roots, (typeName, k), level)
    requires bound.Some? ==> depth.Count? && level <= bound.value && level + depth.n <= bound.value
    requires complete ==> depth.Unbounded? && stack <= em.visited && ClosedExcept(schema, tree, em.visited, stack)
    modifies em
    ensures em.Valid() && old(em.visited) <= em.visited <= TreePairs(tree)
    ensures Sound(schema, tree, roots, bound, em.visited)
    ensures r.Ok? ==> forall k :: Candidate(tree, typeName, keys, k) ==> (typeName, k) in em.visited
    ensures r.Ok? && complete ==> ClosedExcept(schema, tree, em.visited, stack)
    ensures r.Err? ==> TraversalError(schema, tree, r.error)
    ensures Resolvable(schema, tree) && typeName in tree ==> r.Ok?
    decreases |TreePairs(tree) - em.visited|, 1
  {
    if typeName !in schema {
      return Err(MissingSchema(typeName));
    }
    if typeName !in tree {
      return Err(MissingData(typeName));
    }
    ghost var start := em.visited;
    var todo := tree[typeName].Keys;
    while todo != {}
      invariant todo <= tree[typeName].Keys
      invariant em.Valid() && start <= em.visited <= TreePairs(tree)
      invariant Sound(schema, tree, roots, bound, em.visited)
      invariant CoveredExcept(tree, typeName, keys, todo, em.visited)
      invariant complete ==> stack <= em.visited && ClosedExcept(schema, tree, em.visited, stack)
      decreases todo
    {
      var k :| k in todo;
      ghost var before := em.visited;
      if !((keys.Some? && k !in keys.value) || em.HasVisited(typeName, k)) {
        NoMoreUnvisited(tree, start, em.visited);
        r := Visit(em, schema, tree, typeName, k, depth, roots, level, bound, stack, complete);
        if r.Err? {
          return;
        }
      }
      CoveredMore(tree, typeName, keys, todo, k, before, em.visited);
      todo := todo - {k};
    }
    return Ok(());
  }

  /** A candidate not visited yet: it is recorded and, unless the depth is done, its props are followed. */
  method Visit(em: EntityMap, schema: Schema, tree: Tree, typeName: string, k: Key, depth: Depth,
               ghost roots: set<Pair>, ghost level: nat, ghost bound: Option<nat>, ghost stack: set<Pair>, ghost complete: bool)
    returns (r: Result<()>)
    requires em.Valid() && em.visited <= TreePairs(tree)
    requires typeName in schema && typeName in tree && k in tree[typeName] && (typeName, k) !in em.visited
    requires ReachableIn(Relation(schema, tree), roots, (typeName, k), level)
    requires Sound(schema, tree, roots, bound, em.visited)
    requires bound.Some? ==> depth.Count? && level <= bound.value && level + depth.n <= bound.value
    requires complete ==> depth.Unbounded? && stack <= em.visited && ClosedExcept(schema, tree, em.visited, stack)
    modifies em
    ensures em.Valid() && old(em.visited) <= em.visited <= TreePairs(tree)
    ensures Sound(schema, tree, roots, bound, em.visited)
    ensures (typeName, k) in em.visited
    ensures r.Ok? && complete ==> stack <= em.visited && ClosedExcept(schema, tree, em.visited, stack)
    ensures r.Err? ==> TraversalError(schema, tree, r.error)
    ensures Resolvable(schema, tree) ==> r.Ok?
    decreases |TreePairs(tree) - em.visited|, 0
  {
    FewerUnvisited(tree, em.visited, (typeName, k));
    RecordSound(schema, tree, roots, bound, em.visited, (typeName, k), level);
    em.AddEntity(typeName, k);
    if IsDone(depth) {
      return Ok(());
    }
    r := Expand(em, schema, tree, typeName, k, depth, roots, level, bound, stack, complete);
  }

  /** The loop over the props of one freshly recorded node. */
  method Expand(em: EntityMap, schema: Schema, tree: Tree, typeName: string, k: Key, depth: Depth,
                ghost roots: set<Pair>, ghost level: nat, ghost bound: Option<nat>, ghost stack: set<Pair>, ghost complete: bool)
    returns (r: Result<()>)
    requires em.Valid() && em.visited <= TreePairs(tree)
    requires typeName in schema && typeName in tree && k in tree[typeName] && (typeName, k) in em.visited
    requires ReachableIn(Relation(schema, tree), roots, (typeName, k), level)
    requires Sound(schema, tree, roots, bound, em.visited)
    requires bound.Some? ==> depth.Count? && depth.n > 0 && level + depth.n <= bound.value
    requires complete ==> depth.Unbounded? && stack <= em.visited && ClosedExcept(schema, tree, em.visited, stack + {(typeName, k)})
    modifies em
    ensures em.Valid() && old(em.visited) <= em.visited <= TreePairs(tree)
    ensures Sound(schema, tree, roots, bound, em.visited)
    ensures r.Ok? ==> forall v :: Edge(schema, tree, (typeName, k), v) ==> v in em.visited
    ensures r.Ok? && complete ==> ClosedExcept(schema, tree, em.visited, stack)
    ensures r.Err? ==> TraversalError(schema, tree, r.error)
    ensures Resolvable(schema, tree) ==> r.Ok?
    decreases |TreePairs(tree) - em.visited|, 3
  {
    ghost var u := (typeName, k);
    ghost var start := em.visited;
    var props := tree[typeName][k].props;
    var todo := props.Keys;
    while todo != {}
      invariant todo <= props.Keys
      invariant em.Valid() && start <= em.visited <= TreePairs(tree)
      invariant Sound(schema, tree, roots, bound, em.visited)
      invariant FollowedExcept(schema, tree, u, todo, em.visited)
      invariant complete ==> stack <= em.visited && ClosedExcept(schema, tree, em.visited, stack + {u})
      decreases todo
    {
      var p :| p in todo;
      ghost var before := em.visited;
      NoMoreUnvisited(tree, start, em.visited);
      r := ExpandProp(em, schema, tree, typeName, k, p, depth, roots, level, bound, stack, complete);
      if r.Err? {
        return;
      }
      FollowedMore(schema, tree, u, todo, p, before, em.visited);
      todo := todo - {p};
    }
    FinishExpand(schema, tree, em.visited, stack, u);
    return Ok(());
  }

  /** One prop of a freshly recorded node: its target's nodes are traversed one level down. */
  method ExpandProp(em: EntityMap, schema: Schema, tree: Tree, typeName: string, k: Key, p: string, depth: Depth,
                    ghost roots: set<Pair>, ghost level: nat, ghost bound: Option<nat>, ghost stack: set<Pair>, ghost complete: bool)
    returns (r: Result<()>)
    requires em.Valid() && em.visited <= TreePairs(tree)
    requires typeName in schema && typeName in tree && k in tree[typeName] && (typeName, k) in em.visited
    requires p in tree[typeName][k].props
    requires ReachableIn(Relation(schema, tree), roots, (typeName, k), level)
    requires Sound(schema, tree, roots, bound, em.visited)
    requires bound.Some? ==> depth.Count? && depth.n > 0 && level + depth.n <= bound.value
    requires complete ==> depth.Unbounded? && stack <= em.visited && ClosedExcept(schema, tree, em.visited, stack + {(typeName, k)})
    modifies em
    ensures em.Valid() && old(em.visited) <= em.visited <= TreePairs(tree)
    ensures Sound(schema, tree, roots, bound, em.visited)
    ensures r.Ok? ==> forall v :: Follows(schema, tree, (typeName, k), p, v) ==> v in em.visited
    ensures r.Ok? && complete ==> ClosedExcept(schema, tree, em.visited, stack + {(typeName, k)})
    ensures r.Err? ==> TraversalError(schema, tree, r.error)
    ensures Resolvable(schema, tree) ==> r.Ok?
    decreases |TreePairs(tree) - em.visited|, 2
  {
    ghost var u := (typeName, k);
    var target := TargetOf(schema, typeName, p);
    if target.None? {
      return Err(MissingTarget(typeName, p));
    }
    var value := tree[typeName][k].props[p];
    if IsTruthy(value) {
      var next := PropertyName(target.value.typeName);
      StepCandidates(schema, tree, roots, u, p, level);
      r := Traverse(em, schema, tree, next, Some(NextKeys(value)), NextDepth(depth, p),
                    roots, level + 1, bound, stack + {u}, complete);
    } else {
      r := Ok(());
    }
  }

  /** The nodes a truthy prop leads to are one step further from the roots. */
  lemma StepCandidates(schema: Schema, tree: Tree, roots: set<Pair>, u: Pair, p: string, level: nat)
    requires u.0 in tree && u.1 in tree[u.0] && p in tree[u.0][u.1].props
    requires IsTruthy(tree[u.0][u.1].props[p]) && TargetOf(schema, u.0, p).Some?
    requires ReachableIn(Relation(schema, tree), roots, u, level)
    ensures forall k' :: Candidate(tree, PropertyName(TargetOf(schema, u.0, p).value.typeName), Some(NextKeys(tree[u.0][u.1].props[p])), k') ==>
      ReachableIn(Relation(schema, tree), roots, (PropertyName(TargetOf(schema, u.0, p).value.typeName), k'), level + 1)
    ensures forall v :: Follows(schema, tree, u, p, v) ==>
      Candidate(tree, PropertyName(TargetOf(schema, u.0, p).value.typeName), Some(NextKeys(tree[u.0][u.1].props[p])), v.1) &&
      v.0 == PropertyName(TargetOf(schema, u.0, p).value.typeName)
  {
    var next := PropertyName(TargetOf(schema, u.0, p).value.typeName);
    var value := tree[u.0][u.1].props[p];
    forall k' | Candidate(tree, next, Some(NextKeys(value)), k')
      ensures ReachableIn(Relation(schema, tree), roots, (next, k'), level + 1)
    {
      assert Follows(schema, tree, u, p, (next, k'));
      assert Relation(schema, tree)(u, (next, k'));
    }
  }

  /** Every node a prop of `u` outside `todo` leads to is recorded. */
  ghost predicate FollowedExcept(schema: Schema, tree: Tree, u: Pair, todo: set<string>, visited: set<Pair>)
  {
    forall p, v :: p !in todo && Follows(schema, tree, u, p, v) ==> v in visited
  }

  /** Recording more nodes keeps the followed props followed, and adds the one just followed. */
  lemma FollowedMore(schema: Schema, tree: Tree, u: Pair, todo: set<string>, p: string, before: set<Pair>, after: set<Pair>)
    requires FollowedExcept(schema, tree, u, todo, before) && before <= after
    requires forall v :: Follows(schema, tree, u, p, v) ==> v in after
    ensures FollowedExcept(schema, tree, u, todo - {p}, after)
  {
  }

  /** Once every prop of `u` has been followed, `u` may leave the stack. */
  lemma FinishExpand(schema: Schema, tree: Tree, visited: set<Pair>, stack: set<Pair>, u: Pair)
    requires FollowedExcept(schema, tree, u, {}, visited)
    ensures forall v :: Edge(schema, tree, u, v) ==> v in visited
    ensures ClosedExcept(schema, tree, visited, stack + {u}) ==> ClosedExcept(schema, tree, visited, stack)
  {
  }

  /**
   * `Ndb.findEntityKeys(schema, tree, rootType, { keys, depth })`: the keys
   * per type of every node reached from the roots, each recorded once.
   */
  method FindEntityKeys(schema: Schema, tree: Tree, rootType: string, rootKeys: Option<set<Key>>, depth: Depth)
    returns (r: Result<map<string, set<Key>>>)
    ensures r.Ok? ==> forall t, k :: t in r.value && k in r.value[t] ==>
      (t, k) in TreePairs(tree) && Reachable(Relation(schema, tree), RootPairs(tree, rootType, rootKeys), (t, k))
    ensures r.Ok? ==> forall v :: v in RootPairs(tree, rootType, rootKeys) ==> v.0 in r.value && v.1 in r.value[v.0]
    ensures r.Ok? && depth.Count? ==> forall t, k :: t in r.value && k in r.value[t] ==>
      ReachableIn(Relation(schema, tree), RootPairs(tree, rootType, rootKeys), (t, k), if depth.n > 0 then depth.n else 0)
    ensures r.Ok? && depth.Unbounded? ==> forall v :: Reachable(Relation(schema, tree), RootPairs(tree, rootType, rootKeys), v) ==>
      v.0 in r.value && v.1 in r.value[v.0]
    ensures r.Err? ==> TraversalError(schema, tree, r.error)
    ensures Resolvable(schema, tree) && rootType in tree ==> r.Ok?
  {
    ghost var roots := RootPairs(tree, rootType, rootKeys);
    ghost var bound: Option<nat> := if depth.Count? then Some(if depth.n > 0 then depth.n else 0) else None;
    var em := new EntityMap();
    var done := Traverse(em, schema, tree, rootType, rootKeys, depth, roots, 0, bound, {}, depth.Unbounded?);
    if done.Err? {
      return Err(done.error);
    }
    if depth.Unbounded? {
      ClosedHoldsReachable(Relation(schema, tree), roots, em.visited);
    }
    assert forall t, k :: t in em.entities && k in em.entities[t] ==> (t, k) in em.visited;
    r := Ok(em.entities);
  }
}
