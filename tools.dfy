/*
 * `impl/tools.ts`: `buildTools(schema).findEntityKeys`, the variant of
 * `Ndb.findEntityKeys` that stops before recording anything once the depth
 * is exactly 0 and descends with `Depths.Descend` (an omitted property is
 * unbounded). The schema the closure captures is a parameter here, and the
 * `entityMap` helper is `Ndb.EntityMap`, of which this file holds a copy.
 */
module Tools {
  import opened Values
  import opened SchemaTypes
  import opened Depths
  import opened Trees
  import opened Graphs
  import Ndb

  /**
   * A depth that never reaches exactly 0 by descending: none at all, or a
   * negative number, which only moves further from 0.
   */
  predicate NeverZero(depth: Depth)
  {
    depth.Unbounded? || (depth.Count? && depth.n < 0)
  }

  /**
   * `traverse(type, keys, depth)`. With a bound, `level + depth` stays one
   * above it, so a node is only recorded at a level no greater than the bound.
   */
  method Traverse(em: Ndb.EntityMap, schema: Schema, tree: Tree, typeName: string, keys: Option<set<Key>>, depth: Depth,
                  ghost roots: set<Pair>, ghost level: nat, ghost bound: Option<nat>, ghost stack: set<Pair>, ghost complete: bool)
    returns (r: Result<()>)
    requires em.Valid() && em.visited <= TreePairs(tree)
    requires Ndb.Sound(schema, tree, roots, bound, em.visited)
    requires forall k :: Ndb.Candidate(tree, typeName, keys, k) ==> ReachableIn(Relation(schema, tree), roots, (typeName, k), level)
    requires bound.Some? ==> depth.Count? && depth.n >= 0 && level + depth.n == bound.value + 1
    requires complete ==> NeverZero(depth) && stack <= em.visited && Ndb.ClosedExcept(schema, tree, em.visited, stack)
    modifies em
    ensures em.Valid() && old(em.visited) <= em.visited <= TreePairs(tree)
    ensures Ndb.Sound(schema, tree, roots, bound, em.visited)
    ensures depth == Count(0) ==> r.Ok? && em.visited == old(em.visited) && em.entities == old(em.entities)
    ensures r.Ok? && depth != Count(0) ==> forall k :: Ndb.Candidate(tree, typeName, keys, k) ==> (typeName, k) in em.visited
    ensures r.Ok? && complete ==> Ndb.ClosedExcept(schema, tree, em.visited, stack)
    ensures r.Err? ==> TraversalError(schema, tree, r.error)
    ensures Resolvable(schema, tree) && typeName in tree ==> r.Ok?
    decreases |TreePairs(tree) - em.visited|, 1
  {
    if depth == Count(0) {
      return Ok(());
    }
    if typeName !in schema {
      return Err(MissingSchema(typeName));
    }
    if typeName !in tree {
      return Err(MissingData(typeName));
    }
    ghost var start := em.visited;
    var todo := tree[typeName].Keys;
    while todo != {}
      invariant todo <= tree[typeName].Keys
      invariant em.Valid() && start <= em.visited <= TreePairs(tree)
      invariant Ndb.Sound(schema, tree, roots, bound, em.visited)
      invariant Ndb.CoveredExcept(tree, typeName, keys, todo, em.visited)
      invariant complete ==> stack <= em.visited && Ndb.ClosedExcept(schema, tree, em.visited, stack)
      decreases todo
    {
      var k :| k in todo;
      ghost var before := em.visited;
      if !((keys.Some? && k !in keys.value) || em.HasVisited(typeName, k)) {
        Ndb.NoMoreUnvisited(tree, start, em.visited);
        r := Visit(em, schema, tree, typeName, k, depth, roots, level, bound, stack, complete);
        if r.Err? {
          return;
        }
      }
      Ndb.CoveredMore(tree, typeName, keys, todo, k, before, em.visited);
      todo := todo - {k};
    }
    return Ok(());
  }

  /** A candidate not visited yet: it is recorded and its props are followed. */
  method Visit(em: Ndb.EntityMap, schema: Schema, tree: Tree, typeName: string, k: Key, depth: Depth,
               ghost roots: set<Pair>, ghost level: nat, ghost bound: Option<nat>, ghost stack: set<Pair>, ghost complete: bool)
    returns (r: Result<()>)
    requires em.Valid() && em.visited <= TreePairs(tree)
    requires typeName in schema && typeName in tree && k in tree[typeName] && (typeName, k) !in em.visited
    requires ReachableIn(Relation(schema, tree), roots, (typeName, k), level)
    requires Ndb.Sound(schema, tree, roots, bound, em.visited)
    requires depth != Count(0)
    requires bound.Some? ==> depth.Count? && depth.n >= 0 && level + depth.n == bound.value + 1
    requires complete ==> NeverZero(depth) && stack <= em.visited && Ndb.ClosedExcept(schema, tree, em.visited, stack)
    modifies em
    ensures em.Valid() && old(em.visited) <= em.visited <= TreePairs(tree)
    ensures Ndb.Sound(schema, tree, roots, bound, em.visited)
    ensures (typeName, k) in em.visited
    ensures r.Ok? && complete ==> stack <= em.visited && Ndb.ClosedExcept(schema, tree, em.visited, stack)
    ensures r.Err? ==> TraversalError(schema, tree, r.error)
    ensures Resolvable(schema, tree) ==> r.Ok?
    decreases |TreePairs(tree) - em.visited|, 0
  {
    Ndb.FewerUnvisited(tree, em.visited, (typeName, k));
    Ndb.RecordSound(schema, tree, roots, bound, em.visited, (typeName, k), level);
    em.AddEntity(typeName, k);
    r := Expand(em, schema, tree, typeName, k, depth, roots, level, bound, stack, complete);
  }

  /** The loop over the props of one freshly recorded node. */
  method Expand(em: Ndb.EntityMap, schema: Schema, tree: Tree, typeName: string, k: Key, depth: Depth,
                ghost roots: set<Pair>, ghost level: nat, ghost bound: Option<nat>, ghost stack: set<Pair>, ghost complete: bool)
    returns (r: Result<()>)
    requires em.Valid() && em.visited <= TreePairs(tree)
    requires typeName in schema && typeName in tree && k in tree[typeName] && (typeName, k) in em.visited
    requires ReachableIn(Relation(schema, tree), roots, (typeName, k), level)
    requires Ndb.Sound(schema, tree, roots, bound, em.visited)
    requires bound.Some? ==> depth.Count? && depth.n > 0 && level + depth.n == bound.value + 1
    requires complete ==> NeverZero(depth) && stack <= em.visited && Ndb.ClosedExcept(schema, tree, em.visited, stack + {(typeName, k)})
    modifies em
    ensures em.Valid() && old(em.visited) <= em.visited <= TreePairs(tree)
    ensures Ndb.Sound(schema, tree, roots, bound, em.visited)
    ensures r.Ok? && complete ==> Ndb.ClosedExcept(schema, tree, em.visited, stack)
    ensures r.Err? ==> TraversalError(schema, tree, r.error)
    ensures Resolvable(schema, tree) ==> r.Ok?
    decreases |TreePairs(tree) - em.visited|, 3
  {
    ghost var u := (typeName, k);
    ghost var start := em.visited;
    var props := tree[typeName][k].props;
    var todo := props.Keys;
    while todo != {}
      invariant todo <= props.Keys
      invariant em.Valid() && start <= em.visited <= TreePairs(tree)
      invariant Ndb.Sound(schema, tree, roots, bound, em.visited)
      invariant complete ==> Ndb.FollowedExcept(schema, tree, u, todo, em.visited)
      invariant complete ==> stack <= em.visited && Ndb.ClosedExcept(schema, tree, em.visited, stack + {u})
      decreases todo
    {
      var p :| p in todo;
      ghost var before := em.visited;
      Ndb.NoMoreUnvisited(tree, start, em.visited);
      r := ExpandProp(em, schema, tree, typeName, k, p, depth, roots, level, bound, stack, complete);
      if r.Err? {
        return;
      }
      if complete {
        Ndb.FollowedMore(schema, tree, u, todo, p, before, em.visited);
      }
      todo := todo - {p};
    }
    if complete {
      Ndb.FinishExpand(schema, tree, em.visited, stack, u);
    }
    return Ok(());
  }

  /** One prop of a freshly recorded node: its target's nodes are traversed one level down. */
  method ExpandProp(em: Ndb.EntityMap, schema: Schema, tree: Tree, typeName: string, k: Key, p: string, depth: Depth,
                    ghost roots: set<Pair>, ghost level: nat, ghost bound: Option<nat>, ghost stack: set<Pair>, ghost complete: bool)
    returns (r: Result<()>)
    requires em.Valid() && em.visited <= TreePairs(tree)
    requires typeName in schema && typeName in tree && k in tree[typeName] && (typeName, k) in em.visited
    requires p in tree[typeName][k].props
    requires ReachableIn(Relation(schema, tree), roots, (typeName, k), level)
    requires Ndb.Sound(schema, tree, roots, bound, em.visited)
    requires bound.Some? ==> depth.Count? && depth.n > 0 && level + depth.n == bound.value + 1
    requires complete ==> NeverZero(depth) && stack <= em.visited && Ndb.ClosedExcept(schema, tree, em.visited, stack + {(typeName, k)})
    modifies em
    ensures em.Valid() && old(em.visited) <= em.visited <= TreePairs(tree)
    ensures Ndb.Sound(schema, tree, roots, bound, em.visited)
    ensures r.Ok? && complete ==> forall v :: Follows(schema, tree, (typeName, k), p, v) ==> v in em.visited
    ensures r.Ok? && complete ==> Ndb.ClosedExcept(schema, tree, em.visited, stack + {(typeName, k)})
    ensures r.Err? ==> TraversalError(schema, tree, r.error)
    ensures Resolvable(schema, tree) ==> r.Ok?
    decreases |TreePairs(tree) - em.visited|, 2
  {
    ghost var u := (typeName, k);
    var target := TargetOf(schema, typeName, p);
    if target.None? {
      return Err(MissingTarget(typeName, p));
    }
    var value := tree[typeName][k].props[p];
    if IsTruthy(value) {
      var next := PropertyName(target.value.typeName);
      Ndb.StepCandidates(schema, tree, roots, u, p, level);
      r := Traverse(em, schema, tree, next, Some(NextKeys(value)), Descend(depth, p),
                    roots, level + 1, bound, stack + {u}, complete);
    } else {
      r := Ok(());
    }
  }

  /**
   * `findEntityKeys(tree, rootType, { rootKeys, depth })`: nothing at all
   * for depth 0; otherwise the roots and the nodes reached from them, each
   * recorded once, no further than `depth - 1` steps for a positive number
   * and without limit for no depth or a negative number.
   */
  method FindEntityKeys(schema: Schema, tree: Tree, rootType: string, rootKeys: Option<set<Key>>, depth: Depth)
    returns (r: Result<map<string, set<Key>>>)
    ensures depth == Count(0) ==> r == Ok(map[])
    ensures r.Ok? ==> forall t, k :: t in r.value && k in r.value[t] ==>
      (t, k) in TreePairs(tree) && Reachable(Relation(schema, tree), RootPairs(tree, rootType, rootKeys), (t, k))
    ensures r.Ok? && depth != Count(0) ==> forall v :: v in RootPairs(tree, rootType, rootKeys) ==> v.0 in r.value && v.1 in r.value[v.0]
    ensures r.Ok? && depth.Count? && depth.n > 0 ==> forall t, k :: t in r.value && k in r.value[t] ==>
      ReachableIn(Relation(schema, tree), RootPairs(tree, rootType, rootKeys), (t, k), depth.n - 1)
    ensures r.Ok? && NeverZero(depth) ==> forall v :: Reachable(Relation(schema, tree), RootPairs(tree, rootType, rootKeys), v) ==>
      v.0 in r.value && v.1 in r.value[v.0]
    ensures r.Err? ==> TraversalError(schema, tree, r.error)
    ensures Resolvable(schema, tree) && rootType in tree ==> r.Ok?
  {
    ghost var roots := RootPairs(tree, rootType, rootKeys);
    ghost var bound: Option<nat> := if depth.Count? && depth.n > 0 then Some(depth.n - 1) else None;
    var em := new Ndb.EntityMap();
    var done := Traverse(em, schema, tree, rootType, rootKeys, depth, roots, 0, bound, {}, NeverZero(depth));
    if done.Err? {
      return Err(done.error);
    }
    if NeverZero(depth) {
      ClosedHoldsReachable(Relation(schema, tree), roots, em.visited);
    }
    assert forall t, k :: t in em.entities && k in em.entities[t] ==> (t, k) in em.visited;
    r := Ok(em.entities);
  }
}
