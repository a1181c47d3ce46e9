/*
 * `impl/state.ts`: `buildState(schema)` with `mergeTrees` and a
 * `findEntityKeys` without depth, both over the Map-shaped tree
 * `tree[type]: Map<key, Map<prop, keys> | undefined>` whose prop values are
 * identities, arrays of them, or Sets of them.
 *
 * Both work on the tree's value (`StateTree`); `StateHeap` holds the parts of
 * `mergeTrees` that write into the Maps and Sets of its first argument. The
 * schema the closure captures is
 * a parameter; the `entityMap` helper is `Ndb.EntityMap`, of which this file
 * holds a copy.
 */
module State {
  import opened Values
  import opened SchemaTypes
  import opened Trees
  import opened Graphs
  import Ndb

  /** The value of a prop: a JavaScript Set, or any other value. */
  datatype PropValue = SetOf(elems: set<Value>) | Plain(v: Value)

  type NodeValue = map<string, PropValue>
  /** `Map<key, Map<prop, keys> | undefined>` */
  type TypeValue = map<Key, Option<NodeValue>>
  /** `{ [type]?: Map<...> }`, where an entry may be `undefined` */
  type StateTree = map<string, Option<TypeValue>>

  /** The node maps present in a tree. */
  predicate HasNode(tree: StateTree, u: Pair)
  {
    u.0 in tree && tree[u.0].Some? && u.1 in tree[u.0].value
  }

  /** `keys.has(k)` on `nestedKeys instanceof Set ? nestedKeys : new Set([nestedKeys])` */
  predicate Names(value: PropValue, k: Key)
  {
    match value
    case SetOf(elems) => Prim(k) in elems
    case Plain(v) => v == Prim(k)
  }

  /** Node `v` is reached from `u` through prop `p`: every prop is followed, truthy or not. */
  predicate StateFollows(schema: Schema, tree: StateTree, u: Pair, p: string, v: Pair)
  {
    && HasNode(tree, u) && tree[u.0].value[u.1].Some?
    && p in tree[u.0].value[u.1].value
    && TargetOf(schema, u.0, p).Some?
    && PropertyName(TargetOf(schema, u.0, p).value.typeName) == v.0
    && HasNode(tree, v)
    && Names(tree[u.0].value[u.1].value[p], v.1)
  }

  ghost predicate StateEdge(schema: Schema, tree: StateTree, u: Pair, v: Pair)
  {
    exists p :: StateFollows(schema, tree, u, p, v)
  }

  ghost function StateRelation(schema: Schema, tree: StateTree): (Pair, Pair) -> bool
  {
    (u, v) => StateEdge(schema, tree, u, v)
  }

  function StatePairs(tree: StateTree): set<Pair>
  {
    set t, k | t in tree && tree[t].Some? && k in tree[t].value :: (t, k)
  }

  function StateRoots(tree: StateTree, rootType: string, rootKeys: Option<set<Key>>): set<Pair>
  {
    if rootType in tree && tree[rootType].Some? then
      set k | k in tree[rootType].value && (rootKeys.None? || k in rootKeys.value) :: (rootType, k)
    else {}
  }

  /** A type tree that is neither missing nor empty. */
  predicate HasData(tree: StateTree, t: string)
  {
    t in tree && tree[t].Some? && |tree[t].value| > 0
  }

  /** Nothing the traversal meets throws. */
  predicate StateResolvable(schema: Schema, tree: StateTree)
  {
    forall t :: t in tree && tree[t].Some? ==>
      && t in schema
      && forall k, p :: k in tree[t].value && tree[t].value[k].Some? && p in tree[t].value[k].value ==>
        && TargetOf(schema, t, p).Some?
        && HasData(tree, PropertyName(TargetOf(schema, t, p).value.typeName))
  }

  /** What the traversal may throw, with the evidence for it. */
  predicate StateError(schema: Schema, tree: StateTree, e: Error)
  {
    || (e.MissingSchema? && e.typeName !in schema)
    || (e.MissingData? && !HasData(tree, e.typeName))
    || (e.MissingTarget? && e.typeName in tree && tree[e.typeName].Some? &&
        exists k :: k in tree[e.typeName].value && tree[e.typeName].value[k].Some? &&
          e.prop in tree[e.typeName].value[k].value && TargetOf(schema, e.typeName, e.prop).None?)
  }

  ghost predicate StateSound(schema: Schema, tree: StateTree, roots: set<Pair>, visited: set<Pair>)
  {
    forall v :: v in visited ==> Reachable(StateRelation(schema, tree), roots, v)
  }

  ghost predicate StateClosedExcept(schema: Schema, tree: StateTree, visited: set<Pair>, stack: set<Pair>)
  {
    forall u, v :: u in visited && u !in stack && StateEdge(schema, tree, u, v) ==> v in visited
  }

  ghost predicate StateCandidate(tree: StateTree, typeName: string, keys: Option<PropValue>, k: Key)
  {
    typeName in tree && tree[typeName].Some? && k in tree[typeName].value && (keys.None? || Names(keys.value, k))
  }

  lemma FewerUnvisited(tree: StateTree, visited: set<Pair>, u: Pair)
    requires visited <= StatePairs(tree)
    requires u in StatePairs(tree) && u !in visited
    ensures |StatePairs(tree) - (visited + {u})| < |StatePairs(tree) - visited|
  {
    assert StatePairs(tree) - visited == (StatePairs(tree) - (visited + {u})) + {u};
  }

  lemma NoMoreUnvisited(tree: StateTree, before: set<Pair>, after: set<Pair>)
    requires before <= after
    ensures |StatePairs(tree) - after| <= |StatePairs(tree) - before|
  {
    var rest := StatePairs(tree) - after;
    assert StatePairs(tree) - before == rest + ((StatePairs(tree) - before) - rest);
  }

  /** The nodes a prop leads to are one step further from the roots. */
  lemma StepCandidates(schema: Schema, tree: StateTree, roots: set<Pair>, u: Pair, p: string)
    requires HasNode(tree, u) && tree[u.0].value[u.1].Some? && p in tree[u.0].value[u.1].value
    requires TargetOf(schema, u.0, p).Some?
    requires Reachable(StateRelation(schema, tree), roots, u)
    ensures forall k' :: StateCandidate(tree, PropertyName(TargetOf(schema, u.0, p).value.typeName), Some(tree[u.0].value[u.1].value[p]), k') ==>
      Reachable(StateRelation(schema, tree), roots, (PropertyName(TargetOf(schema, u.0, p).value.typeName), k'))
    ensures forall v :: StateFollows(schema, tree, u, p, v) ==>
      StateCandidate(tree, PropertyName(TargetOf(schema, u.0, p).value.typeName), Some(tree[u.0].value[u.1].value[p]), v.1) &&
      v.0 == PropertyName(TargetOf(schema, u.0, p).value.typeName)
  {
    var next := PropertyName(TargetOf(schema, u.0, p).value.typeName);
    var value := tree[u.0].value[u.1].value[p];
    var n: nat :| ReachableIn(StateRelation(schema, tree), roots, u, n);
    forall k' | StateCandidate(tree, next, Some(value), k')
      ensures Reachable(StateRelation(schema, tree), roots, (next, k'))
    {
      assert StateFollows(schema, tree, u, p, (next, k'));
      assert StateRelation(schema, tree)(u, (next, k'));
      ReachableStep(StateRelation(schema, tree), roots, u, (next, k'), n);
    }
  }

  lemma FinishExpand(schema: Schema, tree: StateTree, visited: set<Pair>, stack: set<Pair>, u: Pair)
    requires forall p, v :: StateFollows(schema, tree, u, p, v) ==> v in visited
    ensures StateClosedExcept(schema, tree, visited, stack + {u}) ==> StateClosedExcept(schema, tree, visited, stack)
  {
  }

  /** `traverse(type, keys)`: every prop is followed, with no depth. */
  method Traverse(em: Ndb.EntityMap, schema: Schema, tree: StateTree, typeName: string, keys: Option<PropValue>,
                  ghost roots: set<Pair>, ghost stack: set<Pair>)
    returns (r: Result<()>)
    requires em.Valid() && em.visited <= StatePairs(tree)
    requires StateSound(schema, tree, roots, em.visited)
    requires forall k :: StateCandidate(tree, typeName, keys, k) ==> Reachable(StateRelation(schema, tree), roots, (typeName, k))
    requires stack <= em.visited && StateClosedExcept(schema, tree, em.visited, stack)
    modifies em
    ensures em.Valid() && old(em.visited) <= em.visited <= StatePairs(tree)
    ensures StateSound(schema, tree, roots, em.visited)
    ensures r.Ok? ==> forall k :: StateCandidate(tree, typeName, keys, k) ==> (typeName, k) in em.visited
    ensures r.Ok? ==> StateClosedExcept(schema, tree, em.visited, stack)
    ensures r.Err? ==> StateError(schema, tree, r.error)
    ensures StateResolvable(schema, tree) && HasData(tree, typeName) ==> r.Ok?
    decreases |StatePairs(tree) - em.visited|, 1
  {
    if typeName !in schema {
      return Err(MissingSchema(typeName));
    }
    if !HasData(tree, typeName) {
      return Err(MissingData(typeName));
    }
    var typeTree := tree[typeName].value;
    ghost var start := em.visited;
    var todo := typeTree.Keys;
    while todo != {}
      invariant todo <= typeTree.Keys
      invariant em.Valid() && start <= em.visited <= StatePairs(tree)
      invariant StateSound(schema, tree, roots, em.visited)
      invariant forall k :: StateCandidate(tree, typeName, keys, k) && k !in todo ==> (typeName, k) in em.visited
      invariant stack <= em.visited && StateClosedExcept(schema, tree, em.visited, stack)
      decreases todo
    {
      var k :| k in todo;
      todo := todo - {k};
      if (keys.Some? && !Names(keys.value, k)) || em.HasVisited(typeName, k) {
        continue;
      }
      NoMoreUnvisited(tree, start, em.visited);
      FewerUnvisited(tree, em.visited, (typeName, k));
      em.AddEntity(typeName, k);
      if typeTree[k].None? {
        continue;
      }
      r := Expand(em, schema, tree, typeName, k, roots, stack);
      if r.Err? {
        return;
      }
    }
    return Ok(());
  }

  /** The loop over the props of one freshly recorded node. */
  method Expand(em: Ndb.EntityMap, schema: Schema, tree: StateTree, typeName: string, k: Key,
                ghost roots: set<Pair>, ghost stack: set<Pair>)
    returns (r: Result<()>)
    requires em.Valid() && em.visited <= StatePairs(tree)
    requires typeName in schema && HasNode(tree, (typeName, k)) && tree[typeName].value[k].Some?
    requires (typeName, k) in em.visited
    requires Reachable(StateRelation(schema, tree), roots, (typeName, k))
    requires StateSound(schema, tree, roots, em.visited)
    requires stack <= em.visited && StateClosedExcept(schema, tree, em.visited, stack + {(typeName, k)})
    modifies em
    ensures em.Valid() && old(em.visited) <= em.visited <= StatePairs(tree)
    ensures StateSound(schema, tree, roots, em.visited)
    ensures r.Ok? ==> StateClosedExcept(schema, tree, em.visited, stack)
    ensures r.Err? ==> StateError(schema, tree, r.error)
    ensures StateResolvable(schema, tree) ==> r.Ok?
    decreases |StatePairs(tree) - em.visited|, 2
  {
    ghost var u := (typeName, k);
    ghost var start := em.visited;
    var props := tree[typeName].value[k].value;
    var todo := props.Keys;
    while todo != {}
      invariant todo <= props.Keys
      invariant em.Valid() && start <= em.visited <= StatePairs(tree)
      invariant StateSound(schema, tree, roots, em.visited)
      invariant forall p, v :: p in props && p !in todo && StateFollows(schema, tree, u, p, v) ==> v in em.visited
      invariant stack <= em.visited && StateClosedExcept(schema, tree, em.visited, stack + {u})
      decreases todo
    {
      var p :| p in todo;
      todo := todo - {p};
      var target := TargetOf(schema, typeName, p);
      if target.None? {
        return Err(MissingTarget(typeName, p));
      }
      var next := PropertyName(target.value.typeName);
      StepCandidates(schema, tree, roots, u, p);
      NoMoreUnvisited(tree, start, em.visited);
      r := Traverse(em, schema, tree, next, Some(props[p]), roots, stack + {u});
      if r.Err? {
        return;
      }
    }
    FinishExpand(schema, tree, em.visited, stack, u);
    return Ok(());
  }

  /**
   * `findEntityKeys(tree, rootType, rootKeys)`: the keys per type of exactly
   * the nodes reachable from the roots, each recorded once.
   */
  method FindEntityKeys(schema: Schema, tree: StateTree, rootType: string, rootKeys: Option<set<Key>>)
    returns (r: Result<map<string, set<Key>>>)
    ensures r.Ok? ==> forall t, k :: t in r.value && k in r.value[t] ==>
      (t, k) in StatePairs(tree) && Reachable(StateRelation(schema, tree), StateRoots(tree, rootType, rootKeys), (t, k))
    ensures r.Ok? ==> forall v :: Reachable(StateRelation(schema, tree), StateRoots(tree, rootType, rootKeys), v) ==>
      v.0 in r.value && v.1 in r.value[v.0]
    ensures r.Err? ==> StateError(schema, tree, r.error)
    ensures StateResolvable(schema, tree) && HasData(tree, rootType) ==> r.Ok?
  {
    ghost var roots := StateRoots(tree, rootType, rootKeys);
    var keys := if rootKeys.None? then None else Some(SetOf(set k | k in rootKeys.value :: Prim(k)));
    forall k | StateCandidate(tree, rootType, keys, k)
      ensures Reachable(StateRelation(schema, tree), roots, (rootType, k))
    {
      assert ReachableIn(StateRelation(schema, tree), roots, (rootType, k), 0);
    }
    var em := new Ndb.EntityMap();
    var done := Traverse(em, schema, tree, rootType, keys, roots, {});
    if done.Err? {
      return Err(done.error);
    }
    assert roots <= em.visited;
    ClosedHoldsReachable(StateRelation(schema, tree), roots, em.visited);
    assert forall t, k :: t in em.entities && k in em.entities[t] ==> (t, k) in em.visited;
    r := Ok(em.entities);
  }

  /*
   * `mergeTrees` on values: what the merged tree reads as.
   */

  /**
   * One prop: a value that is missing or not a Set is replaced by the
   * incoming value; a Set takes in the incoming Set's elements, or the
   * incoming value itself.
   */
  function MergeProp(existing: Option<PropValue>, incoming: PropValue): PropValue
  {
    if existing.None? || existing.value.Plain? then incoming
    else if incoming.SetOf? then SetOf(existing.value.elems + incoming.elems)
    else SetOf(existing.value.elems + {incoming.v})
  }

  /** The props of one node once the incoming props named in `done` are merged in. */
  function MergeNodeOn(n1: NodeValue, n2: NodeValue, done: set<string>): NodeValue
  {
    map p | p in n1.Keys + (n2.Keys * done) ::
      if p in n2 && p in done then MergeProp(if p in n1 then Some(n1[p]) else None, n2[p]) else n1[p]
  }

  function MergeNode(n1: NodeValue, n2: NodeValue): NodeValue
  {
    MergeNodeOn(n1, n2, n2.Keys)
  }

  /**
   * The nodes of one type once the incoming keys named in `done` are merged
   * in: a key that is missing or `undefined` takes the incoming node map (or
   * `undefined`), two node maps merge prop by prop.
   */
  function MergeTypeOn(m1: TypeValue, m2: TypeValue, done: set<Key>): TypeValue
  {
    map k | k in m1.Keys + (m2.Keys * done) ::
      if k !in m2 || k !in done then m1[k]
      else if k !in m1 || m1[k].None? then m2[k]
      else if m2[k].None? then m1[k]
      else Some(MergeNode(m1[k].value, m2[k].value))
  }

  function MergeType(m1: TypeValue, m2: TypeValue): TypeValue
  {
    MergeTypeOn(m1, m2, m2.Keys)
  }

  /** `new Map(map)` of a type tree that may be `undefined`. */
  function Clone(t: Option<TypeValue>): TypeValue
  {
    if t.Some? then t.value else map[]
  }

  /** The merged type tree of one type of `tree1`. */
  function MergedType(tree1: StateTree, tree2: StateTree, t: string): TypeValue
    requires t in tree1
  {
    if t in tree2 && tree2[t].Some? then MergeType(Clone(tree1[t]), tree2[t].value) else Clone(tree1[t])
  }

  /** `mergeTrees(tree1, tree2)` as a value. */
  function MergeTrees(tree1: StateTree, tree2: StateTree): StateTree
  {
    map t | t in tree1.Keys + tree2.Keys ::
      if t in tree1 then Some(MergedType(tree1, tree2, t)) else tree2[t]
  }

  /** A tree with no `undefined` type or node entry. */
  predicate Defined(tree: StateTree)
  {
    forall t :: t in tree ==> tree[t].Some? && forall k :: k in tree[t].value ==> tree[t].value[k].Some?
  }

  /** The merged tree holds the nodes of both trees and no others. */
  lemma MergeTreesNodes(tree1: StateTree, tree2: StateTree)
    ensures StatePairs(MergeTrees(tree1, tree2)) == StatePairs(tree1) + StatePairs(tree2)
  {
    var m := MergeTrees(tree1, tree2);
    forall u | u in StatePairs(tree1) + StatePairs(tree2)
      ensures u in StatePairs(m)
    {
      if u.0 in tree1 {
        assert m[u.0] == Some(MergedType(tree1, tree2, u.0));
      }
    }
    forall u | u in StatePairs(m)
      ensures u in StatePairs(tree1) + StatePairs(tree2)
    {
      if u.0 in tree1 {
        assert m[u.0] == Some(MergedType(tree1, tree2, u.0));
      }
    }
  }

  /**
   * Set-valued props are unioned: a Set of `tree1` keeps its elements and
   * gains those of the prop `tree2` holds at the same place.
   */
  lemma MergeTreesUnionsSets(tree1: StateTree, tree2: StateTree, t: string, k: Key, p: string)
    requires HasNode(tree1, (t, k)) && tree1[t].value[k].Some? && p in tree1[t].value[k].value
    requires tree1[t].value[k].value[p].SetOf?
    ensures HasNode(MergeTrees(tree1, tree2), (t, k))
    ensures MergeTrees(tree1, tree2)[t].value[k].Some? && p in MergeTrees(tree1, tree2)[t].value[k].value
    ensures MergeTrees(tree1, tree2)[t].value[k].value[p] ==
      if HasNode(tree2, (t, k)) && tree2[t].value[k].Some? && p in tree2[t].value[k].value
      then MergeProp(Some(tree1[t].value[k].value[p]), tree2[t].value[k].value[p])
      else tree1[t].value[k].value[p]
  {
    assert MergeTrees(tree1, tree2)[t] == Some(MergedType(tree1, tree2, t));
  }

  /**
   * Any other prop is overwritten: where `tree2` holds a prop that `tree1`
   * has as a non-Set or lacks, the merged tree holds `tree2`'s value.
   */
  lemma MergeTreesOverwrites(tree1: StateTree, tree2: StateTree, t: string, k: Key, p: string)
    requires HasNode(tree2, (t, k)) && tree2[t].value[k].Some? && p in tree2[t].value[k].value
    requires !(HasNode(tree1, (t, k)) && tree1[t].value[k].Some? && p in tree1[t].value[k].value &&
               tree1[t].value[k].value[p].SetOf?)
    ensures HasNode(MergeTrees(tree1, tree2), (t, k))
    ensures MergeTrees(tree1, tree2)[t].value[k].Some? && p in MergeTrees(tree1, tree2)[t].value[k].value
    ensures MergeTrees(tree1, tree2)[t].value[k].value[p] == tree2[t].value[k].value[p]
  {
    if t in tree1 {
      assert MergeTrees(tree1, tree2)[t] == Some(MergedType(tree1, tree2, t));
    }
  }

  /** Merging a tree with no `undefined` entries into itself changes nothing. */
  lemma MergeTreesIdempotent(tree: StateTree)
    requires Defined(tree)
    ensures MergeTrees(tree, tree) == tree
  {
    var m := MergeTrees(tree, tree);
    forall t | t in tree
      ensures m[t] == tree[t]
    {
      var tt := tree[t].value;
      assert m[t] == Some(MergeType(tt, tt));
      forall k | k in tt
        ensures MergeType(tt, tt)[k] == tt[k]
      {
        var n := tt[k].value;
        forall p | p in n
          ensures MergeNode(n, n)[p] == n[p]
        {
          if n[p].SetOf? {
            assert n[p].elems + n[p].elems == n[p].elems;
          }
        }
        assert MergeNode(n, n).Keys == n.Keys;
        assert MergeNode(n, n) == n;
        assert MergeType(tt, tt)[k] == Some(MergeNode(n, n));
      }
      assert MergeType(tt, tt).Keys == tt.Keys;
      assert MergeType(tt, tt) == tt;
    }
  }

  /**
   * Merging the same incoming prop a second time changes nothing: the
   * union of a Set prop is absorbing, an overwrite repeats itself.
   */
  lemma {:induction false} MergePropAbsorbs(existing: Option<PropValue>, incoming: PropValue)
    ensures MergeProp(Some(MergeProp(existing, incoming)), incoming) == MergeProp(existing, incoming)
  {
    var once := MergeProp(existing, incoming);
    if once.SetOf? {
      if incoming.SetOf? {
        assert once.elems + incoming.elems == once.elems;
      } else {
        assert once.elems + {incoming.v} == once.elems;
      }
    }
  }

  /** Merging the same incoming node twice is merging it once. */
  lemma MergeNodeAbsorbs(n1: NodeValue, n2: NodeValue)
    ensures MergeNode(MergeNode(n1, n2), n2) == MergeNode(n1, n2)
  {
    var once := MergeNode(n1, n2);
    forall p | p in once
      ensures MergeNode(once, n2)[p] == once[p]
    {
      if p in n2 {
        MergePropAbsorbs(if p in n1 then Some(n1[p]) else None, n2[p]);
      }
    }
    assert MergeNode(once, n2).Keys == once.Keys;
  }

  /** Merging an empty tree into a tree with no `undefined` type changes nothing. */
  lemma MergeTreesEmpty(tree: StateTree)
    requires forall t :: t in tree ==> tree[t].Some?
    ensures MergeTrees(tree, map[]) == tree
  {
  }
}
