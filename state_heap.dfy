/*
 * `mergeTrees` of `impl/state.ts` on the heap: the type Maps, node Maps and
 * Sets of a tree are objects, and the merge writes into the node Maps and
 * Sets of its first argument. `State.MergeTrees` is the same merge on values.
 */
module StateHeap {
  import opened Values
  import opened State

  /** A JavaScript Set inside a tree. */
  class ValueSet {
    var elems: set<Value>

    constructor (elems: set<Value>)
      ensures this.elems == elems
    {
      this.elems := elems;
    }

    /** `other.forEach(x => this.add(x))` */
    method AddAll(other: set<Value>)
      modifies this
      ensures elems == old(elems) + other
    {
      var todo := other;
      while todo != {}
        invariant todo <= other
        invariant elems == old(elems) + (other - todo)
        decreases todo
      {
        var x :| x in todo;
        elems := elems + {x};
        todo := todo - {x};
      }
    }
  }

  /** A prop value held by a node Map: a Set object or any other value. */
  datatype PropRef = SetRef(jsSet: ValueSet) | PlainRef(v: Value)

  /** `Map<prop, keys>` of one node. */
  class NodeMap {
    var props: map<string, PropRef>

    constructor (props: map<string, PropRef>)
      ensures this.props == props
    {
      this.props := props;
    }
  }

  /** `Map<key, Map<prop, keys> | undefined>` of one type. */
  class TypeMap {
    var nodes: map<Key, Option<NodeMap>>

    constructor (nodes: map<Key, Option<NodeMap>>)
      ensures this.nodes == nodes
    {
      this.nodes := nodes;
    }
  }

  function PropOf(r: PropRef): PropValue
    reads if r.SetRef? then {r.jsSet} else {}
  {
    if r.SetRef? then SetOf(r.jsSet.elems) else Plain(r.v)
  }

  /** The Set objects held under the props of a node Map's entries. */
  function SetsIn(m: map<string, PropRef>): set<ValueSet>
  {
    set p | p in m && m[p].SetRef? :: m[p].jsSet
  }

  function SetsOfNode(n: NodeMap): set<ValueSet>
    reads n
  {
    SetsIn(n.props)
  }

  /** What a node Map reads as. */
  function NodeOf(n: NodeMap): NodeValue
    reads n, SetsOfNode(n)
  {
    map p | p in n.props :: PropOf(n.props[p])
  }

  /** No Set sits under two props. */
  predicate Unshared(m: map<string, PropRef>)
  {
    forall p, q :: p in m && q in m && p != q && m[p].SetRef? && m[q].SetRef? ==> m[p].jsSet != m[q].jsSet
  }

  /**
   * The entries of a node Map once the props of `m2` in `done` are merged
   * into `m1`: a Set of `m1` stays in place, anything else is replaced.
   */
  function MergedRefs(m1: map<string, PropRef>, m2: map<string, PropRef>, done: set<string>): map<string, PropRef>
    requires done <= m2.Keys
  {
    map p | p in m1.Keys + done ::
      if p in done && !(p in m1 && m1[p].SetRef?) then m2[p] else m1[p]
  }

  /**
   * Before the step for `p`, the Set under `p` (if any) is one of `m1`'s and
   * no other prop holds it; the step changes the entry of `p` only.
   */
  lemma MergedRefsStep(m1: map<string, PropRef>, m2: map<string, PropRef>, done: set<string>, p: string)
    requires Unshared(m1) && SetsIn(m1) !! SetsIn(m2)
    requires done <= m2.Keys && p in m2 && p !in done
    ensures var m := MergedRefs(m1, m2, done);
      && (p in m && m[p].SetRef? ==>
            && m[p].jsSet in SetsIn(m1)
            && forall q :: q in m && q != p && m[q].SetRef? ==> m[q].jsSet != m[p].jsSet)
      && MergedRefs(m1, m2, done + {p}) == m[p := if p in m && m[p].SetRef? then m[p] else m2[p]]
  {
    var m := MergedRefs(m1, m2, done);
    if p in m && m[p].SetRef? {
      assert m[p] == m1[p];
      forall q | q in m && q != p && m[q].SetRef?
        ensures m[q].jsSet != m[p].jsSet
      {
        if q in done && !(q in m1 && m1[q].SetRef?) {
          assert m[q].jsSet in SetsIn(m2);
        }
      }
    }
  }

  /** The merged entries hold only Sets of `m1` and of `m2`. */
  lemma MergedRefsSets(m1: map<string, PropRef>, m2: map<string, PropRef>, done: set<string>)
    requires done <= m2.Keys
    ensures SetsIn(MergedRefs(m1, m2, done)) <= SetsIn(m1) + SetsIn(m2)
  {
    var m := MergedRefs(m1, m2, done);
    forall x | x in SetsIn(m)
      ensures x in SetsIn(m1) + SetsIn(m2)
    {
      var p :| p in m && m[p].SetRef? && m[p].jsSet == x;
      if p in done && !(p in m1 && m1[p].SetRef?) {
        assert m2[p].jsSet == x;
      } else {
        assert m1[p].jsSet == x;
      }
    }
  }

  /** The Set a node Map holds under `p`, if any: what merging into `p` writes. */
  function SetAt(n: NodeMap, p: string): set<ValueSet>
    reads n
  {
    if p in n.props && n.props[p].SetRef? then {n.props[p].jsSet} else {}
  }

  /**
   * One step of `nestedProperties.forEach(...)`: the Set `n` holds under `p`
   * gains the incoming value, the value itself if it is a Set; a prop `n`
   * lacks, or holds as a non-Set, is set to the incoming value.
   */
  method MergePropInto(n: NodeMap, p: string, incoming: PropRef, ghost before: NodeValue, ghost value: PropValue)
    requires NodeOf(n) == before && PropOf(incoming) == value
    requires p in n.props && n.props[p].SetRef? ==>
      forall q :: q in n.props && q != p && n.props[q].SetRef? ==> n.props[q].jsSet != n.props[p].jsSet
    requires incoming.SetRef? ==> incoming.jsSet !in SetAt(n, p)
    modifies n, SetAt(n, p)
    ensures NodeOf(n) == before[p := MergeProp(if p in before then Some(before[p]) else None, value)]
    ensures n.props == old(n.props)[p := if p in old(n.props) && old(n.props)[p].SetRef? then old(n.props)[p] else incoming]
  {
    var existing := if p in n.props then Some(n.props[p]) else None;
    ghost var merged := MergeProp(if p in before then Some(before[p]) else None, value);
    if existing.None? || existing.value.PlainRef? {
      n.props := n.props[p := incoming];
      assert PropOf(n.props[p]) == merged;
      forall q | q in n.props
        ensures NodeOf(n)[q] == before[p := merged][q]
      {
      }
      assert NodeOf(n).Keys == before[p := merged].Keys;
    } else {
      var target := existing.value.jsSet;
      if incoming.SetRef? {
        target.AddAll(incoming.jsSet.elems);
      } else {
        target.AddAll({incoming.v});
      }
      assert PropOf(n.props[p]) == merged;
      forall q | q in n.props
        ensures NodeOf(n)[q] == before[p := merged][q]
      {
        if q != p {
          assert n.props[q].SetRef? ==> n.props[q].jsSet != target;
        }
      }
      assert NodeOf(n).Keys == before.Keys;
    }
  }

  /**
   * `nestedProperties.forEach(...)` of one node present in both trees: the
   * props of `n2` are merged into `n1`'s own Map, and into `n1`'s own Sets.
   * A prop `n1` lacks, or holds as a non-Set, now holds `n2`'s value,
   * so `n1` may come to share a Set with `n2`.
   */
  method MergeNodeMaps(n1: NodeMap, n2: NodeMap, ghost a: NodeValue, ghost b: NodeValue)
    requires n1 != n2 && NodeOf(n1) == a && NodeOf(n2) == b
    requires Unshared(n1.props) && SetsOfNode(n1) !! SetsOfNode(n2)
    modifies n1, SetsOfNode(n1)
    ensures NodeOf(n1) == MergeNode(a, b)
    ensures SetsOfNode(n1) <= old(SetsOfNode(n1)) + SetsOfNode(n2)
  {
    ghost var props1 := n1.props;
    var todo := n2.props.Keys;
    ghost var done: set<string> := {};
    MergeNothing(a, b, props1, n2.props);
    assert n2.props.Keys == b.Keys;
    while todo != {}
      invariant todo <= n2.props.Keys && done == n2.props.Keys - todo
      invariant n1.props == MergedRefs(props1, n2.props, done)
      invariant NodeOf(n1) == MergeNodeOn(a, b, done)
      decreases todo
    {
      var p :| p in todo;
      todo := todo - {p};
      MergeNodeStep(n1, n2, p, a, b, props1, done);
      done := done + {p};
    }
    MergedRefsSets(props1, n2.props, done);
  }

  /** The body of the loop of `MergeNodeMaps`, for the prop `p`. */
  method MergeNodeStep(n1: NodeMap, n2: NodeMap, p: string, ghost a: NodeValue, ghost b: NodeValue,
                       ghost props1: map<string, PropRef>, ghost done: set<string>)
    requires n1 != n2 && NodeOf(n2) == b
    requires Unshared(props1) && SetsIn(props1) !! SetsIn(n2.props)
    requires done <= n2.props.Keys && p in n2.props && p !in done
    requires n1.props == MergedRefs(props1, n2.props, done)
    requires NodeOf(n1) == MergeNodeOn(a, b, done)
    modifies n1, SetAt(n1, p)
    ensures n1.props == MergedRefs(props1, n2.props, done + {p})
    ensures NodeOf(n1) == MergeNodeOn(a, b, done + {p})
  {
    var incoming := n2.props[p];
    assert PropOf(incoming) == b[p];
    assert incoming.SetRef? ==> incoming.jsSet in SetsIn(n2.props);
    MergedRefsStep(props1, n2.props, done, p);
    MergeNodeOnStep(a, b, done, p);
    assert p in a <==> p in NodeOf(n1);
    MergePropInto(n1, p, incoming, NodeOf(n1), b[p]);
  }

  /** Before the first step nothing is merged. */
  lemma MergeNothing(a: NodeValue, b: NodeValue, m1: map<string, PropRef>, m2: map<string, PropRef>)
    ensures MergeNodeOn(a, b, {}) == a && MergedRefs(m1, m2, {}) == m1
  {
    assert MergeNodeOn(a, b, {}).Keys == a.Keys;
  }

  lemma MergeNodeOnStep(a: NodeValue, b: NodeValue, done: set<string>, p: string)
    requires p in b && p !in done
    ensures MergeNodeOn(a, b, done + {p}) ==
      MergeNodeOn(a, b, done)[p := MergeProp(if p in a then Some(a[p]) else None, b[p])]
  {
  }

  /** `MergeTypeOn` for one more key. */
  lemma MergeTypeOnStep(a: TypeValue, b: TypeValue, done: set<Key>, k: Key)
    requires k in b && k !in done
    ensures MergeTypeOn(a, b, done + {k}) == MergeTypeOn(a, b, done)[k := MergeEntry(a, k, b[k])]
  {
  }

  /** A key outside `done` keeps the entry of `a`. */
  lemma MergeTypeOnUntouched(a: TypeValue, b: TypeValue, done: set<Key>, k: Key)
    requires k !in done
    ensures k in MergeTypeOn(a, b, done) <==> k in a
    ensures k in a ==> MergeTypeOn(a, b, done)[k] == a[k]
  {
  }

  /** The node Maps of the entries of a type Map. */
  function NodesIn(nodes: map<Key, Option<NodeMap>>): set<NodeMap>
  {
    set k | k in nodes && nodes[k].Some? :: nodes[k].value
  }

  /** The node Map under `k`, if any. */
  function NodeAt(nodes: map<Key, Option<NodeMap>>, k: Key): set<NodeMap>
  {
    if k in nodes && nodes[k].Some? then {nodes[k].value} else {}
  }

  /** The Sets some node Maps hold. */
  function SetsOfNodes(ns: set<NodeMap>): set<ValueSet>
    reads ns
  {
    set n, s | n in ns && s in SetsIn(n.props) :: s
  }

  /** The entries of the node Maps of a type Map. */
  function PropsOf(nodes: map<Key, Option<NodeMap>>): map<Key, map<string, PropRef>>
    reads NodesIn(nodes)
  {
    map k | k in nodes && nodes[k].Some? :: nodes[k].value.props
  }

  /** What a type Map reads as. */
  function TypeOf(m: TypeMap): TypeValue
    reads m, NodesIn(m.nodes), SetsOfNodes(NodesIn(m.nodes))
  {
    map k | k in m.nodes :: if m.nodes[k].Some? then Some(NodeOf(m.nodes[k].value)) else None
  }

  /**
   * The node Maps `nodes` and their entries `props` share nothing: no node
   * Map sits under two keys, no Set under two props, and none of their Sets
   * is one of `others`.
   */
  ghost predicate Separate(nodes: map<Key, Option<NodeMap>>, props: map<Key, map<string, PropRef>>, others: set<ValueSet>)
  {
    && (forall k :: k in props <==> k in nodes && nodes[k].Some?)
    && (forall k :: k in props ==> Unshared(props[k]) && SetsIn(props[k]) !! others)
    && (forall k, j :: k in nodes && j in nodes && k != j && nodes[k].Some? && nodes[j].Some? ==>
          nodes[k].value != nodes[j].value)
    && (forall k, j :: k in props && j in props && k != j ==> SetsIn(props[k]) !! SetsIn(props[j]))
  }

  /**
   * How far `MergeTypeMaps` has come, stated on the entries `nodes` of the
   * first type Map and the entries `props` of its node Maps: the keys in
   * `done` are merged; every other entry is still that of `nodes1`, with its
   * entries `props1`; a merged key holds its own node Map or a new one, and
   * only its own Sets and those in `sets2`.
   */
  ghost predicate TypeMerging(nodes: map<Key, Option<NodeMap>>, props: map<Key, map<string, PropRef>>,
                              nodes1: map<Key, Option<NodeMap>>, props1: map<Key, map<string, PropRef>>,
                              sets2: set<ValueSet>, done: set<Key>)
  {
    && nodes.Keys == nodes1.Keys + done
    && (forall k :: k in props <==> k in nodes && nodes[k].Some?)
    && (forall k :: k in nodes1 && k !in done ==> nodes[k] == nodes1[k])
    && (forall k :: k in props1 && k !in done ==> k in props && props[k] == props1[k])
    && (forall k :: k in done && nodes[k].Some? ==> (k in nodes1 && nodes[k] == nodes1[k]) || nodes[k].value !in NodesIn(nodes1))
    && (forall k :: k in done && k in props ==> SetsIn(props[k]) <= (if k in props1 then SetsIn(props1[k]) else {}) + sets2)
  }

  /** Nothing is merged yet. */
  lemma MergingStart(nodes1: map<Key, Option<NodeMap>>, props1: map<Key, map<string, PropRef>>, sets2: set<ValueSet>)
    requires Separate(nodes1, props1, sets2)
    ensures TypeMerging(nodes1, props1, nodes1, props1, sets2, {})
  {
  }

  /**
   * The node Map under a key not yet merged is one of `nodes1`, no other
   * key holds it, and no other node Map holds one of its Sets.
   */
  lemma MergingApart(nodes: map<Key, Option<NodeMap>>, props: map<Key, map<string, PropRef>>,
                     nodes1: map<Key, Option<NodeMap>>, props1: map<Key, map<string, PropRef>>,
                     sets2: set<ValueSet>, done: set<Key>, k: Key)
    requires TypeMerging(nodes, props, nodes1, props1, sets2, done) && Separate(nodes1, props1, sets2)
    requires k !in done && k in props1
    ensures k in nodes && nodes[k] == nodes1[k] && nodes1[k].value in NodesIn(nodes1) && props[k] == props1[k]
    ensures forall j :: j in nodes && j != k && nodes[j].Some? ==>
      nodes[j].value != nodes[k].value && SetsIn(props[j]) !! SetsIn(props1[k])
  {
    forall j | j in nodes && j != k && nodes[j].Some?
      ensures nodes[j].value != nodes[k].value && SetsIn(props[j]) !! SetsIn(props1[k])
    {
      if j !in done {
        assert j in props1;
      }
    }
  }

  /** The entry of `k` once the node Map `bk` of the second type Map is merged in. */
  function MergeEntry(a: TypeValue, k: Key, bk: Option<NodeValue>): Option<NodeValue>
  {
    if k !in a || a[k].None? then bk
    else if bk.None? then a[k]
    else Some(MergeNode(a[k].value, bk.value))
  }

  /**
   * One merge step keeps `TypeMerging`: a key of `nodes1` keeps its node
   * Map, with Sets it held or `sets2` holds; any other key holds a new node
   * Map, with Sets of `sets2`, or `undefined`.
   */
  lemma MergingStep(nodes: map<Key, Option<NodeMap>>, props: map<Key, map<string, PropRef>>,
                    nodes1: map<Key, Option<NodeMap>>, props1: map<Key, map<string, PropRef>>,
                    sets2: set<ValueSet>, done: set<Key>, k: Key, x: Option<NodeMap>, pk: Option<map<string, PropRef>>)
    requires TypeMerging(nodes, props, nodes1, props1, sets2, done) && k !in done
    requires k in props1 ==> x == nodes[k] && pk.Some? && SetsIn(pk.value) <= SetsIn(props1[k]) + sets2
    requires k !in props1 ==> (x.Some? <==> pk.Some?) && (x.Some? ==> x.value !in NodesIn(nodes1) && SetsIn(pk.value) <= sets2)
    ensures TypeMerging(nodes[k := x], if pk.Some? then props[k := pk.value] else props - {k}, nodes1, props1, sets2, done + {k})
  {
    if k !in props1 {
      assert k !in props || (k in nodes && nodes[k].Some?);
    }
  }

  /**
   * The body of the loop of `MergeTypeMaps` for the key `k`: `incoming` is
   * the entry of the second type Map, which reads as `bk`, and `pk` the new
   * entries of the node Map under `k`.
   */
  method MergeTypeStep(m1: TypeMap, k: Key, incoming: Option<NodeMap>, ghost before: TypeValue,
                       ghost props: map<Key, map<string, PropRef>>, ghost bk: Option<NodeValue>)
    returns (ghost pk: Option<map<string, PropRef>>)
    requires TypeOf(m1) == before && PropsOf(m1.nodes) == props
    requires incoming.Some? <==> bk.Some?
    requires incoming.Some? ==> NodeOf(incoming.value) == bk.value
    requires k in m1.nodes && m1.nodes[k].Some? ==>
      && k in props && Unshared(props[k])
      && (forall j :: j in m1.nodes && j != k && m1.nodes[j].Some? ==>
            m1.nodes[j].value != m1.nodes[k].value && SetsIn(props[j]) !! SetsIn(props[k]))
      && (incoming.Some? ==> incoming.value != m1.nodes[k].value && SetsIn(props[k]) !! SetsIn(incoming.value.props))
    modifies m1, NodeAt(m1.nodes, k), SetsOfNodes(NodeAt(m1.nodes, k))
    ensures k in m1.nodes && m1.nodes == old(m1.nodes)[k := m1.nodes[k]]
    ensures k in old(m1.nodes) && old(m1.nodes)[k].Some? ==>
      && m1.nodes[k] == old(m1.nodes)[k] && pk.Some?
      && SetsIn(pk.value) <= SetsIn(props[k]) + (if incoming.Some? then SetsIn(incoming.value.props) else {})
    ensures !(k in old(m1.nodes) && old(m1.nodes)[k].Some?) ==>
      && (m1.nodes[k].Some? <==> incoming.Some?) && (pk.Some? <==> incoming.Some?)
      && (incoming.Some? ==> fresh(m1.nodes[k].value) && pk.value == incoming.value.props)
    ensures PropsOf(m1.nodes) == if pk.Some? then props[k := pk.value] else props - {k}
    ensures TypeOf(m1) == before[k := MergeEntry(before, k, bk)]
  {
    if k !in m1.nodes || m1.nodes[k].None? {
      SetNode(m1, k, incoming, bk);
      pk := if incoming.Some? then Some(incoming.value.props) else None;
    } else if incoming.Some? {
      MergeNodeAt(m1, k, incoming.value, before, props, bk.value);
      pk := Some(m1.nodes[k].value.props);
    } else {
      pk := Some(props[k]);
      assert props[k := props[k]] == props;
      assert before[k := before[k]] == before;
    }
  }

  /** `mergedType.set(key, nestedProperties ? new Map(nestedProperties) : undefined)` */
  method SetNode(m1: TypeMap, k: Key, incoming: Option<NodeMap>, ghost value: Option<NodeValue>)
    requires incoming.Some? <==> value.Some?
    requires incoming.Some? ==> NodeOf(incoming.value) == value.value
    modifies m1
    ensures k in m1.nodes && m1.nodes == old(m1.nodes)[k := m1.nodes[k]]
    ensures incoming.None? ==> m1.nodes[k].None? && PropsOf(m1.nodes) == old(PropsOf(m1.nodes)) - {k}
    ensures incoming.Some? ==>
      && m1.nodes[k].Some? && fresh(m1.nodes[k].value)
      && PropsOf(m1.nodes) == old(PropsOf(m1.nodes))[k := incoming.value.props]
    ensures TypeOf(m1) == old(TypeOf(m1))[k := value]
  {
    ghost var before := TypeOf(m1);
    ghost var props := PropsOf(m1.nodes);
    var entry: Option<NodeMap> := None;
    if incoming.Some? {
      var copy := new NodeMap(incoming.value.props);
      entry := Some(copy);
    }
    m1.nodes := m1.nodes[k := entry];
    assert PropsOf(m1.nodes) == if entry.Some? then props[k := entry.value.props] else props - {k};
    forall j | j in m1.nodes
      ensures TypeOf(m1)[j] == before[k := value][j]
    {
      if j != k && m1.nodes[j].Some? {
        var nj := m1.nodes[j].value;
        assert NodeOf(nj) == old(NodeOf(nj));
      } else if j == k && entry.Some? {
        assert NodeOf(entry.value) == NodeOf(incoming.value) == value.value;
      }
    }
    assert TypeOf(m1).Keys == before[k := value].Keys;
  }

  /** `nestedProperties.forEach(...)` into the node Map `m1` holds under `k`. */
  method MergeNodeAt(m1: TypeMap, k: Key, incoming: NodeMap, ghost before: TypeValue,
                     ghost props: map<Key, map<string, PropRef>>, ghost bk: NodeValue)
    requires TypeOf(m1) == before && PropsOf(m1.nodes) == props && NodeOf(incoming) == bk
    requires k in m1.nodes && m1.nodes[k].Some? && k in props && Unshared(props[k])
    requires forall j :: j in m1.nodes && j != k && m1.nodes[j].Some? ==>
      m1.nodes[j].value != m1.nodes[k].value && SetsIn(props[j]) !! SetsIn(props[k])
    requires incoming != m1.nodes[k].value && SetsIn(props[k]) !! SetsIn(incoming.props)
    modifies m1.nodes[k].value, SetsOfNode(m1.nodes[k].value)
    ensures SetsIn(m1.nodes[k].value.props) <= SetsIn(props[k]) + SetsIn(incoming.props)
    ensures PropsOf(m1.nodes) == props[k := m1.nodes[k].value.props]
    ensures TypeOf(m1) == before[k := Some(MergeNode(before[k].value, bk))]
  {
    var n := m1.nodes[k].value;
    MergeNodeMaps(n, incoming, NodeOf(n), bk);
    forall j | j in m1.nodes && j != k && m1.nodes[j].Some?
      ensures m1.nodes[j].value.props == props[j]
    {
    }
    assert PropsOf(m1.nodes) == props[k := n.props];
    forall j | j in m1.nodes && j != k
      ensures TypeOf(m1)[j] == before[j]
    {
      if m1.nodes[j].Some? {
        var nj := m1.nodes[j].value;
        assert NodeOf(nj) == old(NodeOf(nj));
      }
    }
  }

  /**
   * One key of `tree2[type]?.forEach((nestedProperties, key) => ...)`: the
   * entry `incoming` of the second type Map, which reads as `b[k]`, is merged
   * into `m1` (`mergedType`), one more step of `TypeMerging`.
   */
  method MergeKey(m1: TypeMap, k: Key, incoming: Option<NodeMap>, ghost a: TypeValue, ghost b: TypeValue,
                  ghost nodes1: map<Key, Option<NodeMap>>, ghost props1: map<Key, map<string, PropRef>>,
                  ghost sets2: set<ValueSet>, ghost done: set<Key>, ghost props: map<Key, map<string, PropRef>>)
    returns (ghost props': map<Key, map<string, PropRef>>)
    requires Separate(nodes1, props1, sets2) && k in b && k !in done
    requires incoming.Some? <==> b[k].Some?
    requires incoming.Some? ==>
      && NodeOf(incoming.value) == b[k].value && incoming.value !in NodesIn(nodes1)
      && SetsIn(incoming.value.props) <= sets2
    requires PropsOf(m1.nodes) == props && TypeMerging(m1.nodes, props, nodes1, props1, sets2, done)
    requires TypeOf(m1) == MergeTypeOn(a, b, done)
    modifies m1, NodeAt(m1.nodes, k), SetsOfNodes(NodeAt(m1.nodes, k))
    ensures PropsOf(m1.nodes) == props' && TypeMerging(m1.nodes, props', nodes1, props1, sets2, done + {k})
    ensures TypeOf(m1) == MergeTypeOn(a, b, done + {k})
    ensures forall j :: j in m1.nodes && m1.nodes[j].Some? ==>
      (j in old(m1.nodes) && m1.nodes[j] == old(m1.nodes)[j]) || fresh(m1.nodes[j].value)
  {
    if k in props1 {
      MergingApart(m1.nodes, props, nodes1, props1, sets2, done, k);
    }
    MergeTypeOnStep(a, b, done, k);
    MergeTypeOnUntouched(a, b, done, k);
    ghost var nodes := m1.nodes;
    var pk := MergeTypeStep(m1, k, incoming, TypeOf(m1), props, b[k]);
    MergingStep(nodes, props, nodes1, props1, sets2, done, k, m1.nodes[k], pk);
    props' := if pk.Some? then props[k := pk.value] else props - {k};
  }

  /**
   * `tree2[type]?.forEach((nestedProperties, key) => ...)` of `mergeTrees`:
   * every entry of the type Map `m2` is merged into `m1` (`mergedType`).
   * The node Maps of `m1` are written in place; a key new to `m1` takes a
   * new node Map that holds the Sets of `m2`. `m2` itself reads as before.
   */
  method MergeTypeMaps(m1: TypeMap, m2: TypeMap)
    requires m1 != m2
    requires Separate(m1.nodes, PropsOf(m1.nodes), SetsOfNodes(NodesIn(m2.nodes)))
    requires NodesIn(m1.nodes) !! NodesIn(m2.nodes)
    modifies m1, NodesIn(m1.nodes), SetsOfNodes(NodesIn(m1.nodes))
    ensures TypeOf(m1) == MergeType(old(TypeOf(m1)), old(TypeOf(m2)))
    ensures TypeOf(m2) == old(TypeOf(m2))
  {
    var nodes2 := m2.nodes;
    ghost var run := MergeStart(m1, m2);
    ghost var props := PropsOf(m1.nodes);
    ghost var done: set<Key> := {};
    var todo := nodes2.Keys;
    while todo != {}
      invariant done !! todo && done + todo == nodes2.Keys
      invariant TypeMergeAt(m1, nodes2, run, done, props)
      invariant TypeOf(m2) == run.b && SetsOfNodes(NodesIn(nodes2)) == run.sets2
      decreases todo
    {
      var k :| k in todo;
      todo := todo - {k};
      props := MergeTypeKey(m1, m2, k, run, done, props);
      done := done + {k};
    }
    assert done == run.b.Keys;
    assert TypeOf(m1) == MergeType(run.a, run.b);
  }

  /**
   * What the merge of a second type Map into `m1` started from: the type
   * values `a` and `b` of the two, the entries `nodes1` of the first, the
   * entries `props1` and Sets `sets1` of its node Maps, and the Sets `sets2`
   * of the node Maps of the second.
   */
  datatype MergeRun = MergeRun(a: TypeValue, b: TypeValue, nodes1: map<Key, Option<NodeMap>>,
                               props1: map<Key, map<string, PropRef>>, sets1: set<ValueSet>, sets2: set<ValueSet>)

  /**
   * The merge of the entries `nodes2` of the second type Map into `m1` has
   * come as far as the keys `done`: `m1` reads as the merge of `run.b`
   * restricted to `done` into `run.a`, and what it writes is apart from
   * `nodes2` and its Sets `run.sets2`.
   */
  ghost predicate TypeMergeAt(m1: TypeMap, nodes2: map<Key, Option<NodeMap>>, run: MergeRun, done: set<Key>,
                              props: map<Key, map<string, PropRef>>)
    reads m1, NodesIn(m1.nodes), SetsOfNodes(NodesIn(m1.nodes))
  {
    && Separate(run.nodes1, run.props1, run.sets2) && NodesIn(run.nodes1) !! NodesIn(nodes2)
    && (forall j :: j in run.props1 ==> SetsIn(run.props1[j]) <= run.sets1) && run.sets1 !! run.sets2
    && nodes2.Keys == run.b.Keys
    && PropsOf(m1.nodes) == props
    && TypeMerging(m1.nodes, props, run.nodes1, run.props1, run.sets2, done)
    && TypeOf(m1) == MergeTypeOn(run.a, run.b, done)
  }

  /** The merge starts with nothing merged. */
  lemma MergeStart(m1: TypeMap, m2: TypeMap) returns (run: MergeRun)
    requires Separate(m1.nodes, PropsOf(m1.nodes), SetsOfNodes(NodesIn(m2.nodes)))
    requires NodesIn(m1.nodes) !! NodesIn(m2.nodes)
    ensures run.a == TypeOf(m1) && run.b == TypeOf(m2)
    ensures run.nodes1 == m1.nodes && run.sets1 == SetsOfNodes(NodesIn(m1.nodes))
    ensures run.sets2 == SetsOfNodes(NodesIn(m2.nodes))
    ensures TypeMergeAt(m1, m2.nodes, run, {}, PropsOf(m1.nodes))
  {
    var nodes2 := m2.nodes;
    run := MergeRun(TypeOf(m1), TypeOf(m2), m1.nodes, PropsOf(m1.nodes), SetsOfNodes(NodesIn(m1.nodes)), SetsOfNodes(NodesIn(nodes2)));
    MergingStart(run.nodes1, run.props1, run.sets2);
    forall k, x | k in run.props1 && x in SetsIn(run.props1[k])
      ensures x in run.sets1
    {
      assert run.nodes1[k].value in NodesIn(run.nodes1);
    }
    forall x | x in run.sets1
      ensures x !in run.sets2
    {
      var n :| n in NodesIn(run.nodes1) && x in SetsIn(n.props);
      var k :| k in run.nodes1 && run.nodes1[k].Some? && run.nodes1[k].value == n;
      assert k in run.props1;
    }
  }

  /** The entry of `k` in the type Map `m2`, its node Map and the Sets it holds. */
  lemma Incoming(m2: TypeMap, k: Key)
    requires k in m2.nodes
    ensures k in TypeOf(m2)
    ensures m2.nodes[k].Some? <==> TypeOf(m2)[k].Some?
    ensures m2.nodes[k].Some? ==>
      && NodeOf(m2.nodes[k].value) == TypeOf(m2)[k].value && m2.nodes[k].value in NodesIn(m2.nodes)
      && SetsIn(m2.nodes[k].value.props) <= SetsOfNodes(NodesIn(m2.nodes))
  {
  }

  /**
   * The body of the loop of `MergeTypeMaps` for the key `k` of the second
   * type Map `m2`, which reads as `run.b` before and after.
   */
  method MergeTypeKey(m1: TypeMap, m2: TypeMap, k: Key, ghost run: MergeRun, ghost done: set<Key>,
                      ghost props: map<Key, map<string, PropRef>>)
    returns (ghost props': map<Key, map<string, PropRef>>)
    requires m1 != m2 && k in m2.nodes && k !in done && TypeMergeAt(m1, m2.nodes, run, done, props)
    requires TypeOf(m2) == run.b && SetsOfNodes(NodesIn(m2.nodes)) == run.sets2
    modifies m1, NodesIn(run.nodes1), run.sets1
    ensures TypeMergeAt(m1, m2.nodes, run, done + {k}, props')
    ensures TypeOf(m2) == run.b && SetsOfNodes(NodesIn(m2.nodes)) == run.sets2
  {
    Incoming(m2, k);
    props' := MergeIncoming(m1, k, m2.nodes[k], m2.nodes, run, done, props);
    assert unchanged(m2) && unchanged(NodesIn(m2.nodes)) && unchanged(run.sets2);
  }

  /** The entry `incoming` of the second type Map, which reads as `run.b[k]`, merged into `m1`. */
  method MergeIncoming(m1: TypeMap, k: Key, incoming: Option<NodeMap>, nodes2: map<Key, Option<NodeMap>>,
                       ghost run: MergeRun, ghost done: set<Key>, ghost props: map<Key, map<string, PropRef>>)
    returns (ghost props': map<Key, map<string, PropRef>>)
    requires k in run.b && k !in done && TypeMergeAt(m1, nodes2, run, done, props)
    requires incoming.Some? <==> run.b[k].Some?
    requires incoming.Some? ==>
      && NodeOf(incoming.value) == run.b[k].value && incoming.value in NodesIn(nodes2)
      && SetsIn(incoming.value.props) <= run.sets2
    modifies m1, NodesIn(run.nodes1), run.sets1
    ensures TypeMergeAt(m1, nodes2, run, done + {k}, props')
  {
    if k in m1.nodes && m1.nodes[k].Some? {
      assert k in run.props1 && props[k] == run.props1[k] && m1.nodes[k].value.props == props[k];
      assert SetsOfNodes(NodeAt(m1.nodes, k)) == SetsIn(run.props1[k]);
    }
    assert NodeAt(m1.nodes, k) <= NodesIn(run.nodes1);
    assert SetsOfNodes(NodeAt(m1.nodes, k)) <= run.sets1;
    props' := MergeKey(m1, k, incoming, run.a, run.b, run.nodes1, run.props1, run.sets2, done, props);
  }

  /** The Sets of a node Map with one Set-valued prop. */
  lemma SetsInOne(p: string, x: ValueSet)
    ensures SetsIn(map[p := SetRef(x)]) == {x}
  {
    var m := map[p := SetRef(x)];
    assert p in m && m[p].SetRef? && m[p].jsSet == x;
  }

  /**
   * `mergeTrees` writes into its first argument: the type Map it merges into
   * is `new Map(tree1[type])`, whose node Maps are those of `tree1`. Here the
   * node 1 of `tree1`'s type Map has `posts` = Set {10}; once the node 1 of
   * `tree2`, with `posts` = Set {11}, is merged in, the node Map that
   * `tree1` itself holds reads `posts` = Set {10, 11}.
   */
  method MergeWritesFirstTree() returns (before: NodeValue, after: NodeValue)
    ensures before == map["posts" := SetOf({Prim(Num(10))})]
    ensures after == map["posts" := SetOf({Prim(Num(10)), Prim(Num(11))})]
  {
    var node1 := NewNodeOf(map["posts" := SetOf({Prim(Num(10))})]);
    var type1 := new TypeMap(map[Num(1) := Some(node1)]);
    var node2 := NewNodeOf(map["posts" := SetOf({Prim(Num(11))})]);
    before := NodeOf(type1.nodes[Num(1)].value);
    MergeOnePost(before, NodeOf(node2));
    var merged := new TypeMap(type1.nodes);
    var mergedNested := merged.nodes[Num(1)].value;
    MergeNodeMaps(mergedNested, node2, before, NodeOf(node2));
    after := NodeOf(type1.nodes[Num(1)].value);
  }

  /** The value side of the example: the two `posts` Sets are unioned. */
  lemma MergeOnePost(a: NodeValue, b: NodeValue)
    requires a == map["posts" := SetOf({Prim(Num(10))})] && b == map["posts" := SetOf({Prim(Num(11))})]
    ensures MergeNode(a, b) == map["posts" := SetOf({Prim(Num(10)), Prim(Num(11))})]
  {
    var m := MergeNode(a, b);
    assert m.Keys == {"posts"};
    assert m["posts"] == MergeProp(Some(a["posts"]), b["posts"]);
    assert {Prim(Num(10))} + {Prim(Num(11))} == {Prim(Num(10)), Prim(Num(11))};
  }

  /**
   * The merge of one node as the result is meant to be, independent of both
   * trees: a new node Map whose Set-valued props are new Sets, so that
   * writing into the result cannot change `n1` or `n2`, which the merge
   * itself leaves as they were.
   */
  method MergeNodeCopy(n1: NodeMap, n2: NodeMap) returns (n: NodeMap)
    ensures fresh(n) && fresh(SetsOfNode(n))
    ensures NodeOf(n) == MergeNode(NodeOf(n1), NodeOf(n2))
  {
    n := NewNodeOf(MergeNode(NodeOf(n1), NodeOf(n2)));
  }

  /** A new node Map, with new Sets, that reads as `v`. */
  method NewNodeOf(v: NodeValue) returns (n: NodeMap)
    ensures fresh(n) && fresh(SetsOfNode(n)) && Unshared(n.props)
    ensures NodeOf(n) == v
  {
    var props: map<string, PropRef> := map[];
    var todo := v.Keys;
    while todo != {}
      invariant todo <= v.Keys && props.Keys == v.Keys - todo
      invariant forall p :: p in props ==> PropOf(props[p]) == v[p] && (props[p].SetRef? ==> fresh(props[p].jsSet))
      invariant Unshared(props)
      decreases todo
    {
      var p :| p in todo;
      todo := todo - {p};
      var r := CopyProp(v[p]);
      props := props[p := r];
    }
    n := new NodeMap(props);
    assert NodeOf(n).Keys == v.Keys;
  }

  /** A prop value held anew: a Set is copied, any other value is kept. */
  method CopyProp(v: PropValue) returns (r: PropRef)
    ensures PropOf(r) == v && (r.SetRef? ==> fresh(r.jsSet))
  {
    if v.SetOf? {
      var s := new ValueSet(v.elems);
      r := SetRef(s);
    } else {
      r := PlainRef(v.v);
    }
  }
}
