/*
 * The merge helpers of `utils.ts`: a first-value-wins object merge with
 * optional per-property merge functions, and the union of reverse-reference
 * records (type -> Set of identities), which adds into the Sets of the first
 * record in place.
 */
module Utils {
  import opened Values

  /**
   * `mergeObjects(item1, item2, merge)`: a fresh object. A property of `item2`
   * fills a blank (nullish or empty array) of `item1`; where `item1` already
   * holds something, a registered merge function combines the two, and
   * otherwise the first value stays.
   */
  function MergeObjects(item1: Fields, item2: Fields, merge: map<string, (Value, Value) -> Value>): (r: Fields)
    ensures r.Keys == item1.Keys + item2.Keys
  {
    map k | k in item1.Keys + item2.Keys ::
      if k !in item2 then item1[k]
      else if k !in item1 || IsBlank(item1[k]) then item2[k]
      else if k in merge then merge[k](item1[k], item2[k])
      else item1[k]
  }

  /** Per property: the first non-blank value wins unless a merge function is registered for it. */
  lemma MergeObjectsAt(item1: Fields, item2: Fields, merge: map<string, (Value, Value) -> Value>, k: string)
    requires k in item1 || k in item2
    ensures var r := MergeObjects(item1, item2, merge);
      && (k in item1 && !IsBlank(item1[k]) && k !in merge ==> r[k] == item1[k])
      && (k in item1 && !IsBlank(item1[k]) && k in merge && k in item2 ==> r[k] == merge[k](item1[k], item2[k]))
      && ((k !in item1 || IsBlank(item1[k])) && k in item2 ==> r[k] == item2[k])
      && (k !in item2 ==> r[k] == item1[k])
  {
  }

  /**
   * Without merge functions, merging the same object in a second time changes
   * nothing: `mergeObjects(mergeObjects(a, b), b) == mergeObjects(a, b)`.
   */
  lemma MergeObjectsAbsorbs(item1: Fields, item2: Fields)
    ensures MergeObjects(MergeObjects(item1, item2, map[]), item2, map[]) == MergeObjects(item1, item2, map[])
  {
    var once := MergeObjects(item1, item2, map[]);
    var twice := MergeObjects(once, item2, map[]);
    assert twice.Keys == once.Keys;
    forall k | k in once
      ensures twice[k] == once[k]
    {
    }
  }

  /** Merging into an empty object copies; merging an empty object in changes nothing. */
  lemma MergeObjectsEmpty(item: Fields, merge: map<string, (Value, Value) -> Value>)
    ensures MergeObjects(map[], item, merge) == item
    ensures MergeObjects(item, map[], merge) == item
  {
    assert MergeObjects(map[], item, merge).Keys == item.Keys;
    assert MergeObjects(item, map[], merge).Keys == item.Keys;
  }

  /** A JavaScript Set of identities held by reference. */
  class JsSet {
    var elems: set<Key>

    constructor (elems: set<Key>)
      ensures this.elems == elems
    {
      this.elems := elems;
    }

    /** `other.forEach(next => this.add(next))` */
    method AddAll(other: set<Key>)
      modifies this
      ensures elems == old(elems) + other
    {
      var todo := other;
      while todo != {}
        invariant todo <= other
        invariant elems == old(elems) + (other - todo)
        decreases todo
      {
        var next :| next in todo;
        elems := elems + {next};
        todo := todo - {next};
      }
    }
  }

  /** A reverse-reference record: type name -> Set of identities (an entry may hold `undefined`). */
  type RefRecord = map<string, Option<JsSet>>

  function SetsOf(refs: RefRecord): set<JsSet>
  {
    set t | t in refs && refs[t].Some? :: refs[t].value
  }

  /**
   * The aliasing the merge below is specified for: no Set sits under two types
   * of `ref1`, and no Set of `ref2` sits in `ref1` under another type.
   */
  predicate SeparateSets(ref1: RefRecord, ref2: RefRecord)
  {
    && (forall t, u :: t in ref1 && u in ref1 && t != u && ref1[t].Some? && ref1[u].Some? ==> ref1[t].value != ref1[u].value)
    && (forall t, u :: t in ref1 && u in ref2 && t != u && ref1[t].Some? && ref2[u].Some? ==> ref1[t].value != ref2[u].value)
  }

  /** The identities recorded for `typeName` in a reverse-reference value. */
  function RefsOf(refs: Value, typeName: string): set<Key>
  {
    if refs.Obj? && typeName in refs.fields && refs.fields[typeName].KeySet? then refs.fields[typeName].keys else {}
  }

  /** A reverse-reference value as the engine builds it: an object of Sets. */
  predicate WellFormedRefs(refs: Value)
  {
    refs.Obj? && forall t :: t in refs.fields ==> refs.fields[t].KeySet?
  }

  /**
   * `mergeReverseReferences` on values: a type with a falsy entry in the first
   * record takes the second record's entry; otherwise the second record's Set
   * is added into the first one's (an undefined second entry adds nothing).
   * Entries that are not Sets are not modelled beyond that: the source would
   * throw at `.add` on a truthy non-Set first entry, and would add the
   * elements of an array second entry, where this keeps the first entry.
   */
  function UnionReverseRefs(refs1: Value, refs2: Value): Value
  {
    var m1 := Spread(refs1);
    var m2 := Spread(refs2);
    Obj(map t | t in m1.Keys + m2.Keys ::
      if t !in m2 then m1[t]
      else if t !in m1 || !IsTruthy(m1[t]) then m2[t]
      else if m1[t].KeySet? && m2[t].KeySet? then KeySet(m1[t].keys + m2[t].keys)
      else m1[t])
  }

  /** On objects of Sets the merge is the per-type union. */
  lemma UnionReverseRefsSpec(refs1: Value, refs2: Value)
    requires WellFormedRefs(refs1) && WellFormedRefs(refs2)
    ensures WellFormedRefs(UnionReverseRefs(refs1, refs2))
    ensures UnionReverseRefs(refs1, refs2).fields.Keys == refs1.fields.Keys + refs2.fields.Keys
    ensures forall t :: RefsOf(UnionReverseRefs(refs1, refs2), t) == RefsOf(refs1, t) + RefsOf(refs2, t)
  {
    var r := UnionReverseRefs(refs1, refs2);
    forall t
      ensures RefsOf(r, t) == RefsOf(refs1, t) + RefsOf(refs2, t)
    {
      if t in refs1.fields && t in refs2.fields {
        assert IsTruthy(refs1.fields[t]);
      }
    }
  }

  /**
   * `mergeReverseReferences(ref1, ref2)`: a fresh record holding `ref1`'s
   * entries; a type whose entry in it is falsy takes `ref2`'s entry (the same
   * Set object), otherwise `ref2`'s identities are added to `ref1`'s Set in
   * place (`?.` skips an undefined `ref2` entry).
   */
  method MergeReverseReferences(ref1: RefRecord, ref2: RefRecord) returns (merged: RefRecord)
    requires SeparateSets(ref1, ref2)
    modifies SetsOf(ref1)
    ensures merged.Keys == ref1.Keys + ref2.Keys
    ensures forall t :: t in merged && TakesSecond(ref1, ref2, t) ==> merged[t] == ref2[t]
    ensures forall t :: t in merged && !TakesSecond(ref1, ref2, t) ==> t in ref1 && merged[t] == ref1[t]
    ensures forall t :: t in ref1 && ref1[t].Some? && t in ref2 && ref2[t].Some? ==>
      ref1[t].value.elems == old(ref1[t].value.elems) + old(ref2[t].value.elems)
    ensures forall t :: t in ref1 && ref1[t].Some? && !(t in ref2 && ref2[t].Some?) ==>
      ref1[t].value.elems == old(ref1[t].value.elems)
  {
    merged := ref1;
    var todo := ref2.Keys;
    while todo != {}
      invariant todo <= ref2.Keys
      invariant merged.Keys == ref1.Keys + (ref2.Keys - todo)
      invariant forall t :: t in merged && t !in todo && TakesSecond(ref1, ref2, t) ==> merged[t] == ref2[t]
      invariant forall t :: t in merged && !(t !in todo && TakesSecond(ref1, ref2, t)) ==> t in ref1 && merged[t] == ref1[t]
      invariant forall t :: t in ref1 && ref1[t].Some? && t in ref2 && t !in todo && ref2[t].Some? ==>
        ref1[t].value.elems == old(ref1[t].value.elems) + old(ref2[t].value.elems)
      invariant forall t :: t in ref1 && ref1[t].Some? && !(t in ref2 && t !in todo && ref2[t].Some?) ==>
        ref1[t].value.elems == old(ref1[t].value.elems)
      invariant forall t :: t in ref2 && ref2[t].Some? && !(t in ref1 && ref1[t].Some? && t !in todo) ==>
        ref2[t].value.elems == old(ref2[t].value.elems)
      decreases todo
    {
      var t :| t in todo;
      todo := todo - {t};
      if t in merged && merged[t].Some? {
        if ref2[t].Some? {
          merged[t].value.AddAll(ref2[t].value.elems);
        }
      } else {
        merged := merged[t := ref2[t]];
      }
    }
  }

  /** Whether `mergeReverseReferences` takes the second record's entry for `t`. */
  predicate TakesSecond(ref1: RefRecord, ref2: RefRecord, t: string)
  {
    t in ref2 && !(t in ref1 && ref1[t].Some?)
  }
}
