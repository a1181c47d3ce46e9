/*
 * `v3/utils.ts`. Its `mergeObjects` is the same code as `utils.ts` and is
 * `Utils.MergeObjects` here; its `mergeReverseReferences` differs in one
 * place: an undefined entry in the second record is dereferenced without
 * `?.`, which throws a TypeError.
 */
module V3Utils {
  import opened Values
  import opened Utils

  /**
   * The v3 `mergeReverseReferences(ref1, ref2)`: as `Utils.MergeReverseReferences`,
   * except that a type with a Set in `ref1` and `undefined` in `ref2` throws.
   * Sets of types handled before the throw have already grown.
   */
  method MergeReverseReferences(ref1: RefRecord, ref2: RefRecord) returns (r: Result<RefRecord>)
    requires SeparateSets(ref1, ref2)
    modifies SetsOf(ref1)
    ensures r.Err? <==> exists t :: t in ref2 && ref2[t].None? && t in ref1 && ref1[t].Some?
    ensures r.Err? ==> r.error == TypeError
    ensures r.Ok? ==> r.value.Keys == ref1.Keys + ref2.Keys
    ensures r.Ok? ==> forall t :: t in r.value && TakesSecond(ref1, ref2, t) ==> r.value[t] == ref2[t]
    ensures r.Ok? ==> forall t :: t in r.value && !TakesSecond(ref1, ref2, t) ==> t in ref1 && r.value[t] == ref1[t]
    ensures r.Ok? ==> forall t :: t in ref1 && ref1[t].Some? && t in ref2 ==>
      ref2[t].Some? && ref1[t].value.elems == old(ref1[t].value.elems) + old(ref2[t].value.elems)
    ensures forall t :: t in ref1 && ref1[t].Some? && !(t in ref2 && ref2[t].Some?) ==>
      ref1[t].value.elems == old(ref1[t].value.elems)
    ensures r.Err? ==> forall t :: t in ref1 && ref1[t].Some? && t in ref2 && ref2[t].Some? ==>
      || ref1[t].value.elems == old(ref1[t].value.elems)
      || ref1[t].value.elems == old(ref1[t].value.elems) + old(ref2[t].value.elems)
  {
    var merged := ref1;
    var todo := ref2.Keys;
    while todo != {}
      invariant todo <= ref2.Keys
      invariant merged.Keys == ref1.Keys + (ref2.Keys - todo)
      invariant forall t :: t in merged && t !in todo && TakesSecond(ref1, ref2, t) ==> merged[t] == ref2[t]
      invariant forall t :: t in merged && !(t !in todo && TakesSecond(ref1, ref2, t)) ==> t in ref1 && merged[t] == ref1[t]
      invariant forall t :: t in ref2 && t !in todo ==> !(ref2[t].None? && t in ref1 && ref1[t].Some?)
      invariant forall t :: t in ref1 && ref1[t].Some? && t in ref2 && t !in todo && ref2[t].Some? ==>
        ref1[t].value.elems == old(ref1[t].value.elems) + old(ref2[t].value.elems)
      invariant forall t :: t in ref1 && ref1[t].Some? && !(t in ref2 && t !in todo && ref2[t].Some?) ==>
        ref1[t].value.elems == old(ref1[t].value.elems)
      invariant forall t :: t in ref2 && ref2[t].Some? && !(t in ref1 && ref1[t].Some? && t !in todo) ==>
        ref2[t].value.elems == old(ref2[t].value.elems)
      decreases todo
    {
      var t :| t in todo;
      todo := todo - {t};
      if t in merged && merged[t].Some? {
        if ref2[t].None? {
          return Err(TypeError);
        }
        merged[t].value.AddAll(ref2[t].value.elems);
      } else {
        merged := merged[t := ref2[t]];
      }
    }
    r := Ok(merged);
  }
}
