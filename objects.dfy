/*
 * Object helpers of the impl generation: `Objects.patch` (get-or-insert on a
 * record that is updated in place) and `Objects.merge` (a deep merge that
 * fills blanks and overwrites everything else).
 */
module Objects {
  import opened Values

  /** A plain object held by reference; `patch` writes into it. */
  class JsObject {
    var fields: Fields

    constructor (fields: Fields)
      ensures this.fields == fields
    {
      this.fields := fields;
    }

    /**
     * Returns the value at `property`, storing `defaultValue` first when the
     * property is nullish; with `merge`, an existing value is replaced by
     * `merge(existing)`.
     */
    method Patch(property: string, defaultValue: Value, merge: Option<Value -> Value>) returns (r: Value)
      requires !IsNullish(defaultValue)
      modifies this
      ensures Get(fields, property) == r
      ensures forall p :: p in old(fields) && p != property ==> p in fields && fields[p] == old(fields)[p]
      ensures fields.Keys == old(fields).Keys + {property}
      ensures IsNullish(Get(old(fields), property)) ==> r == defaultValue
      ensures !IsNullish(Get(old(fields), property)) && merge.None? ==> r == old(fields)[property] && fields == old(fields)
      ensures !IsNullish(Get(old(fields), property)) && merge.Some? ==> r == merge.value(old(fields)[property])
    {
      var existing := Get(fields, property);
      if !IsNullish(existing) {
        if merge.None? {
          return existing;
        }
        r := merge.value(existing);
        fields := fields[property := r];
        return r;
      }
      fields := fields[property := defaultValue];
      r := defaultValue;
    }
  }

  /** `Object.keys(v)` with the values behind them; `undefined` and `null` throw a TypeError. */
  function OwnProperties(v: Value): Result<Fields>
  {
    if IsNullish(v) then Err(TypeError) else Ok(Spread(v))
  }

  /**
   * The value `merge` stores for a property present in both objects: a blank
   * is replaced, a plain object (a Set counts, spreading to `{}`) is merged
   * recursively, anything else (arrays, Dates, Blobs, primitives) is overwritten.
   */
  function MergeValue(existing: Value, incoming: Value): Result<Value>
    decreases existing, 2
  {
    if IsBlank(existing) then Ok(incoming)
    else if existing.Obj? then
      var props :- OwnProperties(incoming);
      var m :- Merge(existing.fields, props);
      Ok(Obj(m))
    else if existing.KeySet? then
      var props :- OwnProperties(incoming);
      Ok(Obj(props))
    else Ok(incoming)
  }

  /** `Objects.merge(item1, item2)`: a fresh object; neither argument changes. */
  function Merge(item1: Fields, item2: Fields): (r: Result<Fields>)
    decreases Obj(item1), 1
    ensures r.Ok? ==> r.value.Keys == item1.Keys + item2.Keys
  {
    if forall k :: k in item2 && k in item1 ==> MergeValue(item1[k], item2[k]).Ok? then
      Ok(map k | k in item1.Keys + item2.Keys ::
           if k !in item2 then item1[k]
           else if k !in item1 then item2[k]
           else MergeValue(item1[k], item2[k]).value)
    else Err(TypeError)
  }

  /** No Set anywhere inside a value. */
  predicate SetFree(v: Value)
  {
    match v
    case KeySet(_) => false
    case Obj(m) => forall k :: k in m ==> SetFree(m[k])
    case Arr(s) => forall i :: 0 <= i < |s| ==> SetFree(s[i])
    case _ => true
  }

  /** No nullish value anywhere inside the plain objects and arrays of a value. */
  predicate NullFree(v: Value)
  {
    match v
    case Undefined => false
    case Null => false
    case Obj(m) => forall k :: k in m ==> NullFree(m[k])
    case Arr(s) => forall i :: 0 <= i < |s| ==> NullFree(s[i])
    case _ => true
  }

  /** The properties a value without nullish parts spreads into hold no nullish part either. */
  lemma SpreadNullFree(v: Value)
    requires NullFree(v)
    ensures NullFree(Obj(Spread(v)))
  {
    forall k | k in Spread(v)
      ensures NullFree(Spread(v)[k])
    {
      if v.Arr? {
        var i :| 0 <= i < |v.items| && k == IndexName(i) && Spread(v)[k] == v.items[i];
      }
    }
  }

  /** Per property, what `merge` stores (a Set spreads to nothing and is replaced by the incoming properties). */
  lemma MergeAt(item1: Fields, item2: Fields, k: string)
    requires Merge(item1, item2).Ok?
    requires k in item1 || k in item2
    ensures var r := Merge(item1, item2).value;
      && k in r
      && (k !in item2 ==> r[k] == item1[k])
      && (k in item2 && (k !in item1 || IsBlank(item1[k])) ==> r[k] == item2[k])
      && (k in item2 && k in item1 && !IsBlank(item1[k]) && !item1[k].Obj? && !item1[k].KeySet? ==> r[k] == item2[k])
      && (k in item2 && k in item1 && !IsBlank(item1[k]) && item1[k].Obj? ==>
            r[k].Obj? && Merge(item1[k].fields, Spread(item2[k])) == Ok(r[k].fields))
      && (k in item2 && k in item1 && item1[k].KeySet? ==> r[k] == Obj(Spread(item2[k])))
  {
  }

  /** Merging an object with itself gives it back, when it holds no Set. */
  lemma {:induction false} MergeSelf(item: Fields)
    requires SetFree(Obj(item))
    ensures Merge(item, item) == Ok(item)
    decreases Obj(item)
  {
    forall k | k in item
      ensures MergeValue(item[k], item[k]) == Ok(item[k])
    {
      var v := item[k];
      assert SetFree(v);
      if !IsBlank(v) && v.Obj? {
        MergeSelf(v.fields);
      }
    }
    var r := Merge(item, item);
    assert r.Ok?;
    assert r.value.Keys == item.Keys;
    assert forall k :: k in item ==> r.value[k] == item[k];
    assert r.value == item;
  }

  /** An incoming object without nullish values never makes `merge` throw. */
  lemma {:induction false} MergeNullFreeSucceeds(item1: Fields, item2: Fields)
    requires NullFree(Obj(item2))
    ensures Merge(item1, item2).Ok?
    decreases Obj(item1)
  {
    forall k | k in item2 && k in item1
      ensures MergeValue(item1[k], item2[k]).Ok?
    {
      var v := item1[k];
      assert NullFree(item2[k]);
      if !IsBlank(v) && v.Obj? {
        SpreadNullFree(item2[k]);
        MergeNullFreeSucceeds(v.fields, Spread(item2[k]));
      }
    }
  }

  /** Merging nothing in changes nothing; merging into nothing copies. */
  lemma MergeEmpty(item: Fields)
    ensures Merge(item, map[]) == Ok(item)
    ensures Merge(map[], item) == Ok(item)
  {
    assert Merge(item, map[]).value == item;
    assert Merge(map[], item).value == item;
  }

  /** The indices of a two-element list are `"0"` and `"1"`. */
  lemma IndicesOfTwo(a: Value, b: Value)
    ensures Indices([a, b]) == map["0" := a, "1" := b]
  {
    var r := Indices([a, b]);
    assert IndexName(0) == "0" && IndexName(1) == "1";
    forall p | p in r
      ensures p == "0" || p == "1"
    {
      var i :| 0 <= i < 2 && p == IndexName(i);
    }
  }

  /** `{ ...'hi' }` is `{ 0: 'h', 1: 'i' }`. */
  lemma SpreadHi()
    ensures Spread(Prim(Str("hi"))) == map["0" := Prim(Str("h")), "1" := Prim(Str("i"))]
  {
    assert Spread(Prim(Str("hi"))) == Indices(Chars("hi"));
    assert Chars("hi") == [Prim(Str("h")), Prim(Str("i"))];
    IndicesOfTwo(Prim(Str("h")), Prim(Str("i")));
  }

  /** Merging `{ 0: 'h', 1: 'i' }` into `{ x: 1 }`, whose keys it does not share. */
  lemma MergeHiInto()
    ensures Merge(map["x" := Prim(Num(1))], map["0" := Prim(Str("h")), "1" := Prim(Str("i"))])
      == Ok(map["x" := Prim(Num(1)), "0" := Prim(Str("h")), "1" := Prim(Str("i"))])
  {
    var r := Merge(map["x" := Prim(Num(1))], map["0" := Prim(Str("h")), "1" := Prim(Str("i"))]);
    assert r.Ok?;
    assert r.value == map["x" := Prim(Num(1)), "0" := Prim(Str("h")), "1" := Prim(Str("i"))];
  }

  /** Two one-property objects sharing their property merge into that property's merge. */
  lemma MergeOneKey(k: string, v1: Value, v2: Value, m: Value)
    requires MergeValue(v1, v2) == Ok(m)
    ensures Merge(map[k := v1], map[k := v2]) == Ok(map[k := m])
  {
    var r := Merge(map[k := v1], map[k := v2]);
    assert r.Ok?;
    assert r.value == map[k := m];
  }

  /**
   * A string merged over an object adds its indices:
   * `merge({ a: { x: 1 } }, { a: 'hi' })` is `{ a: { x: 1, 0: 'h', 1: 'i' } }`.
   */
  lemma MergeSpreadsString()
    ensures Merge(map["a" := Obj(map["x" := Prim(Num(1))])], map["a" := Prim(Str("hi"))])
      == Ok(map["a" := Obj(map["x" := Prim(Num(1)), "0" := Prim(Str("h")), "1" := Prim(Str("i"))])])
  {
    var merged := Obj(map["x" := Prim(Num(1)), "0" := Prim(Str("h")), "1" := Prim(Str("i"))]);
    assert OwnProperties(Prim(Str("hi"))) == Ok(map["0" := Prim(Str("h")), "1" := Prim(Str("i"))]) by {
      SpreadHi();
    }
    MergeHiInto();
    MergeOneKey("a", Obj(map["x" := Prim(Num(1))]), Prim(Str("hi")), merged);
  }
}
