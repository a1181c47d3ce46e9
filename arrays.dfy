/*
 * Array helpers of the impl generation: `pushDistinct`, `upsert` (both update
 * the array they are given), `merge` (upserts into a copy) and
 * `mergePrimitive` (a duplicate-free append into a copy).
 */
module Arrays {
  import opened Values
  import Objects

  /** A JavaScript array held by reference: callers see pushes and index writes. */
  class JsArray<T> {
    var items: seq<T>

    constructor (items: seq<T>)
      ensures this.items == items
    {
      this.items := items;
    }
  }

  /** `findIndex`: the first position whose element satisfies `p`, or -1. */
  function FindIndex<T>(s: seq<T>, p: T -> bool): (i: int)
    ensures -1 <= i < |s|
    ensures 0 <= i ==> p(s[i]) && forall j :: 0 <= j < i ==> !p(s[j])
    ensures i == -1 ==> forall j :: 0 <= j < |s| ==> !p(s[j])
  {
    if |s| == 0 then -1
    else if p(s[0]) then 0
    else
      var i := FindIndex(s[1..], p);
      assert forall j :: 1 <= j < |s| ==> s[j] == s[1..][j - 1];
      if i < 0 then -1 else i + 1
  }

  /** The test `pushDistinct` applies: the given `eq`, or `===` (`indexOf`) without one. */
  function Matcher<T(==)>(item: T, eq: Option<(T, T) -> bool>): T -> bool
  {
    if eq.Some? then other => eq.value(other, item) else other => other == item
  }

  /** Without `eq`, `pushDistinct` finds an element exactly when it is already there. */
  lemma IndexOfFinds<T>(s: seq<T>, item: T)
    ensures FindIndex(s, Matcher(item, None)) >= 0 <==> item in s
  {
    var i := FindIndex(s, Matcher(item, None));
    if item in s {
      var j :| 0 <= j < |s| && s[j] == item;
      assert Matcher(item, None)(s[j]);
    }
  }

  /**
   * `pushDistinct(items, item, eq)`: appends `item` unless an element matches
   * it, and returns the position of the match or of the new element. (The
   * source also returns `items`, which is `a` itself.)
   */
  method PushDistinct<T(==)>(a: JsArray<T>, item: T, eq: Option<(T, T) -> bool>) returns (index: nat)
    modifies a
    ensures index < |a.items|
    ensures var found := FindIndex(old(a.items), Matcher(item, eq));
      if found >= 0 then index == found && a.items == old(a.items)
      else index == |old(a.items)| && a.items == old(a.items) + [item]
  {
    var found := FindIndex(a.items, Matcher(item, eq));
    if found < 0 {
      index := |a.items|;
      a.items := a.items + [item];
    } else {
      index := found;
    }
  }

  /**
   * What `upsert` does to the rows: the first row `eq` matches is replaced by
   * `Objects.merge(row, item)`; with no match, `item` is appended. The result
   * holds the new rows and the position written.
   */
  function UpsertRow(rows: seq<Fields>, item: Fields, eq: (Fields, Fields) -> bool): (r: Result<(seq<Fields>, nat)>)
    ensures r.Ok? ==>
      && r.value.1 < |r.value.0|
      && |rows| <= |r.value.0| <= |rows| + 1
      && (forall j :: 0 <= j < |rows| && j != r.value.1 ==> r.value.0[j] == rows[j])
    ensures r.Ok? && r.value.1 < |rows| ==>
      eq(rows[r.value.1], item) && Objects.Merge(rows[r.value.1], item) == Ok(r.value.0[r.value.1])
    ensures r.Ok? && r.value.1 == |rows| ==>
      r.value.0 == rows + [item] && forall j :: 0 <= j < |rows| ==> !eq(rows[j], item)
    ensures r.Err? ==> exists j :: 0 <= j < |rows| && eq(rows[j], item) && Objects.Merge(rows[j], item).Err?
  {
    var i := FindIndex(rows, other => eq(other, item));
    if i < 0 then Ok((rows + [item], |rows|))
    else
      var merged :- Objects.Merge(rows[i], item);
      Ok((rows[i := merged], i))
  }

  /** `upsert(items, item, eq)`: the array is updated in place; a failed merge leaves it as it was. */
  method Upsert(a: JsArray<Fields>, item: Fields, eq: (Fields, Fields) -> bool) returns (r: Result<nat>)
    modifies a
    ensures UpsertRow(old(a.items), item, eq).Ok? ==>
      r == Ok(UpsertRow(old(a.items), item, eq).value.1) && a.items == UpsertRow(old(a.items), item, eq).value.0
    ensures UpsertRow(old(a.items), item, eq).Err? ==>
      r == Err(UpsertRow(old(a.items), item, eq).error) && a.items == old(a.items)
  {
    var step := UpsertRow(a.items, item, eq);
    if step.Err? {
      return Err(step.error);
    }
    a.items := step.value.0;
    r := Ok(step.value.1);
  }

  /** The rows after upserting each of `items` in order. */
  function UpsertAll(rows: seq<Fields>, items: seq<Fields>, eq: (Fields, Fields) -> bool): Result<seq<Fields>>
    decreases |items|
  {
    if |items| == 0 then Ok(rows)
    else
      var step :- UpsertRow(rows, items[0], eq);
      UpsertAll(step.0, items[1..], eq)
  }

  /**
   * `merge(items1, items2, eq)`: upserts every element of `items2` into a copy
   * of `items1`; `items1` and its elements are not touched.
   */
  method Merge(items1: seq<Fields>, items2: seq<Fields>, eq: (Fields, Fields) -> bool) returns (r: Result<seq<Fields>>)
    ensures r == UpsertAll(items1, items2, eq)
  {
    var merged := new JsArray(items1);
    var i := 0;
    while i < |items2|
      invariant 0 <= i <= |items2|
      invariant UpsertAll(items1, items2, eq) == UpsertAll(merged.items, items2[i..], eq)
    {
      assert items2[i..][1..] == items2[i + 1..];
      var step := Upsert(merged, items2[i], eq);
      if step.Err? {
        return Err(step.error);
      }
      i := i + 1;
    }
    r := Ok(merged.items);
  }

  /** Every row before an upsert still has a row with its string or number identity after it. */
  lemma UpsertRowKeepsIdentities(rows: seq<Fields>, item: Fields, keyPath: string)
    requires UpsertRow(rows, item, SameField(keyPath)).Ok?
    ensures var r := UpsertRow(rows, item, SameField(keyPath)).value;
      && (Get(item, keyPath).Prim? ==> Get(r.0[r.1], keyPath) == Get(item, keyPath))
      && (forall j :: 0 <= j < |rows| && Get(rows[j], keyPath).Prim? ==> Get(r.0[j], keyPath) == Get(rows[j], keyPath))
  {
    var step := UpsertRow(rows, item, SameField(keyPath)).value;
    var i := step.1;
    if i < |rows| && Get(rows[i], keyPath).Prim? {
      Objects.MergeAt(rows[i], item, keyPath);
    }
  }

  /** The equality the normaliser upserts entities with: `a[keyPath] === b[keyPath]`. */
  function SameField(keyPath: string): (Fields, Fields) -> bool
  {
    (a: Fields, b: Fields) => Get(a, keyPath) == Get(b, keyPath)
  }

  /**
   * Upserting by an identity field loses no identity: every row and every
   * merged item whose identity is a string or a number has a row carrying that
   * identity afterwards.
   */
  lemma {:induction false} UpsertAllKeepsIdentities(rows: seq<Fields>, items: seq<Fields>, keyPath: string)
    requires UpsertAll(rows, items, SameField(keyPath)).Ok?
    ensures var r := UpsertAll(rows, items, SameField(keyPath)).value;
      && (forall j :: 0 <= j < |rows| && Get(rows[j], keyPath).Prim? ==>
            exists m :: 0 <= m < |r| && Get(r[m], keyPath) == Get(rows[j], keyPath))
      && (forall j :: 0 <= j < |items| && Get(items[j], keyPath).Prim? ==>
            exists m :: 0 <= m < |r| && Get(r[m], keyPath) == Get(items[j], keyPath))
    decreases |items|
  {
    var eq := SameField(keyPath);
    if |items| > 0 {
      var step := UpsertRow(rows, items[0], eq).value;
      UpsertRowKeepsIdentities(rows, items[0], keyPath);
      UpsertAllKeepsIdentities(step.0, items[1..], keyPath);
      var r := UpsertAll(rows, items, eq).value;
      assert r == UpsertAll(step.0, items[1..], eq).value;
      forall j | 0 <= j < |rows| && Get(rows[j], keyPath).Prim?
        ensures exists m :: 0 <= m < |r| && Get(r[m], keyPath) == Get(rows[j], keyPath)
      {
        assert Get(step.0[j], keyPath) == Get(rows[j], keyPath);
      }
      forall j | 0 <= j < |items| && Get(items[j], keyPath).Prim?
        ensures exists m :: 0 <= m < |r| && Get(r[m], keyPath) == Get(items[j], keyPath)
      {
        if j == 0 {
          assert Get(step.0[step.1], keyPath) == Get(items[0], keyPath);
        } else {
          assert items[j] == items[1..][j - 1];
        }
      }
    }
  }

  /** What `mergePrimitive` computes: each element of `items`, in order, unless already present. */
  function AppendDistinct<T(==)>(acc: seq<T>, items: seq<T>): seq<T>
  {
    if |items| == 0 then acc
    else
      var prefix := AppendDistinct(acc, items[..|items| - 1]);
      var x := items[|items| - 1];
      if x in prefix then prefix else prefix + [x]
  }

  /** `mergePrimitive(items1, items2)`: a copy of `items1` with the new elements of `items2` pushed. */
  method MergePrimitive<T(==)>(items1: seq<T>, items2: seq<T>) returns (merged: seq<T>)
    ensures merged == AppendDistinct(items1, items2)
  {
    var a := new JsArray(items1);
    for i := 0 to |items2|
      invariant a.items == AppendDistinct(items1, items2[..i])
    {
      assert items2[..i + 1][..i] == items2[..i];
      IndexOfFinds(a.items, items2[i]);
      var _ := PushDistinct(a, items2[i], None);
    }
    assert items2[..|items2|] == items2;
    merged := a.items;
  }

  predicate NoDuplicates<T(==)>(s: seq<T>)
  {
    forall i, j :: 0 <= i < j < |s| ==> s[i] != s[j]
  }

  /**
   * `mergePrimitive` keeps `items1` as a prefix, holds exactly the elements of
   * both arrays, and adds no duplicate.
   */
  lemma {:induction false} AppendDistinctSpec<T>(acc: seq<T>, items: seq<T>)
    ensures acc <= AppendDistinct(acc, items)
    ensures forall x :: x in AppendDistinct(acc, items) <==> x in acc || x in items
    ensures NoDuplicates(acc) ==> NoDuplicates(AppendDistinct(acc, items))
  {
    if |items| > 0 {
      var init := items[..|items| - 1];
      AppendDistinctSpec(acc, init);
      assert items == init + [items[|items| - 1]];
    }
  }
}
