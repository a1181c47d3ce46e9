/*
 * `impl/denormalizer.ts`.
 *
 * `denormalizerFactory(schema).preload(tree, entities, load)` asks `load` for
 * the rows of every requested type and builds entity tables and key indexes
 * from them; `load` is a function parameter whose asynchrony is not modelled.
 *
 * `denormalizer(schema, data)(type, options)` gives `fromKey` and `fromKeys`,
 * which rebuild nested entities from identities under a depth policy. Their
 * recursion has no cycle guard: the model counts nesting levels with `fuel`
 * and reports `StackOverflow` when it runs out.
 */
module ImplDenormalizer {
  import opened Values
  import opened SchemaTypes
  import opened Depths
  import opened NormalizedTypes
  import Trees
  import Denormalizing

  /* ---------------- `[...keys].toSorted()` ---------------- */

  function DigitChar(d: nat): char
    requires d < 10
  {
    ('0' as int + d) as char
  }

  /** The decimal digits of `n`. */
  function Digits(n: nat): string
    decreases n
  {
    if n < 10 then [DigitChar(n)] else Digits(n / 10) + [DigitChar(n % 10)]
  }

  /** `String(key)`: what the default `sort` compares. */
  function KeyString(k: Key): string
  {
    match k
    case Str(s) => s
    case Num(n) => if n < 0 then "-" + Digits(-n) else Digits(n)
  }

  /** `a` sorts strictly before `b`: the first differing character decides, and a prefix comes first. */
  predicate Below(a: string, b: string)
    decreases |a|
  {
    |b| > 0 && (|a| == 0 || a[0] < b[0] || (a[0] == b[0] && Below(a[1..], b[1..])))
  }

  lemma {:induction false} BelowIrreflexive(a: string)
    ensures !Below(a, a)
    decreases |a|
  {
    if |a| > 0 {
      BelowIrreflexive(a[1..]);
    }
  }

  lemma {:induction false} BelowTransitive(a: string, b: string, c: string)
    requires Below(a, b) && Below(b, c)
    ensures Below(a, c)
    decreases |a|
  {
    if |a| > 0 && a[0] == b[0] && b[0] == c[0] {
      BelowTransitive(a[1..], b[1..], c[1..]);
    }
  }

  /** No identity sorts before an earlier one. */
  predicate Sorted(keys: seq<Key>)
  {
    forall i, j :: 0 <= i < j < |keys| ==> !Below(KeyString(keys[j]), KeyString(keys[i]))
  }

  /** Places `x` after every element that does not sort after it, which keeps equal strings in order. */
  function Insert(x: Key, sorted: seq<Key>): seq<Key>
  {
    if |sorted| == 0 then [x]
    else if Below(KeyString(x), KeyString(sorted[0])) then [x] + sorted
    else [sorted[0]] + Insert(x, sorted[1..])
  }

  /** `[...keys].toSorted()`: a stable sort by the string forms. */
  function SortKeys(keys: seq<Key>): seq<Key>
  {
    if |keys| == 0 then [] else Insert(keys[|keys| - 1], SortKeys(keys[..|keys| - 1]))
  }

  lemma {:induction false} InsertSpec(x: Key, sorted: seq<Key>)
    requires Sorted(sorted)
    ensures Sorted(Insert(x, sorted))
    ensures multiset(Insert(x, sorted)) == multiset(sorted) + multiset{x}
  {
    if |sorted| == 0 {
    } else if Below(KeyString(x), KeyString(sorted[0])) {
      var r := [x] + sorted;
      forall j | 1 <= j < |r|
        ensures !Below(KeyString(r[j]), KeyString(x))
      {
        if Below(KeyString(r[j]), KeyString(x)) {
          BelowTransitive(KeyString(r[j]), KeyString(x), KeyString(sorted[0]));
          if j == 1 {
            BelowIrreflexive(KeyString(sorted[0]));
          }
        }
      }
    } else {
      var rest := sorted[1..];
      assert Sorted(rest);
      InsertSpec(x, rest);
      var r := [sorted[0]] + Insert(x, rest);
      assert sorted == [sorted[0]] + rest;
      forall j | 1 <= j < |r|
        ensures !Below(KeyString(r[j]), KeyString(sorted[0]))
      {
        assert r[j] in multiset(Insert(x, rest));
        if r[j] != x {
          assert r[j] in rest;
        }
      }
    }
  }

  /** The keys `load` is called with are the requested ones, sorted. */
  lemma {:induction false} SortKeysSpec(keys: seq<Key>)
    ensures Sorted(SortKeys(keys))
    ensures multiset(SortKeys(keys)) == multiset(keys)
  {
    if |keys| > 0 {
      var init := keys[..|keys| - 1];
      SortKeysSpec(init);
      InsertSpec(keys[|keys| - 1], SortKeys(init));
      assert keys == init + [keys[|keys| - 1]];
    }
  }

  /* ---------------- `preload` ---------------- */

  /** Every row carries a string or number identity in its key field. */
  predicate Keyed(rows: seq<Fields>, keyPath: string)
  {
    forall i :: 0 <= i < |rows| ==> Get(rows[i], keyPath).Prim?
  }

  /** The Map `keyMap.set(key, index)` leaves after each row in turn. */
  function KeyIndex(rows: seq<Fields>, keyPath: string): map<Key, int>
    decreases |rows|
  {
    if |rows| == 0 then map[]
    else
      var key := Get(rows[|rows| - 1], keyPath);
      var before := KeyIndex(rows[..|rows| - 1], keyPath);
      if key.Prim? then before[key.key := |rows| - 1] else before
  }

  /** Row `i` is the last one whose key field holds `k`. */
  predicate LastMatch(rows: seq<Fields>, keyPath: string, k: Key, i: int)
  {
    0 <= i < |rows| && Get(rows[i], keyPath) == Prim(k) && forall j :: i < j < |rows| ==> Get(rows[j], keyPath) != Prim(k)
  }

  /** Each identity in the index sits at the last row carrying it. */
  lemma {:induction false} KeyIndexLast(rows: seq<Fields>, keyPath: string, k: Key)
    requires k in KeyIndex(rows, keyPath)
    ensures LastMatch(rows, keyPath, k, KeyIndex(rows, keyPath)[k])
    decreases |rows|
  {
    var n := |rows| - 1;
    var init := rows[..n];
    if Get(rows[n], keyPath) != Prim(k) {
      KeyIndexLast(init, keyPath, k);
      assert forall i :: 0 <= i < n ==> rows[i] == init[i];
    }
  }

  /** Every row with a string or number identity is in the index. */
  lemma {:induction false} KeyIndexCovers(rows: seq<Fields>, keyPath: string, i: nat)
    requires i < |rows| && Get(rows[i], keyPath).Prim?
    ensures Get(rows[i], keyPath).key in KeyIndex(rows, keyPath)
    decreases |rows|
  {
    var n := |rows| - 1;
    if i < n {
      assert rows[..n][i] == rows[i];
      KeyIndexCovers(rows[..n], keyPath, i);
    }
  }

  /**
   * One step of `preload`: the rows `load` returned for type `t` become its
   * table and `keyMap[t]` indexes them; no rows, no table. Reading the key
   * field of a type the schema lacks throws; an identity that is not a
   * string or a number is outside the declared types and reported as `BadKey`.
   */
  function AddTable(schema: Schema, data: ImplData, t: string, rows: seq<Fields>): Result<ImplData>
  {
    if |rows| == 0 then Ok(data)
    else if t !in schema then Err(TypeError)
    else if !Keyed(rows, schema[t].key) then Err(BadKey(t))
    else Ok(data.(keyMap := data.keyMap[t := KeyIndex(rows, schema[t].key)], entities := data.entities[t := rows]))
  }

  /** The data `preload` builds: one `AddTable` per requested type, in request order. */
  function Preloaded(schema: Schema, tree: Trees.Tree, wanted: seq<(string, seq<Key>)>, load: (string, seq<Key>) -> seq<Fields>): Result<ImplData>
    decreases |wanted|
  {
    if |wanted| == 0 then Ok(ImplData(tree, map[], map[]))
    else
      var before :- Preloaded(schema, tree, wanted[..|wanted| - 1], load);
      var last := wanted[|wanted| - 1];
      AddTable(schema, before, last.0, load(last.0, SortKeys(last.1)))
  }

  /** The tables and indexes agree: each type's index is built from its own rows. */
  predicate Indexed(schema: Schema, data: ImplData)
  {
    && data.keyMap.Keys == data.entities.Keys
    && forall t :: t in data.entities ==>
         t in schema && Keyed(data.entities[t], schema[t].key) && data.keyMap[t] == KeyIndex(data.entities[t], schema[t].key)
  }

  /** A type is rejected when it has rows but no schema, or a row without a string or number identity. */
  predicate Rejects(schema: Schema, t: string, rows: seq<Fields>)
  {
    |rows| > 0 && (t !in schema || !Keyed(rows, schema[t].key))
  }

  /** The table of a requested type is the rows `load` returned for its sorted keys, or absent when there are none. */
  predicate Serves(request: (string, seq<Key>), load: (string, seq<Key>) -> seq<Fields>, entities: Tables)
  {
    var rows := load(request.0, SortKeys(request.1));
    if |rows| == 0 then request.0 !in entities else request.0 in entities && entities[request.0] == rows
  }

  /** `preload` fails exactly when some requested type is rejected. */
  lemma {:induction false} PreloadedFailure(schema: Schema, tree: Trees.Tree, wanted: seq<(string, seq<Key>)>, load: (string, seq<Key>) -> seq<Fields>)
    ensures Preloaded(schema, tree, wanted, load).Err? <==>
      exists i :: 0 <= i < |wanted| && Rejects(schema, wanted[i].0, load(wanted[i].0, SortKeys(wanted[i].1)))
    decreases |wanted|
  {
    if |wanted| > 0 {
      var n := |wanted| - 1;
      var init := wanted[..n];
      PreloadedFailure(schema, tree, init, load);
      assert forall i :: 0 <= i < n ==> wanted[i] == init[i];
    }
  }

  /** A successful `preload` passes the tree through and builds each index from its own table. */
  lemma {:induction false} PreloadedIndexed(schema: Schema, tree: Trees.Tree, wanted: seq<(string, seq<Key>)>, load: (string, seq<Key>) -> seq<Fields>)
    requires Preloaded(schema, tree, wanted, load).Ok?
    ensures var data := Preloaded(schema, tree, wanted, load).value;
      data.tree == tree && Indexed(schema, data) && data.entities.Keys <= Names(wanted)
    decreases |wanted|
  {
    if |wanted| > 0 {
      var n := |wanted| - 1;
      var init := wanted[..n];
      PreloadedIndexed(schema, tree, init, load);
      var before := Preloaded(schema, tree, init, load).value;
      AddTableIndexed(schema, before, wanted[n].0, load(wanted[n].0, SortKeys(wanted[n].1)));
      assert forall i :: 0 <= i < n ==> wanted[i] == init[i];
      assert Names(wanted) == Names(init) + {wanted[n].0};
    }
  }

  /**
   * What a successful `preload` promises: each requested type is served the
   * rows `load` returned for its sorted keys, and no other type gets a table.
   */
  lemma {:induction false} PreloadedServes(schema: Schema, tree: Trees.Tree, wanted: seq<(string, seq<Key>)>, load: (string, seq<Key>) -> seq<Fields>)
    requires DistinctNames(wanted)
    requires Preloaded(schema, tree, wanted, load).Ok?
    ensures var data := Preloaded(schema, tree, wanted, load).value;
      forall i :: 0 <= i < |wanted| ==> Serves(wanted[i], load, data.entities)
    decreases |wanted|
  {
    if |wanted| > 0 {
      var n := |wanted| - 1;
      var init := wanted[..n];
      assert forall i :: 0 <= i < n ==> wanted[i] == init[i];
      assert DistinctNames(init);
      PreloadedServes(schema, tree, init, load);
      PreloadedIndexed(schema, tree, init, load);
      var before := Preloaded(schema, tree, init, load).value;
      var t := wanted[n].0;
      var rows := load(t, SortKeys(wanted[n].1));
      AddTableIndexed(schema, before, t, rows);
      NotNamedBefore(wanted, n);
      assert wanted == init + [wanted[n]];
      ServesAfterAdd(init, wanted[n], load, before.entities, Preloaded(schema, tree, wanted, load).value.entities);
    }
  }

  /** Serving one more request, under a new name, keeps the earlier ones served. */
  lemma ServesAfterAdd(init: seq<(string, seq<Key>)>, request: (string, seq<Key>), load: (string, seq<Key>) -> seq<Fields>, before: Tables, after: Tables)
    requires forall i :: 0 <= i < |init| ==> Serves(init[i], load, before)
    requires request.0 !in Names(init) && request.0 !in before
    requires var rows := load(request.0, SortKeys(request.1));
      after == if |rows| == 0 then before else before[request.0 := rows]
    ensures forall i :: 0 <= i < |init| + 1 ==> Serves((init + [request])[i], load, after)
  {
    forall i | 0 <= i < |init| + 1
      ensures Serves((init + [request])[i], load, after)
    {
      if i < |init| {
        assert init[i].0 in Names(init);
        assert Serves(init[i], load, before);
      }
    }
  }

  /** Adding a table keeps tables and indexes in agreement and touches only that type. */
  lemma AddTableIndexed(schema: Schema, data: ImplData, t: string, rows: seq<Fields>)
    requires Indexed(schema, data)
    requires AddTable(schema, data, t, rows).Ok?
    ensures var after := AddTable(schema, data, t, rows).value;
      && Indexed(schema, after)
      && after.tree == data.tree
      && after.entities == if |rows| == 0 then data.entities else data.entities[t := rows]
  {
  }

  /** One more row: the prefix grows by it, the index records it at its position. */
  lemma AddRowStep(rows: seq<Fields>, keyPath: string, j: nat)
    requires j < |rows| && Get(rows[j], keyPath).Prim?
    ensures rows[..j + 1] == rows[..j] + [rows[j]]
    ensures KeyIndex(rows[..j + 1], keyPath) == KeyIndex(rows[..j], keyPath)[Get(rows[j], keyPath).key := j]
    ensures Keyed(rows[..j], keyPath) ==> Keyed(rows[..j + 1], keyPath)
  {
    assert rows[..j + 1][..j] == rows[..j];
  }

  /** The inner loop of `preload`: the rows of one type pushed and indexed one at a time. */
  method AddRows(schema: Schema, data: ImplData, t: string, rows: seq<Fields>) returns (r: Result<ImplData>)
    ensures r == AddTable(schema, data, t, rows)
  {
    if |rows| == 0 {
      return Ok(data);
    }
    if t !in schema {
      return Err(TypeError);  // the first row's `schema[type].key`
    }
    var keyPath := schema[t].key;
    // The Map and the array the first row creates are stored in `data` and
    // then updated in place; `index` and `table` stand for them. The first
    // row's `new Map([[key, 0]])` and `[item]` are the general step from empty.
    var index: map<Key, int> := map[];
    var table: seq<Fields> := [];
    for j := 0 to |rows|
      invariant Keyed(rows[..j], keyPath)
      invariant index == KeyIndex(rows[..j], keyPath)
      invariant table == rows[..j]
    {
      var key := Get(rows[j], keyPath);
      if !key.Prim? {
        return Err(BadKey(t));
      }
      AddRowStep(rows, keyPath, j);
      index := index[key.key := |table|];
      table := table + [rows[j]];
    }
    assert rows[..|rows|] == rows;
    r := Ok(data.(keyMap := data.keyMap[t := index], entities := data.entities[t := table]));
  }

  /**
   * `preload(tree, entities, load)`, for the `Map` of requested types and
   * their keys given as its entries in order (so each type once).
   */
  method Preload(schema: Schema, tree: Trees.Tree, wanted: seq<(string, seq<Key>)>, load: (string, seq<Key>) -> seq<Fields>)
    returns (r: Result<ImplData>)
    requires DistinctNames(wanted)
    ensures r == Preloaded(schema, tree, wanted, load)
  {
    var data := ImplData(tree, map[], map[]);
    for i := 0 to |wanted|
      invariant Preloaded(schema, tree, wanted[..i], load) == Ok(data)
    {
      PreloadedStep(schema, tree, wanted, load, i);
      r := AddRows(schema, data, wanted[i].0, load(wanted[i].0, SortKeys(wanted[i].1)));
      if r.Err? {
        PreloadedFails(schema, tree, wanted, load, i + 1);
        return;
      }
      data := r.value;
    }
    assert wanted[..|wanted|] == wanted;
    r := Ok(data);
  }

  /** `preload` handles the requests one after the other. */
  lemma PreloadedStep(schema: Schema, tree: Trees.Tree, wanted: seq<(string, seq<Key>)>, load: (string, seq<Key>) -> seq<Fields>, i: nat)
    requires i < |wanted|
    ensures var before := Preloaded(schema, tree, wanted[..i], load);
      Preloaded(schema, tree, wanted[..i + 1], load) ==
        if before.Err? then before else AddTable(schema, before.value, wanted[i].0, load(wanted[i].0, SortKeys(wanted[i].1)))
  {
    assert wanted[..i + 1][..i] == wanted[..i];
  }

  /** With distinct names, no entry before the `i`-th carries its name. */
  lemma NotNamedBefore<T>(entries: seq<(string, T)>, i: nat)
    requires DistinctNames(entries) && i < |entries|
    ensures entries[i].0 !in Names(entries[..i])
  {
    assert forall j :: 0 <= j < i ==> entries[..i][j] == entries[j];
  }

  /** Once a prefix of the requests fails, `preload` fails with that error. */
  lemma {:induction false} PreloadedFails(schema: Schema, tree: Trees.Tree, wanted: seq<(string, seq<Key>)>, load: (string, seq<Key>) -> seq<Fields>, i: nat)
    requires i <= |wanted|
    requires Preloaded(schema, tree, wanted[..i], load).Err?
    ensures Preloaded(schema, tree, wanted, load) == Preloaded(schema, tree, wanted[..i], load)
    decreases |wanted| - i
  {
    if i < |wanted| {
      assert wanted[..i + 1][..i] == wanted[..i];
      PreloadedFails(schema, tree, wanted, load, i + 1);
    } else {
      assert wanted[..i] == wanted;
    }
  }
  /* ---------------- `denormalizer(schema, data, defaults)` ---------------- */

  /** What this generation's closures read: a missing table has no rows. */
  function ContextOf(schema: Schema, data: ImplData, deleteRefs: bool): Denormalizing.Context
  {
    Denormalizing.Context(schema, data.keyMap, data.entities, false, deleteRefs)
  }

  /** The index `preload` builds is consistent with its tables. */
  lemma IndexedConsistent(schema: Schema, data: ImplData, deleteRefs: bool)
    requires Indexed(schema, data)
    ensures Denormalizing.Consistent(ContextOf(schema, data, deleteRefs))
  {
    forall t, k | t in data.keyMap && k in data.keyMap[t]
      ensures data.keyMap[t][k] >= 0 ==>
        data.keyMap[t][k] < |data.entities[t]| && Get(data.entities[t][data.keyMap[t][k]], schema[t].key) == Prim(k)
    {
      KeyIndexLast(data.entities[t], schema[t].key, k);
    }
  }

  /**
   * On `preload` output the index only speeds the search up: an identity is
   * found exactly when some row carries it, and then at the last such row.
   */
  lemma LocateIndexed(schema: Schema, data: ImplData, deleteRefs: bool, t: string, k: Key)
    requires Indexed(schema, data) && t in data.entities
    ensures var rows := data.entities[t];
      var found := Denormalizing.Locate(ContextOf(schema, data, deleteRefs), t, schema[t].key, Prim(k));
      && found.Ok?
      && (found.value.Some? <==> exists i :: 0 <= i < |rows| && Get(rows[i], schema[t].key) == Prim(k))
      && (found.value.Some? ==> exists i :: LastMatch(rows, schema[t].key, k, i) && found.value.value == rows[i])
  {
    var rows := data.entities[t];
    var keyPath := schema[t].key;
    if k in KeyIndex(rows, keyPath) {
      KeyIndexLast(rows, keyPath, k);
    } else {
      forall i | 0 <= i < |rows|
        ensures Get(rows[i], keyPath) != Prim(k)
      {
        if Get(rows[i], keyPath) == Prim(k) {
          KeyIndexCovers(rows, keyPath, i);
        }
      }
    }
  }
}
