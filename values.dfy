/*
 * JavaScript values as the normaliser sees them.
 *
 * Entities are plain objects; an identity is a string or a number; the only
 * other objects the engine distinguishes are arrays, Sets of identities and
 * the "leaf" objects (Date, Blob) that a deep merge does not descend into.
 */
module Values {

  datatype Option<+T> = None | Some(value: T)

  /** An identity: JavaScript `string | number` (numbers are taken as integers). */
  datatype Key = Str(s: string) | Num(n: int)

  datatype Value =
    | Undefined
    | Null
    | Bool(b: bool)
    | Prim(key: Key)             // a string or a number
    | Opaque(id: nat)            // a Date or a Blob: an object merge does not enter
    | Arr(items: seq<Value>)
    | Obj(fields: map<string, Value>)
    | KeySet(keys: set<Key>)     // a JavaScript Set of identities

  /** The own enumerable properties of a plain object. */
  type Fields = map<string, Value>

  /** What the engine reports instead of throwing; messages are not modelled. */
  datatype Error =
    | MissingConfig(name: string)           // a referenced type has no (truthy) config
    | MissingKeyPath(name: string)          // no key path after inheritance
    | MissingTargetConfig(prop: string)     // a falsy target config
    | CyclicParents(name: string)           // a parent chain that never ends
    | MissingKey(typeName: string)          // no identity and no key callback
    | BadKey(typeName: string)              // an identity that is neither string nor number
    | ShapeMismatch(typeName: string, prop: string)
    | UnknownType(typeName: string)         // `schema[type]` is undefined
    | NotFound(typeName: string, key: Value)
    | MissingSchema(typeName: string)
    | MissingData(typeName: string)
    | MissingTarget(typeName: string, prop: string)
    | TypeError                             // a TypeError thrown by the runtime
    | StackOverflow                         // recursion deeper than the fuel given: a RangeError

  datatype Result<+T> = Ok(value: T) | Err(error: Error)
  {
    predicate IsFailure() { Err? }

    function PropagateFailure<U>(): Result<U>
      requires Err?
    {
      Err(error)
    }

    function Extract(): T
      requires Ok?
    {
      value
    }
  }

  /** `v === undefined || v === null` */
  predicate IsNullish(v: Value)
  {
    v.Undefined? || v.Null?
  }

  /** `Array.isArray(v) && v.length === 0` */
  predicate IsEmptyArray(v: Value)
  {
    v.Arr? && |v.items| == 0
  }

  /** The values a merge treats as "nothing there yet": nullish or an empty array. */
  predicate IsBlank(v: Value)
  {
    IsNullish(v) || IsEmptyArray(v)
  }

  /**
   * `a === b`. Primitives compare by value; objects by reference, and the
   * model never gives two places the same object, so an object equals nothing.
   */
  predicate StrictEquals(a: Value, b: Value)
  {
    a == b && (a.Undefined? || a.Null? || a.Bool? || a.Prim?)
  }

  /** JavaScript truthiness. */
  predicate IsTruthy(v: Value)
  {
    match v
    case Undefined => false
    case Null => false
    case Bool(b) => b
    case Prim(k) => k != Num(0) && k != Str("")
    case _ => true
  }

  /** `property in object ? object[property] : undefined` */
  function Get(fields: Fields, property: string): Value
  {
    if property in fields then fields[property] else Undefined
  }

  /** The decimal digit `d`. */
  function Digit(d: nat): char
    requires d < 10
  {
    ('0' as int + d) as char
  }

  /** `String(i)` for an index `i`: its decimal digits, without leading zeros. */
  function IndexName(i: nat): (s: string)
    ensures 0 < |s| && '0' <= s[0] <= '9'
    ensures i < 10 <==> |s| == 1
  {
    if i < 10 then [Digit(i)] else IndexName(i / 10) + [Digit(i % 10)]
  }

  /** Distinct indices have distinct names. */
  lemma {:induction false} IndexNameInjective(i: nat, j: nat)
    requires IndexName(i) == IndexName(j)
    ensures i == j
    decreases i
  {
    var a, b := IndexName(i), IndexName(j);
    if 10 <= i {
      assert a[..|a| - 1] == IndexName(i / 10) && a[|a| - 1] == Digit(i % 10);
      assert b[..|b| - 1] == IndexName(j / 10) && b[|b| - 1] == Digit(j % 10);
      IndexNameInjective(i / 10, j / 10);
    }
  }

  /** The properties `"0"`, `"1"`, ... of the elements of an array (or the characters of a string). */
  function Indices(s: seq<Value>): (r: Fields)
    ensures forall i :: 0 <= i < |s| ==> IndexName(i) in r && r[IndexName(i)] == s[i]
    ensures forall p :: p in r ==> exists i :: 0 <= i < |s| && p == IndexName(i) && r[p] == s[i]
  {
    assert forall i: nat, j: nat :: IndexName(i) == IndexName(j) ==> i == j by {
      forall i: nat, j: nat | IndexName(i) == IndexName(j)
        ensures i == j
      {
        IndexNameInjective(i, j);
      }
    }
    map i | 0 <= i < |s| :: IndexName(i) := s[i]
  }

  /** The characters of a string, each a one-character string. */
  function Chars(s: string): (r: seq<Value>)
    ensures |r| == |s| && forall i :: 0 <= i < |s| ==> r[i] == Prim(Str([s[i]]))
  {
    seq(|s|, i requires 0 <= i < |s| => Prim(Str([s[i]])))
  }

  /**
   * The own enumerable properties `Object.keys` and the spread operator see:
   * a plain object's fields, the indices of an array or of a string, and
   * none for any other value (numbers, booleans, Dates, Blobs and Sets).
   */
  function Spread(v: Value): Fields
  {
    match v
    case Obj(m) => m
    case Arr(s) => Indices(s)
    case Prim(Str(s)) => Indices(Chars(s))
    case _ => map[]
  }

  /** A value with indices and a `length`: an array or a string. */
  predicate Indexable(v: Value)
  {
    v.Arr? || (v.Prim? && v.key.Str?)
  }

  /**
   * `v[name]` on a value that is not nullish: an own property, or the
   * `length` of an array or a string. Properties inherited from a prototype
   * (methods, a Set's `size`) are not modelled.
   */
  function Property(v: Value, name: string): (r: Value)
    ensures v.Obj? ==> r == Get(v.fields, name)
    ensures !v.Obj? && !Indexable(v) ==> r == Undefined
    ensures v.Arr? && name == "length" ==> r == Prim(Num(|v.items|))
    ensures v.Prim? && v.key.Str? && name == "length" ==> r == Prim(Num(|v.key.s|))
  {
    if name == "length" && v.Arr? then Prim(Num(|v.items|))
    else if name == "length" && v.Prim? && v.key.Str? then Prim(Num(|v.key.s|))
    else Get(Spread(v), name)
  }

  /** Any other property of an array or a string is an index, naming an element or a character. */
  lemma PropertyIndex(v: Value, name: string)
    requires Indexable(v) && name != "length" && !IsNullish(Property(v, name))
    ensures v.Arr? ==> exists i :: 0 <= i < |v.items| && name == IndexName(i) && Property(v, name) == v.items[i]
    ensures v.Prim? ==> exists i :: 0 <= i < |v.key.s| && name == IndexName(i) && Property(v, name) == Prim(Str([v.key.s[i]]))
  {
  }

  /** A property name a string or an array answers: `length` or an index. */
  ghost predicate IndexLike(name: string)
  {
    name == "length" || exists i: nat :: IndexName(i) == name
  }

  /**
   * Reading a property agrees with the copy `{ ...v }` except for `length`,
   * which no copy has; a value other than an object answers only
   * `length` and indices, and only when it is an array or a string.
   */
  lemma PropertySpread(v: Value, name: string)
    ensures name in Spread(v) ==> Property(v, name) == Spread(v)[name]
    ensures name != "length" || v.Obj? ==> Property(v, name) == Get(Spread(v), name)
    ensures !v.Obj? && !IsNullish(Property(v, name)) ==> Indexable(v) && IndexLike(name)
  {
    if name in Spread(v) && !v.Obj? && Indexable(v) {
      assert name != "length" by {
        var i :| name == IndexName(i);
        assert name[0] != 'l';
      }
    }
  }

  /** The identity carried by a value, when it is a string or a number. */
  function AsKey(v: Value): Option<Key>
  {
    if v.Prim? then Some(v.key) else None
  }

  /** JavaScript property keys are strings: `obj[undefined]` reads the property "undefined". */
  function PropertyName(name: Option<string>): string
  {
    if name.Some? then name.value else "undefined"
  }

  /** Ordered string-keyed entries, as `Object.entries` yields them. */
  predicate DistinctNames<T>(entries: seq<(string, T)>)
  {
    forall i, j :: 0 <= i < j < |entries| ==> entries[i].0 != entries[j].0
  }

  /** The position of the first entry named `name`, or the length when there is none. */
  function IndexOfName<T>(entries: seq<(string, T)>, name: string): (i: nat)
    ensures i <= |entries|
    ensures i < |entries| ==> entries[i].0 == name
    ensures forall j :: 0 <= j < i ==> entries[j].0 != name
  {
    if |entries| == 0 || entries[0].0 == name then 0
    else
      var i := IndexOfName(entries[1..], name);
      assert forall j :: 1 <= j < |entries| ==> entries[j] == entries[1..][j - 1];
      i + 1
  }

  /** The entry for `name` in an ordered list of entries. */
  function Lookup<T>(entries: seq<(string, T)>, name: string): (r: Option<T>)
    ensures r.Some? <==> exists i :: 0 <= i < |entries| && entries[i].0 == name
    ensures r.Some? && DistinctNames(entries) ==>
      forall i :: 0 <= i < |entries| && entries[i].0 == name ==> entries[i].1 == r.value
  {
    var i := IndexOfName(entries, name);
    if i < |entries| then Some(entries[i].1) else None
  }

  /** The names of ordered entries. */
  function Names<T>(entries: seq<(string, T)>): set<string>
  {
    set i | 0 <= i < |entries| :: entries[i].0
  }

  /** The names of non-empty entries are the first one's and the rest's; distinct names stay distinct. */
  lemma NamesTail<T>(entries: seq<(string, T)>)
    requires |entries| > 0
    ensures Names(entries) == {entries[0].0} + Names(entries[1..])
    ensures DistinctNames(entries) ==> DistinctNames(entries[1..]) && entries[0].0 !in Names(entries[1..])
  {
    assert forall i :: 1 <= i < |entries| ==> entries[i] == entries[1..][i - 1];
  }

  /**
   * `record[name] = v` on an ordered record: an existing entry keeps its
   * position, a new one goes last.
   */
  function Put<T>(entries: seq<(string, T)>, name: string, v: T): (r: seq<(string, T)>)
    ensures |entries| <= |r| && forall i :: 0 <= i < |entries| ==> r[i].0 == entries[i].0
  {
    var i := IndexOfName(entries, name);
    if i < |entries| then entries[i := (name, v)] else entries + [(name, v)]
  }

  /** After `record[name] = v`, `name` reads `v` and every other name reads as before. */
  lemma PutSpec<T>(entries: seq<(string, T)>, name: string, v: T)
    ensures Lookup(Put(entries, name, v), name) == Some(v)
    ensures forall n :: n != name ==> Lookup(Put(entries, name, v), n) == Lookup(entries, n)
    ensures Names(Put(entries, name, v)) == Names(entries) + {name}
    ensures DistinctNames(entries) ==> DistinctNames(Put(entries, name, v))
  {
    var r := Put(entries, name, v);
    var i := IndexOfName(entries, name);
    assert IndexOfName(r, name) == i;
    forall n | n != name
      ensures Lookup(r, n) == Lookup(entries, n)
    {
      var k := IndexOfName(entries, n);
      if k < |entries| {
        assert IndexOfName(r, n) == k;
      } else {
        assert forall j :: 0 <= j < |r| ==> r[j].0 != n;
      }
    }
    assert Names(r) == Names(entries) + {name} by {
      assert r[i].0 == name;
      forall x | x in Names(entries)
        ensures x in Names(r)
      {
        var j :| 0 <= j < |entries| && entries[j].0 == x;
        assert r[j].0 == x;
      }
    }
  }

  /** `{...base, ...over}` on ordered records. */
  function Assign<T>(base: seq<(string, T)>, over: seq<(string, T)>): (r: seq<(string, T)>)
    ensures |base| <= |r| && forall i :: 0 <= i < |base| ==> r[i].0 == base[i].0
    decreases |over|
  {
    if |over| == 0 then base
    else Assign(Put(base, over[0].0, over[0].1), over[1..])
  }

  /**
   * In `{...base, ...over}` an entry of `over` wins and the others come from
   * `base`; the names are those of both, each once when `base`'s are distinct.
   */
  lemma {:induction false} AssignSpec<T>(base: seq<(string, T)>, over: seq<(string, T)>)
    requires DistinctNames(over)
    ensures forall n :: Lookup(Assign(base, over), n) == if Lookup(over, n).Some? then Lookup(over, n) else Lookup(base, n)
    ensures Names(Assign(base, over)) == Names(base) + Names(over)
    ensures DistinctNames(base) ==> DistinctNames(Assign(base, over))
    decreases |over|
  {
    if |over| > 0 {
      var rest := over[1..];
      assert forall i :: 1 <= i < |over| ==> over[i] == rest[i - 1];
      assert Names(over) == {over[0].0} + Names(rest);
      assert DistinctNames(rest);
      var next := Put(base, over[0].0, over[0].1);
      PutSpec(base, over[0].0, over[0].1);
      AssignSpec(next, rest);
      assert Lookup(rest, over[0].0).None?;
    }
  }
}
