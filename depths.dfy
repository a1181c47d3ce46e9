/*
 * The depth policy of traversals and denormalisers:
 * `Depth = number | { [prop]: Depth }`, or no depth at all.
 */
module Depths {

  datatype Depth =
    | Count(n: int)                       // a number of levels
    | PerProp(props: map<string, Depth>)  // a depth per relation property
    | Unbounded                           // `undefined`: follow everything

  /**
   * The next depth as `impl/tools.ts` and both denormalisers compute it:
   * `typeof depth === 'number' ? depth - 1 : depth?.[prop]`. A property the
   * mapping omits reads `undefined`, which is unbounded.
   */
  function Descend(depth: Depth, prop: string): Depth
  {
    match depth
    case Count(n) => Count(n - 1)
    case PerProp(props) => if prop in props then props[prop] else Unbounded
    case Unbounded => Unbounded
  }

  /** The depth reached after following the properties of `path` in turn. */
  function DescendAlong(depth: Depth, path: seq<string>): Depth
    decreases |path|
  {
    if |path| == 0 then depth else DescendAlong(Descend(depth, path[0]), path[1..])
  }

  /** A number drops by one per level, whatever the properties followed. */
  lemma {:induction false} CountAlong(n: int, path: seq<string>)
    ensures DescendAlong(Count(n), path) == Count(n - |path|)
    decreases |path|
  {
    if |path| > 0 {
      CountAlong(n - 1, path[1..]);
    }
  }

  /** No depth stays no depth. */
  lemma {:induction false} UnboundedAlong(path: seq<string>)
    ensures DescendAlong(Unbounded, path) == Unbounded
    decreases |path|
  {
    if |path| > 0 {
      UnboundedAlong(path[1..]);
    }
  }

  /** Once a mapping omits a property, everything below it is unbounded. */
  lemma OmittedAlong(props: map<string, Depth>, prop: string, path: seq<string>)
    requires prop !in props
    ensures DescendAlong(PerProp(props), [prop] + path) == Unbounded
  {
    assert ([prop] + path)[1..] == path;
    UnboundedAlong(path);
  }
}
