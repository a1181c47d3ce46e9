/*
 * Reachability along the relations of a normalised tree, used to state what
 * the key-collecting traversals return.
 */
module Graphs {

  /** `v` can be reached from `roots` in at most `n` steps along `edge`. */
  ghost predicate ReachableIn<T(!new)>(edge: (T, T) -> bool, roots: set<T>, v: T, n: nat)
    decreases n
  {
    v in roots || (n > 0 && exists u :: ReachableIn(edge, roots, u, n - 1) && edge(u, v))
  }

  ghost predicate Reachable<T(!new)>(edge: (T, T) -> bool, roots: set<T>, v: T)
  {
    exists n: nat :: ReachableIn(edge, roots, v, n)
  }

  /** A bound that suffices still suffices when raised. */
  lemma {:induction false} ReachableInMonotone<T(!new)>(edge: (T, T) -> bool, roots: set<T>, v: T, n: nat, m: nat)
    requires n <= m
    requires ReachableIn(edge, roots, v, n)
    ensures ReachableIn(edge, roots, v, m)
    decreases n
  {
    if v !in roots {
      var u :| ReachableIn(edge, roots, u, n - 1) && edge(u, v);
      ReachableInMonotone(edge, roots, u, n - 1, m - 1);
    }
  }

  /** One more step along an edge. */
  lemma ReachableStep<T(!new)>(edge: (T, T) -> bool, roots: set<T>, u: T, v: T, n: nat)
    requires ReachableIn(edge, roots, u, n)
    requires edge(u, v)
    ensures ReachableIn(edge, roots, v, n + 1)
  {
  }

  /** A set that holds the roots and is closed under the edges holds everything reachable. */
  lemma ClosedHoldsReachable<T(!new)>(edge: (T, T) -> bool, roots: set<T>, s: set<T>)
    requires roots <= s
    requires forall u, v :: u in s && edge(u, v) ==> v in s
    ensures forall v :: Reachable(edge, roots, v) ==> v in s
  {
    forall v | Reachable(edge, roots, v)
      ensures v in s
    {
      var n: nat :| ReachableIn(edge, roots, v, n);
      ClosedHoldsReachableIn(edge, roots, s, v, n);
    }
  }

  lemma {:induction false} ClosedHoldsReachableIn<T(!new)>(edge: (T, T) -> bool, roots: set<T>, s: set<T>, v: T, n: nat)
    requires roots <= s
    requires forall u, v :: u in s && edge(u, v) ==> v in s
    requires ReachableIn(edge, roots, v, n)
    ensures v in s
    decreases n
  {
    if v !in roots {
      var u :| ReachableIn(edge, roots, u, n - 1) && edge(u, v);
      ClosedHoldsReachableIn(edge, roots, s, u, n - 1);
    }
  }
}
