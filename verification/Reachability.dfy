/** What can be reached from some roots along a relation. */
module Reachability {
  ghost predicate ReachedIn<T(!new)>(roots: seq<T>, next: (T, T) -> bool, a: T, steps: nat)
    decreases steps
  {
    if steps == 0 then a in roots
    else exists b: T :: ReachedIn(roots, next, b, steps - 1) && next(b, a)
  }

  ghost predicate ReachedFrom<T(!new)>(roots: seq<T>, next: (T, T) -> bool, a: T) {
    exists steps: nat :: ReachedIn(roots, next, a, steps)
  }

  lemma RootReached<T(!new)>(roots: seq<T>, next: (T, T) -> bool, a: T)
    requires a in roots
    ensures ReachedFrom(roots, next, a)
  {
    assert ReachedIn(roots, next, a, 0);
  }

  lemma NextReached<T(!new)>(roots: seq<T>, next: (T, T) -> bool, a: T, b: T)
    requires ReachedFrom(roots, next, a) && next(a, b)
    ensures ReachedFrom(roots, next, b)
  {
    var steps: nat :| ReachedIn(roots, next, a, steps);
    assert ReachedIn(roots, next, b, steps + 1);
  }

  lemma {:induction false} MoreRootsIn<T(!new)>(roots: seq<T>, more: seq<T>, next: (T, T) -> bool, a: T, steps: nat)
    requires ReachedIn(roots, next, a, steps)
    ensures ReachedIn(roots + more, next, a, steps)
    decreases steps
  {
    if steps > 0 {
      var b: T :| ReachedIn(roots, next, b, steps - 1) && next(b, a);
      MoreRootsIn(roots, more, next, b, steps - 1);
    }
  }

  lemma MoreRootsReach<T(!new)>(roots: seq<T>, more: seq<T>, next: (T, T) -> bool, a: T)
    requires ReachedFrom(roots, next, a)
    ensures ReachedFrom(roots + more, next, a)
  {
    var steps: nat :| ReachedIn(roots, next, a, steps);
    MoreRootsIn(roots, more, next, a, steps);
  }

  /** A property of the roots that the relation hands on holds of all that is reached. */
  lemma {:induction false} HandedOn<T(!new)>(roots: seq<T>, next: (T, T) -> bool, holds: T -> bool, a: T, steps: nat)
    requires forall x :: x in roots ==> holds(x)
    requires forall x, y :: ReachedFrom(roots, next, x) && holds(x) && next(x, y) ==> holds(y)
    requires ReachedIn(roots, next, a, steps)
    ensures holds(a)
    decreases steps
  {
    if steps > 0 {
      var b: T :| ReachedIn(roots, next, b, steps - 1) && next(b, a);
      HandedOn(roots, next, holds, b, steps - 1);
    }
  }

  lemma {:induction false} NothingReached<T(!new)>(next: (T, T) -> bool, a: T, steps: nat)
    ensures !ReachedIn([], next, a, steps)
    decreases steps
  {
    if steps > 0 {
      var before: nat := steps - 1;
      forall b: T ensures !ReachedIn([], next, b, before) {
        NothingReached(next, b, before);
      }
    }
  }
}
