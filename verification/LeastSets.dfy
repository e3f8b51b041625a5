/** The least set that is closed under a rule, computed in rounds. */
module LeastSets {

  /** A rule: what follows from a set. */
  type Rule<!T> = (set<T>, T) -> bool

  /** Everything in `all` that follows from `n` alone, or already belongs to it. */
  function Round<T>(all: set<T>, rule: Rule<T>, n: set<T>): set<T> {
    n + set x | x in all && rule(n, x)
  }

  predicate Closed<T>(all: set<T>, rule: Rule<T>, n: set<T>) {
    forall x :: x in all && rule(n, x) ==> x in n
  }

  function Grow<T>(all: set<T>, rule: Rule<T>, n: set<T>): (r: set<T>)
    requires n <= all
    ensures n <= r <= all && Closed(all, rule, r)
    decreases |all - n|
  {
    var more := Round(all, rule, n);
    if more == n then n
    else
      assert all - more < all - n;
      Smaller(all - more, all - n);
      Grow(all, rule, more)
  }

  lemma Smaller<T>(a: set<T>, b: set<T>)
    requires a < b
    ensures |a| < |b|
  {
    assert b == a + (b - a) && b - a != {};
  }

  function Least<T>(all: set<T>, rule: Rule<T>): (r: set<T>)
    ensures r <= all && Closed(all, rule, r)
  {
    Grow(all, rule, {})
  }

  /** What the rule hands on from premises to conclusions. */
  ghost predicate Handed<T(!new)>(all: set<T>, rule: Rule<T>, holds: T -> bool) {
    forall n, x :: n <= all && x in all && rule(n, x) && (forall y :: y in n ==> holds(y)) ==> holds(x)
  }

  lemma {:induction false} GrowHolds<T(!new)>(all: set<T>, rule: Rule<T>, n: set<T>, holds: T -> bool)
    requires n <= all && Handed(all, rule, holds) && forall y :: y in n ==> holds(y)
    ensures forall y :: y in Grow(all, rule, n) ==> holds(y)
    decreases |all - n|
  {
    var more := Round(all, rule, n);
    if more != n {
      assert all - more < all - n;
      Smaller(all - more, all - n);
      GrowHolds(all, rule, more, holds);
    }
  }

  /** It holds throughout the least set. */
  lemma LeastHolds<T(!new)>(all: set<T>, rule: Rule<T>, holds: T -> bool)
    requires Handed(all, rule, holds)
    ensures forall y :: y in Least(all, rule) ==> holds(y)
  {
    GrowHolds(all, rule, {}, holds);
  }
}
