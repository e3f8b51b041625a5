/** Permutations of the first numbers, as sequences. */
module Permutations {

  /** The array names each place once. */
  predicate IsPerm(arr: seq<nat>) {
    (forall j :: 0 <= j < |arr| ==> arr[j] < |arr|) && forall j, k :: 0 <= j < k < |arr| ==> arr[j] != arr[k]
  }

  /** Every place is named. */
  lemma {:induction false} Named(arr: seq<nat>, v: nat) returns (j: nat)
    requires IsPerm(arr) && v < |arr|
    ensures j < |arr| && arr[j] == v
  {
    if forall i :: 0 <= i < |arr| ==> arr[i] != v {
      var s := set i | 0 <= i < |arr| :: arr[i];
      Values(arr, |arr|);
      Numbers(|arr|);
      assert s <= UpTo(|arr|) - {v};
      Subset(s, UpTo(|arr|) - {v});
      assert false;
    }
    j :| j < |arr| && arr[j] == v;
  }

  lemma {:induction false} Values(arr: seq<nat>, n: nat)
    requires IsPerm(arr) && n <= |arr|
    ensures |set i | 0 <= i < n :: arr[i]| == n
  {
    if n > 0 {
      Values(arr, n - 1);
      assert (set i | 0 <= i < n :: arr[i]) == (set i | 0 <= i < n - 1 :: arr[i]) + {arr[n - 1]};
    }
  }

  function UpTo(n: nat): set<nat> {
    if n == 0 then {} else UpTo(n - 1) + {n - 1}
  }

  lemma {:induction false} Numbers(n: nat)
    ensures |UpTo(n)| == n && forall i: nat :: i in UpTo(n) <==> i < n
  {
    if n > 0 { Numbers(n - 1); }
  }

  lemma {:induction false} Subset(a: set<nat>, b: set<nat>)
    requires a <= b
    ensures |a| <= |b|
  {
    if a != {} {
      var x :| x in a;
      Subset(a - {x}, b - {x});
    }
  }

  /** What is taken through a permutation is the same elements. */
  function Through<T>(a: seq<T>, v: seq<nat>): (r: seq<T>)
    requires |v| == |a| && forall i :: 0 <= i < |v| ==> v[i] < |a|
    ensures |r| == |a| && forall i :: 0 <= i < |a| ==> r[i] == a[v[i]]
  {
    seq(|a|, i requires 0 <= i < |a| => a[v[i]])
  }

  lemma {:induction false} ThroughSame<T>(a: seq<T>, v: seq<nat>)
    requires IsPerm(v) && |v| == |a|
    ensures multiset(Through(a, v)) == multiset(a)
  {
    var n := |a|;
    if n == 0 {
      assert Through(a, v) == a;
    } else {
      var j := Named(v, n - 1);
      var w, b := v[j := v[n - 1]][..n - 1], a[..n - 1];
      ThroughSame(b, w);
      LastFirst(a, v, j);
      assert a == b + [a[n - 1]];
    }
  }

  /** The place that leads to the last element changes places with the last one. */
  lemma LastFirst<T>(a: seq<T>, v: seq<nat>, j: nat)
    requires IsPerm(v) && |v| == |a| && j < |v| && v[j] == |a| - 1
    ensures var n := |a|;
            var w := v[j := v[n - 1]][..n - 1];
            IsPerm(w) && multiset(Through(a, v)) == multiset(Through(a[..n - 1], w) + [a[n - 1]])
  {
    var n := |a|;
    var w, b, t := v[j := v[n - 1]][..n - 1], a[..n - 1], Through(a, v);
    assert IsPerm(w);
    var u := t[j := t[n - 1]][n - 1 := t[j]];
    assert multiset(u) == multiset(t);
    assert u == Through(b, w) + [a[n - 1]];
  }
}
