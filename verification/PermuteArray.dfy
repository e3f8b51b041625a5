/**
 * Sorting through pointers: array_to_voidp and permute_array of src/sort.c. Elements are what the array holds, and a
 * pointer to an element is its index.
 */
module PermuteArray {
  import opened Permutations

  /** array_to_voidp */
  method ArrayToVoidp<T>(varr: array<nat>, arr: array<T>)
    requires varr.Length == arr.Length
    modifies varr
    ensures forall i :: 0 <= i < varr.Length ==> varr[i] == i
    ensures IsPerm(varr[..]) && Through(arr[..], varr[..]) == arr[..]
  {
    var p := 0;
    while p < arr.Length
      invariant 0 <= p <= arr.Length && forall i :: 0 <= i < p ==> varr[i] == i
    {
      varr[p] := p;
      p := p + 1;
    }
  }

  /**
   * What is done by place: the places in `left` are as at first, and lead to such places again; the others have their
   * element and point to themselves.
   */
  ghost predicate Partly<T>(a0: seq<T>, v0: seq<nat>, a: seq<T>, v: seq<nat>, left: set<nat>) {
    && |a0| == |v0| == |a| == |v| && IsPerm(v0)
    && (forall i :: i in left ==> i < |v0| && v0[i] in left && v[i] == v0[i] && a[i] == a0[i])
    && (forall i :: 0 <= i < |v0| && i !in left ==> v[i] == i && a[i] == a0[v0[i]])
  }

  /** In the middle of the cycle of `hi`: `to` is next, and nothing that is left leads there. */
  ghost predicate Within<T>(a0: seq<T>, v0: seq<nat>, a: seq<T>, v: seq<nat>, left: set<nat>, hi: nat, to: nat) {
    && |a0| == |v0| == |a| == |v| && IsPerm(v0) && hi < |v0| && to in left
    && (forall i :: i in left ==> i < |v0| && (v0[i] in left || v0[i] == hi) && v[i] == v0[i] && a[i] == a0[i])
    && (forall i :: 0 <= i < |v0| && i !in left ==> v[i] == i && a[i] == a0[v0[i]])
    && (forall i :: i in left && v0[i] == to ==> to == hi)
  }

  lemma CycleStep<T>(a0: seq<T>, v0: seq<nat>, a: seq<T>, v: seq<nat>, left: set<nat>, hi: nat, to: nat)
    requires Within(a0, v0, a, v, left, hi, to) && v[to] != hi
    ensures v[to] < |a| && v[to] in left && Within(a0, v0, a[to := a[v[to]]], v[to := to], left - {to}, hi, v[to])
  {
  }

  lemma CycleEnd<T>(a0: seq<T>, v0: seq<nat>, a: seq<T>, v: seq<nat>, left: set<nat>, hi: nat, to: nat)
    requires Within(a0, v0, a, v, left, hi, to) && v[to] == hi
    ensures Partly(a0, v0, a[to := a0[hi]], v[to := to], left - {to})
  {
  }

  /** The two arrays in the middle of a cycle, and between cycles. */
  ghost predicate Moves<T>(arr: array<T>, varr: array<nat>, a0: seq<T>, v0: seq<nat>, left: set<nat>, hi: nat, to: nat)
    reads arr, varr
  {
    (arr as object) != (varr as object) && to < varr.Length && Within(a0, v0, arr[..], varr[..], left, hi, to)
  }

  ghost predicate Rests<T>(arr: array<T>, varr: array<nat>, a0: seq<T>, v0: seq<nat>, left: set<nat>)
    reads arr, varr
  {
    && (arr as object) != (varr as object) && arr.Length == varr.Length && Partly(a0, v0, arr[..], varr[..], left)
    && forall i :: i in left ==> i < |v0| && v0[i] != i
  }

  /** The body of the inner loop of permute_array: the element that belongs at `to` is fetched. */
  method Fetch<T>(arr: array<T>, varr: array<nat>, hi: nat, to: nat, ghost a0: seq<T>, ghost v0: seq<nat>, ghost left: set<nat>)
    returns (next: nat)
    requires Moves(arr, varr, a0, v0, left, hi, to) && varr[to] != hi
    modifies arr, varr
    ensures to in left && next in left && next != to && next != hi && Moves(arr, varr, a0, v0, left - {to}, hi, next)
  {
    ghost var a, v := arr[..], varr[..];
    CycleStep(a0, v0, a, v, left, hi, to);
    var lastp := to;
    arr[lastp] := arr[varr[to]];
    var hold: nat := lastp;
    lastp := varr[to];
    varr[to] := hold;
    assert arr[..] == a[to := a[v[to]]] && varr[..] == v[to := to];
    next := lastp;
  }

  /** The end of a cycle: its first element, which was put aside. */
  method PutBack<T>(arr: array<T>, varr: array<nat>, hi: nat, to: nat, tmp: T, ghost a0: seq<T>, ghost v0: seq<nat>, ghost left: set<nat>)
    requires Moves(arr, varr, a0, v0, left, hi, to) && varr[to] == hi && hi < |a0| && tmp == a0[hi] && forall i :: i in left ==> i < |v0| && v0[i] != i
    modifies arr, varr
    ensures to in left && Rests(arr, varr, a0, v0, left - {to})
  {
    ghost var a, v := arr[..], varr[..];
    CycleEnd(a0, v0, a, v, left, hi, to);
    arr[to] := tmp;
    varr[to] := to;
    assert arr[..] == a[to := a0[hi]] && varr[..] == v[to := to];
  }

  /** The inner loop of permute_array, from a place that does not point to itself. `moves` counts the copies of elements. */
  method MoveCycle<T>(arr: array<T>, varr: array<nat>, hi: nat, ghost a0: seq<T>, ghost v0: seq<nat>, ghost left0: set<nat>)
    returns (ghost left: set<nat>, ghost moves: nat)
    requires Rests(arr, varr, a0, v0, left0) && hi < varr.Length && varr[hi] != hi
    modifies arr, varr
    ensures left <= left0 && hi !in left && Rests(arr, varr, a0, v0, left)
    ensures moves + |left| == |left0| + 1 && |left| + 2 <= |left0|
  {
    hide Moves, Rests;
    left, moves := left0, 1;
    CycleBegins(arr, varr, a0, v0, left, hi);
    var to: nat, tmp := hi, arr[hi];
    while varr[to] != hi
      invariant to < varr.Length && Moves(arr, varr, a0, v0, left, hi, to)
      invariant left <= left0 && to in left && (to == hi || hi !in left)
      invariant moves + |left| == |left0| + 1 && (if to == hi then varr[hi] != hi else |left| < |left0|)
      decreases left
    {
      ghost var from := to;
      to := Fetch(arr, varr, hi, to, a0, v0, left);
      left, moves := left - {from}, moves + 1;
      MovesIn(arr, varr, a0, v0, left, hi, to);
    }
    PutBack(arr, varr, hi, to, tmp, a0, v0, left);
    left, moves := left - {to}, moves + 1;
  }

  lemma MovesIn<T>(arr: array<T>, varr: array<nat>, a0: seq<T>, v0: seq<nat>, left: set<nat>, hi: nat, to: nat)
    requires Moves(arr, varr, a0, v0, left, hi, to)
    ensures to < varr.Length
  {
  }

  lemma CycleStart<T>(a0: seq<T>, v0: seq<nat>, a: seq<T>, v: seq<nat>, left: set<nat>, hi: nat)
    requires Partly(a0, v0, a, v, left) && hi < |v| && v[hi] != hi
    ensures hi in left && Within(a0, v0, a, v, left, hi, hi) && |a0| == |a| == |v| && a[hi] == a0[hi]
  {
  }

  lemma CycleBegins<T>(arr: array<T>, varr: array<nat>, a0: seq<T>, v0: seq<nat>, left: set<nat>, hi: nat)
    requires Rests(arr, varr, a0, v0, left) && hi < varr.Length && varr[hi] != hi
    ensures Moves(arr, varr, a0, v0, left, hi, hi) && hi in left && hi < arr.Length && hi < |a0| && arr[hi] == a0[hi]
    ensures forall i :: i in left ==> i < |v0| && v0[i] != i
  {
    CycleStart(a0, v0, arr[..], varr[..], left, hi);
  }

  /** The places that do not point to themselves. */
  function Moving(v: seq<nat>): set<nat> {
    set i: nat | 0 <= i < |v| && v[i] != i
  }

  /** One turn of the loop of permute_array: the place `hi` is settled, with all of its cycle. */
  method Visit<T>(arr: array<T>, varr: array<nat>, hi: nat, ghost a0: seq<T>, ghost v0: seq<nat>, ghost left0: set<nat>)
    returns (ghost left: set<nat>, ghost moves: nat)
    requires Rests(arr, varr, a0, v0, left0) && hi < varr.Length && From(left0, hi)
    modifies arr, varr
    ensures Rests(arr, varr, a0, v0, left) && From(left, hi + 1)
    ensures if old(varr[hi]) == hi then left == left0 && moves == 0 else moves + |left| == |left0| + 1 && |left| + 2 <= |left0|
  {
    left, moves := left0, 0;
    if varr[hi] != hi {
      left, moves := MoveCycle(arr, varr, hi, a0, v0, left0);
      hide Rests;
    } else {
      NotLeft(arr, varr, a0, v0, left, hi);
    }
  }

  /**
   * permute_array. Every cycle of more than one place is gone through once: its elements are copied once each, and one
   * of them is put aside first.
   */
  method Permute<T>(arr: array<T>, varr: array<nat>) returns (ghost moves: nat, ghost cycles: nat)
    requires (arr as object) != (varr as object) && varr.Length == arr.Length && IsPerm(varr[..])
    modifies arr, varr
    ensures arr[..] == Through(old(arr[..]), old(varr[..]))
    ensures forall i :: 0 <= i < varr.Length ==> varr[i] == i
    ensures moves == |Moving(old(varr[..]))| + cycles && 2 * cycles <= |Moving(old(varr[..]))| <= arr.Length
  {
    hide *;
    var nelem := arr.Length;
    ghost var a0, v0 := arr[..], varr[..];
    ghost var left := Moving(v0);
    moves, cycles := 0, 0;
    AllLeft(arr, varr);
    MovingFew(v0);
    if nelem < 2 {
      Few(v0, left, nelem);
      NoneLeft(arr, varr, a0, v0, left, nelem);
      return;
    }
    var hi := 0;
    From0(left);
    while hi < nelem
      invariant 0 <= hi <= nelem && Rests(arr, varr, a0, v0, left) && From(left, hi)
      invariant moves + |left| == |Moving(v0)| + cycles && 2 * cycles + |left| <= |Moving(v0)|
    {
      ghost var copied, start := 0, varr[hi];
      left, copied := Visit(arr, varr, hi, a0, v0, left);
      moves, cycles := moves + copied, if start == hi then cycles else cycles + 1;
      hi := hi + 1;
    }
    NoneLeft(arr, varr, a0, v0, left, hi);
  }

  lemma MovingFew(v: seq<nat>)
    ensures |Moving(v)| <= |v|
  {
    Numbers(|v|);
    Subset(Moving(v), UpTo(|v|));
  }

  lemma From0(left: set<nat>)
    ensures From(left, 0)
  {
  }

  predicate From(left: set<nat>, hi: nat) {
    forall i :: i in left ==> hi <= i
  }

  lemma NotLeft<T>(arr: array<T>, varr: array<nat>, a0: seq<T>, v0: seq<nat>, left: set<nat>, hi: nat)
    requires Rests(arr, varr, a0, v0, left) && hi < varr.Length && varr[hi] == hi
    ensures hi !in left
  {
  }

  lemma AllLeft<T>(arr: array<T>, varr: array<nat>)
    requires (arr as object) != (varr as object) && varr.Length == arr.Length && IsPerm(varr[..])
    ensures Rests(arr, varr, arr[..], varr[..], Moving(varr[..]))
  {
  }

  lemma Few(v: seq<nat>, left: set<nat>, n: nat)
    requires IsPerm(v) && |v| < 2 && left == Moving(v)
    ensures From(left, n) && |left| == 0
  {
    assert left == {};
  }

  lemma NoneLeft<T>(arr: array<T>, varr: array<nat>, a0: seq<T>, v0: seq<nat>, left: set<nat>, hi: nat)
    requires Rests(arr, varr, a0, v0, left) && From(left, hi) && |v0| <= hi
    ensures left == {} && |left| == 0 && |v0| == |a0| && IsPerm(v0) && arr[..] == Through(a0, v0) && forall i :: 0 <= i < varr.Length ==> varr[i] == i
  {
    var a, v := arr[..], varr[..];
    forall i | 0 <= i < |v|
      ensures v[i] == i && a[i] == a0[v0[i]]
    {
    }
  }

  predicate Ordered<T>(a: seq<T>, le: (T, T) -> bool) {
    forall i, j :: 0 <= i < j < |a| ==> le(a[i], a[j])
  }

  /** If the pointers have been put in the order of what they point to, the array is sorted afterwards. */
  lemma SortsThrough<T>(a: seq<T>, v: seq<nat>, le: (T, T) -> bool)
    requires IsPerm(v) && |v| == |a| && forall i, j :: 0 <= i < j < |v| ==> le(a[v[i]], a[v[j]])
    ensures Ordered(Through(a, v), le) && multiset(Through(a, v)) == multiset(a)
  {
    ThroughSame(a, v);
  }
}
