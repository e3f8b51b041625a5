/** array_to_voidp, a sort of the pointers and permute_array, one after the other: src/sort.c. */
module PointerSort {
  import opened Permutations
  import opened PermuteArray
  import Introsort

  type Elem = Introsort.Elem

  /** Pointers as qsort_array compares them: by the elements they point to. */
  function Pointers(a: seq<Elem>, v: seq<nat>): (r: seq<Elem>)
    requires |v| == |a| && forall i :: 0 <= i < |v| ==> v[i] < |a|
    ensures |r| == |a| && forall i :: 0 <= i < |a| ==> r[i] == Introsort.Elem(a[v[i]].key, v[i])
  {
    seq(|a|, i requires 0 <= i < |a| => Introsort.Elem(a[v[i]].key, v[i]))
  }

  /** The place of an element in a sequence with the same elements. */
  lemma Elsewhere(p: seq<Elem>, q: seq<Elem>, i: nat) returns (j: nat)
    requires multiset(p) == multiset(q) && i < |q|
    ensures j < |p| && p[j] == q[i]
  {
    assert q[i] in multiset(q);
    assert q[i] in p;
    j :| 0 <= j < |p| && p[j] == q[i];
  }

  lemma {:induction false} Twice(p: seq<Elem>, i: nat, j: nat)
    requires i < j < |p| && p[i] == p[j]
    ensures multiset(p)[p[i]] >= 2
  {
    assert p == p[..j] + [p[j]] + p[j + 1..];
    assert p[i] in p[..j];
  }

  lemma {:induction false} Once(p: seq<Elem>, i: nat)
    requires i < |p| && forall j, k :: 0 <= j < k < |p| ==> p[j].rest != p[k].rest
    ensures multiset(p)[p[i]] == 1
  {
    assert p == p[..i] + [p[i]] + p[i + 1..];
    assert p[i] !in p[..i] && p[i] !in p[i + 1..];
  }

  /** However the pointers have been shuffled, each is there once, and still points to its element. */
  lemma StillPointers(a: seq<Elem>, v: seq<nat>, q: seq<Elem>)
    requires IsPerm(v) && |v| == |a| && multiset(Pointers(a, v)) == multiset(q)
    ensures |q| == |a|
    ensures forall i :: 0 <= i < |q| ==> 0 <= q[i].rest < |a| && q[i].key == a[q[i].rest].key
    ensures forall i, j :: 0 <= i < j < |q| ==> q[i].rest != q[j].rest
  {
    var p := Pointers(a, v);
    assert |multiset(p)| == |p| && |multiset(q)| == |q|;
    forall i | 0 <= i < |q|
      ensures 0 <= q[i].rest < |a| && q[i].key == a[q[i].rest].key
    {
      var j := Elsewhere(p, q, i);
    }
    forall i, j | 0 <= i < j < |q|
      ensures q[i].rest != q[j].rest
    {
      if q[i].rest == q[j].rest {
        assert q[i] == q[j];
        Twice(q, i, j);
        var k := Elsewhere(p, q, i);
        Once(p, k);
      }
    }
  }

  /** The array of pointers as the sort finds it. */
  method PointersOf(arr: array<Elem>, varr: array<nat>) returns (pointers: array<Elem>)
    requires varr.Length == arr.Length && forall i :: 0 <= i < varr.Length ==> varr[i] < arr.Length
    ensures fresh(pointers) && pointers[..] == Pointers(arr[..], varr[..])
  {
    var n := arr.Length;
    pointers := new Introsort.Elem[n](i => Introsort.Elem(0, 0));
    var i := 0;
    while i < n
      invariant 0 <= i <= n && forall k :: 0 <= k < i ==> pointers[k] == Introsort.Elem(arr[varr[k]].key, varr[k])
      modifies pointers
    {
      pointers[i] := Introsort.Elem(arr[varr[i]].key, varr[i]);
      i := i + 1;
    }
  }

  /** And as it leaves it. */
  method TakeBack(pointers: array<Elem>, varr: array<nat>)
    requires varr.Length == pointers.Length && forall i :: 0 <= i < pointers.Length ==> 0 <= pointers[i].rest
    modifies varr
    ensures forall i :: 0 <= i < varr.Length ==> varr[i] == pointers[i].rest
  {
    var i := 0;
    while i < varr.Length
      invariant 0 <= i <= varr.Length && forall k :: 0 <= k < i ==> varr[k] == pointers[k].rest
    {
      varr[i] := pointers[i].rest;
      i := i + 1;
    }
  }

  lemma InOrder(a: seq<Elem>, v: seq<nat>, q: seq<Elem>)
    requires |a| == |v| == |q| && Introsort.Ordered(q, 0, |q|)
    requires forall i :: 0 <= i < |q| ==> 0 <= q[i].rest < |a| && q[i].key == a[q[i].rest].key && v[i] == q[i].rest
    requires forall i, j :: 0 <= i < j < |q| ==> q[i].rest != q[j].rest
    ensures IsPerm(v) && |Through(a, v)| == |a| && Introsort.Ordered(Through(a, v), 0, |a|) && multiset(Through(a, v)) == multiset(a)
  {
    SortsThrough(a, v, (x: Elem, y: Elem) => x.key <= y.key);
  }

  /**
   * The array is sorted, with the same elements, and each of them has been copied once, but for one more copy for every
   * cycle of the permutation.
   */
  method SortByPointers(arr: array<Elem>, varr: array<nat>) returns (ghost moves: nat)
    requires varr.Length == arr.Length && (arr as object) != (varr as object)
    modifies arr, varr
    ensures Introsort.Ordered(arr[..], 0, arr.Length) && multiset(arr[..]) == multiset(old(arr[..]))
    ensures forall i :: 0 <= i < varr.Length ==> varr[i] == i
    ensures 2 * moves <= 3 * arr.Length
  {
    hide Introsort.Ordered, Through, Pointers, Moving;
    ghost var a0 := arr[..];
    ArrayToVoidp(varr, arr);
    ghost var v0 := varr[..];
    var pointers := PointersOf(arr, varr);
    Introsort.Qsort(pointers);
    ghost var q := pointers[..];
    assert arr[..] == a0;
    StillPointers(a0, v0, q);
    TakeBack(pointers, varr);
    assert arr[..] == a0;
    InOrder(a0, varr[..], q);
    ghost var cycles;
    moves, cycles := Permute(arr, varr);
  }
}
