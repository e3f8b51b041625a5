/**
 * The sorts of src/sort.c on one array. Positions stand for addresses, and a swap is of whole elements. Elements are
 * compared by a key: on the elements of one array every total preorder is that of some key.
 */
module Introsort {
  import opened Powers

  const QS_MAXDEPTH := 48
  const ISORT_THRESH := 8

  datatype Elem = Elem(key: int, rest: int)

  // ----- order and content -----

  predicate Ordered(a: seq<Elem>, l: nat, r: nat) {
    l <= r <= |a| && forall i, j :: l <= i < j < r ==> a[i].key <= a[j].key
  }

  /** Nothing before `t` has a larger key than anything from `t` on. */
  predicate Cut(a: seq<Elem>, t: nat) {
    t <= |a| && forall i, j :: 0 <= i < t <= j < |a| ==> a[i].key <= a[j].key
  }

  /** The same elements, and the same ones in the same places outside a range. */
  predicate Shuffled(a: seq<Elem>, b: seq<Elem>, l: nat, r: nat) {
    && l <= r <= |a| == |b| && multiset(b) == multiset(a)
    && a[..l] == b[..l] && a[r..] == b[r..]
  }

  lemma Rejoin(a: seq<Elem>, l: nat, r: nat)
    requires l <= r <= |a|
    ensures a == a[..l] + a[l..r] + a[r..] && multiset(a) == multiset(a[..l]) + multiset(a[l..r]) + multiset(a[r..])
  {
    assert a == a[..l] + a[l..r] + a[r..];
  }

  /** Then the range has the same elements. */
  lemma SameRange(a: seq<Elem>, b: seq<Elem>, l: nat, r: nat)
    requires Shuffled(a, b, l, r)
    ensures multiset(b[l..r]) == multiset(a[l..r])
  {
    Rejoin(a, l, r);
    Rejoin(b, l, r);
    forall e
      ensures multiset(b[l..r])[e] == multiset(a[l..r])[e]
    {
      assert multiset(a)[e] == multiset(a[..l])[e] + multiset(a[l..r])[e] + multiset(a[r..])[e];
      assert multiset(b)[e] == multiset(b[..l])[e] + multiset(b[l..r])[e] + multiset(b[r..])[e];
    }
  }

  lemma InRange(a: seq<Elem>, b: seq<Elem>, l: nat, r: nat, i: nat) returns (j: nat)
    requires Shuffled(a, b, l, r) && l <= i < r
    ensures l <= j < r && a[j] == b[i]
  {
    SameRange(a, b, l, r);
    assert b[l..r][i - l] == b[i];
    assert b[i] in multiset(b[l..r]);
    assert b[i] in a[l..r];
    var k :| 0 <= k < r - l && a[l..r][k] == b[i];
    j := l + k;
  }

  lemma ShuffledTwice(a: seq<Elem>, b: seq<Elem>, c: seq<Elem>, l: nat, r: nat)
    requires Shuffled(a, b, l, r) && Shuffled(b, c, l, r)
    ensures Shuffled(a, c, l, r)
  {
  }

  lemma ShuffledWider(a: seq<Elem>, b: seq<Elem>, l: nat, r: nat, l2: nat, r2: nat)
    requires Shuffled(a, b, l, r) && l2 <= l && r <= r2 <= |a|
    ensures Shuffled(a, b, l2, r2)
  {
    assert a[..l2] == a[..l][..l2] && b[..l2] == b[..l][..l2];
    assert a[r2..] == a[r..][r2 - r..] && b[r2..] == b[r..][r2 - r..];
  }

  lemma Swapped(a: seq<Elem>, i: nat, j: nat, l: nat, r: nat)
    requires l <= i < r && l <= j < r && r <= |a|
    ensures Shuffled(a, a[i := a[j]][j := a[i]], l, r)
  {
    var b := a[i := a[j]][j := a[i]];
    assert multiset(b) == multiset(a);
  }

  method Swap(a: array<Elem>, i: nat, j: nat)
    requires i < a.Length && j < a.Length
    modifies a
    ensures a[..] == old(a[..])[i := old(a[j])][j := old(a[i])]
  {
    a[i], a[j] := a[j], a[i];
  }

  /** A swap inside a range that has been shuffled before. */
  method SwapIn(a: array<Elem>, i: nat, j: nat, ghost a0: seq<Elem>, ghost l: nat, ghost r: nat)
    requires l <= i < r && l <= j < r && r <= a.Length && Shuffled(a0, a[..], l, r)
    modifies a
    ensures Shuffled(a0, a[..], l, r) && a[..] == old(a[..])[i := old(a[..])[j]][j := old(a[..])[i]]
  {
    hide Shuffled;
    ghost var b := a[..];
    Swapped(b, i, j, l, r);
    Swap(a, i, j);
    ShuffledTwice(a0, b, a[..], l, r);
  }

  /** A rearrangement of a range keeps the cuts that are not inside it. */
  lemma CutKept(a: seq<Elem>, b: seq<Elem>, l: nat, r: nat, t: nat)
    requires Shuffled(a, b, l, r) && Cut(a, t) && (t <= l || r <= t)
    ensures Cut(b, t)
  {
    forall i, j | 0 <= i < t <= j < |b|
      ensures b[i].key <= b[j].key
    {
      var i2 := Origin(a, b, l, r, i);
      var j2 := Origin(a, b, l, r, j);
    }
  }

  lemma Origin(a: seq<Elem>, b: seq<Elem>, l: nat, r: nat, i: nat) returns (j: nat)
    requires Shuffled(a, b, l, r) && i < |b|
    ensures j < |a| && a[j] == b[i] && (l <= i < r ==> l <= j < r) && (!(l <= i < r) ==> j == i)
  {
    if l <= i < r {
      j := InRange(a, b, l, r, i);
    } else {
      j := i;
      if i < l { assert a[..l][i] == b[..l][i]; } else { assert a[r..][i - r] == b[r..][i - r]; }
    }
  }

  /** In an ordered range between two cuts every place is one. */
  lemma OrderedCuts(a: seq<Elem>, l: nat, r: nat, t: nat)
    requires Ordered(a, l, r) && Cut(a, l) && Cut(a, r) && l <= t <= r
    ensures Cut(a, t)
  {
    forall i, j | 0 <= i < t <= j < |a|
      ensures a[i].key <= a[j].key
    {
      if i < l { assert a[i].key <= a[if j < l then i else j].key; }
    }
  }

  // ----- insertion sort -----

  /** The range up to `p1` is in order but for the element at `p2`, which is on its way down. */
  predicate Sunk(a: seq<Elem>, l: nat, p1: nat, p2: nat) {
    l <= p2 <= p1 < |a| && forall i, j :: l <= i < j <= p1 && j != p2 ==> a[i].key <= a[j].key
  }

  lemma SinkStep(a: seq<Elem>, l: nat, p1: nat, p2: nat)
    requires Sunk(a, l, p1, p2) && l < p2 && a[p2 - 1].key > a[p2].key
    ensures Sunk(a[p2 - 1 := a[p2]][p2 := a[p2 - 1]], l, p1, p2 - 1)
  {
  }

  lemma SinkDone(a: seq<Elem>, l: nat, p1: nat, p2: nat)
    requires Sunk(a, l, p1, p2) && (l == p2 || a[p2 - 1].key <= a[p2].key)
    ensures Ordered(a, l, p1 + 1)
  {
  }

  /** The inner loop of isort_i: the element at `p1` goes down to its place among those before it. */
  method Sink(a: array<Elem>, l: nat, p1: nat, r: nat)
    requires l <= p1 < r <= a.Length && Ordered(a[..], l, p1)
    modifies a
    ensures Shuffled(old(a[..]), a[..], l, r) && Ordered(a[..], l, p1 + 1)
  {
    ghost var a0 := a[..];
    Unchanged(a0, l, r);
    var p2 := p1;
    assert Sunk(a0, l, p1, p2);
    hide Shuffled, Sunk, Ordered;
    while p2 > l
      invariant l <= p2 <= p1 && Shuffled(a0, a[..], l, r) && Sunk(a[..], l, p1, p2)
    {
      ghost var b := a[..];
      if a[p2 - 1].key > a[p2].key {
        SinkStep(b, l, p1, p2);
        SwapIn(a, p2 - 1, p2, a0, l, r);
        p2 := p2 - 1;
      } else {
        SinkDone(b, l, p1, p2);
        return;
      }
    }
    SinkDone(a[..], l, p1, p2);
  }

  lemma Unchanged(a: seq<Elem>, l: nat, r: nat)
    requires l <= r <= |a|
    ensures Shuffled(a, a, l, r)
  {
  }

  /** isort_i on the `r - l` elements from `l` on. */
  method Isort(a: array<Elem>, l: nat, r: nat)
    requires l <= r <= a.Length
    modifies a
    ensures Shuffled(old(a[..]), a[..], l, r) && Ordered(a[..], l, r)
  {
    hide Shuffled;
    ghost var a0 := a[..];
    Unchanged(a0, l, r);
    var p1 := l + 1;
    while p1 < r
      invariant l < p1 && (l < r ==> p1 <= r) && Shuffled(a0, a[..], l, r) && Ordered(a[..], l, if p1 <= r then p1 else r)
    {
      ghost var b := a[..];
      Sink(a, l, p1, r);
      ShuffledTwice(a0, b, a[..], l, r);
      p1 := p1 + 1;
    }
  }

  // ----- heap sort -----

  function Parent(c: int): int {
    (c - 1) / 2
  }

  /** In the heap from `s` on, what is at `c` is no larger than what is at `p`. */
  predicate Under(a: seq<Elem>, s: nat, c: nat, p: nat) {
    s + c < |a| && s + p < |a| && a[s + c].key <= a[s + p].key
  }

  /** In the heap of `n` elements the places from `from` on are no smaller than those below them. */
  predicate HeapFrom(a: seq<Elem>, s: nat, n: nat, from: nat) {
    s + n <= |a| && forall c :: 1 <= c < n && from <= Parent(c) ==> Under(a, s, c, Parent(c))
  }

  /** All but the place `pos`, whose parent is still large enough for what is below `pos`. */
  predicate HeapBut(a: seq<Elem>, s: nat, n: nat, from: nat, pos: nat) {
    && s + n <= |a|
    && (forall c :: 1 <= c < n && from <= Parent(c) && Parent(c) != pos ==> Under(a, s, c, Parent(c)))
    && (forall c :: 1 <= c < n && Parent(c) == pos && 1 <= pos && from <= Parent(pos) ==> Under(a, s, c, Parent(pos)))
  }

  /** The larger of the two below `pos`. */
  method LargerChild(a: array<Elem>, s: nat, n: nat, pos: nat) returns (cld: nat)
    requires s + n <= a.Length && 2 * pos + 1 < n
    ensures pos < cld < n && Parent(cld) == pos && AllUnder(a[..], s, n, pos, cld)
  {
    cld := 2 * pos + 1;
    if cld + 1 < n && a[s + cld + 1].key > a[s + cld].key {
      cld := cld + 1;
    }
  }

  predicate AllUnder(a: seq<Elem>, s: nat, n: nat, pos: nat, p: nat) {
    forall c :: 1 <= c < n && Parent(c) == pos ==> Under(a, s, c, p)
  }

  lemma NoChildren(a: seq<Elem>, s: nat, n: nat, pos: nat)
    requires n <= 2 * pos + 1
    ensures AllUnder(a, s, n, pos, pos)
  {
  }

  lemma NoneLarger(a: seq<Elem>, s: nat, n: nat, from: nat, pos: nat, cld: nat)
    requires HeapBut(a, s, n, from, pos) && AllUnder(a, s, n, pos, cld) && s + n <= |a| && cld < n && pos < n && a[s + cld].key <= a[s + pos].key
    ensures HeapFrom(a, s, n, from)
  {
    forall c | 1 <= c < n && Parent(c) == pos
      ensures Under(a, s, c, pos)
    {
      assert Under(a, s, c, cld);
    }
  }

  /** reheap_down */
  method ReheapDown(a: array<Elem>, s: nat, n: nat, pos0: nat)
    requires s + n <= a.Length && HeapFrom(a[..], s, n, pos0 + 1)
    modifies a
    ensures Shuffled(old(a[..]), a[..], s, s + n) && HeapFrom(a[..], s, n, pos0)
  {
    hide Shuffled, HeapBut, HeapFrom, AllUnder, Parent;
    ghost var a0 := a[..];
    Unchanged(a0, s, s + n);
    StartDown(a0, s, n, pos0);
    if pos0 >= n {
      return;
    }
    var pos := pos0;
    var didswap := true;
    while didswap
      invariant pos0 <= pos < n && Shuffled(a0, a[..], s, s + n)
      invariant if didswap then HeapBut(a[..], s, n, pos0, pos) else HeapFrom(a[..], s, n, pos0)
      decreases didswap, n - pos
    {
      didswap := false;
      ghost var at := a[..];
      if 2 * pos + 1 >= n {
        NoChildren(at, s, n, pos);
        HeapDone(at, s, n, pos0, pos);
        break;
      }
      var cld := LargerChild(a, s, n, pos);
      if a[s + pos].key >= a[s + cld].key {
        NoneLarger(at, s, n, pos0, pos, cld);
      } else {
        didswap := true;
        SwapDown(at, s, n, pos0, pos, cld);
        SwapIn(a, s + pos, s + cld, a0, s, s + n);
        pos := cld;
      }
    }
  }

  lemma StartDown(a: seq<Elem>, s: nat, n: nat, pos: nat)
    requires HeapFrom(a, s, n, pos + 1)
    ensures HeapBut(a, s, n, pos, pos) && (pos >= n ==> HeapFrom(a, s, n, pos))
  {
  }

  /** The element at `pos` changes places with the larger one below it. */
  lemma SwapDown(b: seq<Elem>, s: nat, n: nat, from: nat, pos: nat, cld: nat)
    requires HeapBut(b, s, n, from, pos) && from <= pos && 1 <= cld < n && Parent(cld) == pos && b[s + pos].key < b[s + cld].key
    requires AllUnder(b, s, n, pos, cld)
    ensures HeapBut(b[s + pos := b[s + cld]][s + cld := b[s + pos]], s, n, from, cld)
  {
    var a := b[s + pos := b[s + cld]][s + cld := b[s + pos]];
    forall c | 1 <= c < n && from <= Parent(c) && Parent(c) != cld
      ensures Under(a, s, c, Parent(c))
    {
      if Parent(c) == pos {
        assert Under(b, s, c, cld);
      } else if c == pos {
        assert Under(b, s, cld, Parent(pos));
      } else {
        assert Under(b, s, c, Parent(c));
      }
    }
    forall c | 1 <= c < n && Parent(c) == cld
      ensures Under(a, s, c, pos)
    {
      assert Under(b, s, c, Parent(c));
    }
  }

  lemma HeapDone(a: seq<Elem>, s: nat, n: nat, from: nat, pos: nat)
    requires HeapBut(a, s, n, from, pos) && AllUnder(a, s, n, pos, pos)
    ensures HeapFrom(a, s, n, from)
  {
    forall c | 1 <= c < n && from <= Parent(c)
      ensures Under(a, s, c, Parent(c))
    {
    }
  }

  /** The root of a heap is its largest. */
  lemma {:induction false} RootLargest(a: seq<Elem>, s: nat, n: nat, c: nat)
    requires HeapFrom(a, s, n, 0) && c < n
    ensures a[s + c].key <= a[s].key
  {
    if c > 0 {
      assert Under(a, s, c, Parent(c));
      RootLargest(a, s, n, Parent(c));
    }
  }

  /** The elements from the `m`-th on are in their final places. */
  predicate TailOk(a: seq<Elem>, s: nat, m: nat, n: nat) {
    m <= n && s + n <= |a| && Ordered(a, s + m, s + n) && forall i, j :: s <= i < s + m <= j < s + n ==> a[i].key <= a[j].key
  }

  lemma TailKept(a: seq<Elem>, b: seq<Elem>, s: nat, m: nat, n: nat)
    requires TailOk(a, s, m, n) && Shuffled(a, b, s, s + m)
    ensures TailOk(b, s, m, n)
  {
    assert forall j :: s + m <= j < s + n ==> b[j] == a[j] by {
      forall j | s + m <= j < s + n ensures b[j] == a[j] { assert a[s + m..][j - s - m] == b[s + m..][j - s - m]; }
    }
    forall i, j | s <= i < s + m <= j < s + n
      ensures b[i].key <= b[j].key
    {
      var k := InRange(a, b, s, s + m, i);
    }
  }

  /** The root of the heap goes behind it. */
  lemma RootBehind(a: seq<Elem>, s: nat, m: nat, n: nat)
    requires HeapFrom(a, s, m, 0) && TailOk(a, s, m, n) && 1 < m
    ensures var b := a[s := a[s + m - 1]][s + m - 1 := a[s]];
            HeapFrom(b, s, m - 1, 1) && TailOk(b, s, m - 1, n)
  {
    var b := a[s := a[s + m - 1]][s + m - 1 := a[s]];
    forall c | 1 <= c < m - 1 && 1 <= Parent(c)
      ensures Under(b, s, c, Parent(c))
    {
      assert Under(a, s, c, Parent(c));
    }
    forall i | s <= i < s + m
      ensures a[i].key <= a[s].key
    {
      RootLargest(a, s, m, i - s);
    }
  }

  /** reheap_down on a part of a range that has been shuffled before. */
  method ReheapIn(a: array<Elem>, s: nat, m: nat, pos: nat, ghost a0: seq<Elem>, ghost n: nat)
    requires m <= n && s + n <= a.Length && Shuffled(a0, a[..], s, s + n) && HeapFrom(a[..], s, m, pos + 1)
    modifies a
    ensures Shuffled(a0, a[..], s, s + n) && Shuffled(old(a[..]), a[..], s, s + m) && HeapFrom(a[..], s, m, pos)
  {
    hide Shuffled, HeapFrom;
    ghost var b := a[..];
    ReheapDown(a, s, m, pos);
    ShuffledWider(b, a[..], s, s + m, s, s + n);
    ShuffledTwice(a0, b, a[..], s, s + n);
  }

  /** The first loop of hsort_i. */
  method Heapify(a: array<Elem>, s: nat, n: nat)
    requires s + n <= a.Length
    modifies a
    ensures Shuffled(old(a[..]), a[..], s, s + n) && HeapFrom(a[..], s, n, 0)
  {
    hide Shuffled, HeapFrom;
    ghost var a0 := a[..];
    var i: nat := n / 2;
    HalfHeap(a0, s, n);
    Unchanged(a0, s, s + n);
    ReheapIn(a, s, n, i, a0, n);
    while i > 0
      invariant Shuffled(a0, a[..], s, s + n) && HeapFrom(a[..], s, n, i)
    {
      i := i - 1;
      ReheapIn(a, s, n, i, a0, n);
    }
  }

  /** A round of its second loop: the largest element goes behind the heap. */
  method Extract(a: array<Elem>, s: nat, m: nat, n: nat, ghost a0: seq<Elem>)
    requires 1 < m <= n && s + n <= a.Length
    requires Shuffled(a0, a[..], s, s + n) && HeapFrom(a[..], s, m, 0) && TailOk(a[..], s, m, n)
    modifies a
    ensures Shuffled(a0, a[..], s, s + n) && HeapFrom(a[..], s, m - 1, 0) && TailOk(a[..], s, m - 1, n)
  {
    hide Shuffled, HeapFrom, TailOk;
    RootBehind(a[..], s, m, n);
    SwapIn(a, s, s + m - 1, a0, s, s + n);
    ghost var c := a[..];
    ReheapIn(a, s, m - 1, 0, a0, n);
    TailKept(c, a[..], s, m - 1, n);
  }

  /** hsort_i on the `n` elements from `s` on. */
  method Hsort(a: array<Elem>, s: nat, n: nat)
    requires s + n <= a.Length
    modifies a
    ensures Shuffled(old(a[..]), a[..], s, s + n) && Ordered(a[..], s, s + n)
  {
    hide Shuffled, HeapFrom, TailOk, Ordered;
    ghost var a0 := a[..];
    var m: nat := n;
    Heapify(a, s, n);
    TailEmpty(a[..], s, n);
    while m > 1
      invariant m <= n && Shuffled(a0, a[..], s, s + n) && HeapFrom(a[..], s, m, 0) && TailOk(a[..], s, m, n)
    {
      Extract(a, s, m, n, a0);
      m := m - 1;
    }
    TailAll(a[..], s, m, n);
  }

  /** The second half of a heap has nothing below it. */
  lemma HalfHeap(a: seq<Elem>, s: nat, n: nat)
    requires s + n <= |a|
    ensures HeapFrom(a, s, n, n / 2 + 1)
  {
  }

  lemma TailEmpty(a: seq<Elem>, s: nat, n: nat)
    requires s + n <= |a|
    ensures TailOk(a, s, n, n)
  {
  }

  lemma TailAll(a: seq<Elem>, s: nat, m: nat, n: nat)
    requires TailOk(a, s, m, n) && m <= 1
    ensures Ordered(a, s, s + n)
  {
  }

  // ----- partition -----

  predicate Middle(x: int, a: int, b: int, c: int) {
    (x == a || x == b || x == c) && (a <= x || b <= x) && (a <= x || c <= x) && (b <= x || c <= x) && (x <= a || x <= b) && (x <= a || x <= c) && (x <= b || x <= c)
  }

  /** median3: one of the three places, with the middle one of the keys. */
  function Median3(a: seq<Elem>, i: nat, j: nat, k: nat): (r: nat)
    requires i < |a| && j < |a| && k < |a|
    ensures (r == i || r == j || r == k) && Middle(a[r].key, a[i].key, a[j].key, a[k].key)
  {
    if a[i].key < a[j].key then
      if a[j].key < a[k].key then j else if a[i].key < a[k].key then k else i
    else if a[i].key < a[k].key then i
    else if a[j].key < a[k].key then k
    else j
  }

  /** The place of the element that splits the range from `start` to `end`. */
  predicate Split(a: seq<Elem>, start: nat, lo: nat, end: nat) {
    start <= lo < end <= |a| && (forall i :: start <= i < lo ==> a[i].key <= a[lo].key) && (forall i :: lo < i < end ==> a[lo].key < a[i].key)
  }

  /** Which place the pivot is taken from. */
  method Pivot(a: array<Elem>, start: nat, n: nat) returns (p: nat)
    requires 9 <= n && start + n <= a.Length
    ensures start <= p < start + n
  {
    var m1, m2, m3 := start, start + n / 2, start + n - 1;
    if n > 64 {
      var stride := n / 9;
      m1 := Median3(a[..], m1, m1 + stride, m1 + stride * 2);
      m2 := Median3(a[..], m2 - stride, m2, m2 + stride);
      m3 := Median3(a[..], m3 - stride * 2, m3 - stride, m3);
    }
    p := Median3(a[..], m1, m2, m3);
  }

  /** How far the two scans have come: what they have passed is on its side of the pivot at `start`. */
  predicate Scanned(a: seq<Elem>, start: nat, lo: nat, hi: nat, end: nat) {
    && start < lo <= end <= |a| && start <= hi < end && (forall i :: start < i < lo ==> a[i].key <= a[start].key)
    && (forall i :: hi < i < end ==> a[start].key < a[i].key)
  }

  /** The two inner loops of the partition, which meet, or stop at two elements that are each on the wrong side. */
  method Scan(a: array<Elem>, start: nat, lo0: nat, hi0: nat, end: nat) returns (met: bool, lo: nat, hi: nat)
    requires lo0 <= hi0 && Scanned(a[..], start, lo0, hi0, end)
    ensures if met then hi == lo + 1 && Scanned(a[..], start, hi, lo, end)
            else lo < hi && Scanned(a[..], start, lo, hi, end) && a[hi].key <= a[start].key < a[lo].key
    ensures lo0 <= lo + 1 && hi <= hi0 + 1 && start <= lo && (!met ==> lo0 <= lo && hi <= hi0)
  {
    lo, hi := lo0, hi0;
    while a[start].key >= a[lo].key
      invariant lo0 <= lo <= hi == hi0 && Scanned(a[..], start, lo, hi, end)
      decreases hi - lo
    {
      if lo == hi {
        return true, lo, hi + 1;
      }
      lo := lo + 1;
    }
    while a[start].key < a[hi].key
      invariant lo0 <= lo <= hi <= hi0 && Scanned(a[..], start, lo, hi, end) && a[start].key < a[lo].key
      decreases hi
    {
      if lo == hi {
        return true, lo - 1, hi;
      }
      hi := hi - 1;
    }
    met := false;
  }

  lemma Exchanged(a: seq<Elem>, start: nat, lo: nat, hi: nat, end: nat)
    requires Scanned(a, start, lo, hi, end) && lo < hi && a[hi].key <= a[start].key < a[lo].key
    ensures Scanned(a[lo := a[hi]][hi := a[lo]], start, lo + 1, hi - 1, end)
  {
  }

  lemma ScannedBounds(a: seq<Elem>, start: nat, lo: nat, hi: nat, end: nat)
    requires Scanned(a, start, lo, hi, end)
    ensures start < lo <= end <= |a| && start <= hi < end
  {
  }

  lemma ScanStart(a: seq<Elem>, start: nat, end: nat)
    requires start + 9 <= end <= |a|
    ensures Scanned(a, start, start + 1, end - 1, end)
  {
  }

  lemma PivotPlaced(a: seq<Elem>, start: nat, lo: nat, end: nat)
    requires Scanned(a, start, lo + 1, lo, end) && start <= lo < end
    ensures Split(a[start := a[lo]][lo := a[start]], start, lo, end)
  {
  }

  /** The partition in qsort_array: `hi` ends up one past `lo`, where the pivot goes. */
  method Partition(a: array<Elem>, start: nat, n: nat) returns (lo: nat)
    requires 9 <= n && start + n <= a.Length
    modifies a
    ensures Shuffled(old(a[..]), a[..], start, start + n) && Split(a[..], start, lo, start + n)
  {
    hide Shuffled, Scanned, Split;
    ghost var a0 := a[..];
    Unchanged(a0, start, start + n);
    var end := start + n;
    var pivot := Pivot(a, start, n);
    if pivot != start {
      SwapIn(a, start, pivot, a0, start, end);
    }
    lo := start + 1;
    var hi := end - 1;
    var met := false;
    ScanStart(a[..], start, end);
    while !met
      invariant Shuffled(a0, a[..], start, end) && start <= lo && (met ==> lo < end) && hi <= end
      invariant if met then hi == lo + 1 && Scanned(a[..], start, hi, lo, end) else start < lo <= hi < end && Scanned(a[..], start, lo, hi, end)
      decreases !met, hi - lo
    {
      met, lo, hi := Scan(a, start, lo, hi, end);
      if !met {
        Exchanged(a[..], start, lo, hi, end);
        SwapIn(a, lo, hi, a0, start, end);
        ScannedBounds(a[..], start, lo + 1, hi - 1, end);
        if lo + 1 == hi {
          met := true;
        } else {
          lo := lo + 1;
          hi := hi - 1;
        }
      }
    }
    PivotPlaced(a[..], start, lo, end);
    SwapIn(a, start, lo, a0, start, end);
  }

  // ----- what is left to sort -----

  /** struct qswork */
  datatype Work = Work(start: nat, nelem: nat, depth: nat) {
    function End(): nat {
      start + nelem
    }
  }

  predicate Inside(w: Work, t: nat) {
    w.start < t < w.End()
  }

  /** The pieces lie apart, and everything before each of them is no larger and everything behind it no smaller. */
  predicate Pending(a: seq<Elem>, pend: seq<Work>) {
    && (forall k :: 0 <= k < |pend| ==> pend[k].End() <= |a| && Cut(a, pend[k].start) && Cut(a, pend[k].End()))
    && (forall k, l :: 0 <= k < l < |pend| ==> pend[k].End() <= pend[l].start || pend[l].End() <= pend[k].start)
  }

  /** Outside the pieces the array is in order. */
  ghost predicate Settled(a: seq<Elem>, pend: seq<Work>) {
    forall t: nat {:trigger Cut(a, t)} :: t <= |a| && !Cut(a, t) ==> exists k :: 0 <= k < |pend| && Inside(pend[k], t)
  }

  /** A piece is rearranged: what was a cut outside it is one still. */
  lemma PieceShuffled(a: seq<Elem>, b: seq<Elem>, pend: seq<Work>, k: nat)
    requires k < |pend| && Pending(a, pend) && Settled(a, pend) && Shuffled(a, b, pend[k].start, pend[k].End())
    ensures Pending(b, pend) && Settled(b, pend)
  {
    hide Shuffled, Cut;
    assert |b| == |a| by { ShuffledLength(a, b, pend[k].start, pend[k].End()); }
    forall l | 0 <= l < |pend|
      ensures Cut(b, pend[l].start) && Cut(b, pend[l].End())
    {
      CutKept(a, b, pend[k].start, pend[k].End(), pend[l].start);
      CutKept(a, b, pend[k].start, pend[k].End(), pend[l].End());
    }
    forall t: nat | t <= |b| && !Cut(b, t)
      ensures exists l :: 0 <= l < |pend| && Inside(pend[l], t)
    {
      if !Inside(pend[k], t) {
        if Cut(a, t) { CutKept(a, b, pend[k].start, pend[k].End(), t); }
      }
    }
  }

  lemma ShuffledLength(a: seq<Elem>, b: seq<Elem>, l: nat, r: nat)
    requires Shuffled(a, b, l, r)
    ensures |a| == |b|
  {
  }

  /** A piece in order is done with. */
  lemma PieceSorted(a: seq<Elem>, pend: seq<Work>, k: nat)
    requires k < |pend| && Pending(a, pend) && Settled(a, pend) && Ordered(a, pend[k].start, pend[k].End())
    ensures Pending(a, pend[..k] + pend[k + 1..]) && Settled(a, pend[..k] + pend[k + 1..])
  {
    hide Cut, Ordered;
    var rest := pend[..k] + pend[k + 1..];
    assert forall l :: 0 <= l < |rest| ==> rest[l] == pend[if l < k then l else l + 1];
    forall t: nat | t <= |a| && !Cut(a, t)
      ensures exists l :: 0 <= l < |rest| && Inside(rest[l], t)
    {
      var l :| 0 <= l < |pend| && Inside(pend[l], t);
      if l == k {
        OrderedCuts(a, pend[k].start, pend[k].End(), t);
      }
      assert rest[if l < k then l else l - 1] == pend[l];
    }
  }

  /** A piece around its pivot becomes two. */
  lemma PieceSplit(a: seq<Elem>, rest: seq<Work>, cur: Work, lo: nat, d: nat)
    requires Pending(a, rest + [cur]) && Settled(a, rest + [cur]) && Split(a, cur.start, lo, cur.End())
    ensures var low, high := Work(cur.start, lo - cur.start, d), Work(lo + 1, cur.End() - (lo + 1), d);
            Pending(a, rest + [low, high]) && Settled(a, rest + [low, high])
  {
    assert (rest + [cur])[|rest|] == cur;
    SplitCuts(a, cur.start, lo, cur.End());
    SplitPending(a, rest, cur, lo, d);
    SplitSettled(a, rest, cur, lo, d);
  }

  lemma SplitPending(a: seq<Elem>, rest: seq<Work>, cur: Work, lo: nat, d: nat)
    requires Pending(a, rest + [cur]) && Cut(a, lo) && Cut(a, lo + 1) && cur.start <= lo < cur.End()
    ensures Pending(a, rest + [Work(cur.start, lo - cur.start, d), Work(lo + 1, cur.End() - (lo + 1), d)])
  {
    hide Cut;
    var pend := rest + [cur];
    var more := rest + [Work(cur.start, lo - cur.start, d), Work(lo + 1, cur.End() - (lo + 1), d)];
    assert pend[|rest|] == cur;
    assert forall l :: 0 <= l < |rest| ==> pend[l] == rest[l] && more[l] == rest[l];
  }

  lemma SplitSettled(a: seq<Elem>, rest: seq<Work>, cur: Work, lo: nat, d: nat)
    requires Settled(a, rest + [cur]) && Cut(a, lo) && Cut(a, lo + 1) && cur.start <= lo < cur.End()
    ensures Settled(a, rest + [Work(cur.start, lo - cur.start, d), Work(lo + 1, cur.End() - (lo + 1), d)])
  {
    hide Cut;
    var pend := rest + [cur];
    var more := rest + [Work(cur.start, lo - cur.start, d), Work(lo + 1, cur.End() - (lo + 1), d)];
    forall t: nat | t <= |a| && !Cut(a, t)
      ensures exists l :: 0 <= l < |more| && Inside(more[l], t)
    {
      var l :| 0 <= l < |pend| && Inside(pend[l], t);
      if l == |rest| {
        assert t != lo && t != lo + 1;
        assert Inside(more[if t < lo then l else l + 1], t);
      } else {
        assert Inside(more[l], t);
      }
    }
  }

  lemma SplitCuts(a: seq<Elem>, start: nat, lo: nat, end: nat)
    requires Split(a, start, lo, end) && Cut(a, start) && Cut(a, end)
    ensures Cut(a, lo) && Cut(a, lo + 1)
  {
    forall i, j | 0 <= i < lo <= j < |a|
      ensures a[i].key <= a[j].key
    {
      if i < start && j >= start { assert a[i].key <= a[lo].key; }
      if i >= start && j >= end { assert a[lo].key <= a[j].key; }
    }
    forall i, j | 0 <= i < lo + 1 <= j < |a|
      ensures a[i].key <= a[j].key
    {
      if i < start { assert a[i].key <= a[lo].key; }
      if j >= end { assert a[lo].key <= a[j].key; }
    }
  }

  lemma AllSettled(a: seq<Elem>)
    requires Settled(a, [])
    ensures Ordered(a, 0, |a|)
  {
    forall i, j | 0 <= i < j < |a|
      ensures a[i].key <= a[j].key
    {
      assert Cut(a, j);
    }
  }

  function Total(pend: seq<Work>): nat {
    if pend == [] then 0 else Total(pend[..|pend| - 1]) + pend[|pend| - 1].nelem
  }

  /** The stack: depths rise, and every piece on it is too large for an insertion sort. */
  predicate StackOk(st: seq<Work>, depth: nat) {
    && (forall k :: 0 <= k < |st| ==> k + 2 <= st[k].depth <= depth && st[k].nelem > ISORT_THRESH)
    && (forall k, l :: 0 <= k < l < |st| ==> st[k].depth < st[l].depth)
  }

  // ----- qsort_array -----

  /** Between the rounds of the loop: the stack `st`, and the piece at hand. */
  ghost predicate Live(a: seq<Elem>, st: seq<Work>, cur: Work, bailout: nat) {
    && Pending(a, st + [cur]) && Settled(a, st + [cur]) && cur.nelem > ISORT_THRESH
    && StackOk(st, cur.depth) && 1 <= cur.depth <= bailout + 1 && bailout <= QS_MAXDEPTH - 3
  }

  /** Nothing at hand: the next piece comes from the stack, or the array is in order. */
  ghost predicate Idle(a: seq<Elem>, st: seq<Work>, depth: nat, bailout: nat) {
    Pending(a, st) && Settled(a, st) && StackOk(st, depth) && depth <= bailout + 1 && bailout <= QS_MAXDEPTH - 3
  }

  lemma Popped(a: seq<Elem>, st: seq<Work>, depth: nat, bailout: nat)
    requires Idle(a, st, depth, bailout) && st != []
    ensures var n := |st| - 1; Live(a, st[..n], st[n], bailout) && Total(st[..n] + [st[n]]) == Total(st)
  {
    hide Pending, Settled, Total, StackOk;
    var n := |st| - 1;
    assert st[..n] + [st[n]] == st;
    TopPiece(st, depth);
  }

  lemma TopPiece(st: seq<Work>, depth: nat)
    requires StackOk(st, depth) && st != []
    ensures var n := |st| - 1; StackOk(st[..n], st[n].depth) && st[n].nelem > ISORT_THRESH && 1 <= st[n].depth <= depth
  {
  }

  lemma Finished(a: seq<Elem>, depth: nat, bailout: nat)
    requires Idle(a, [], depth, bailout)
    ensures Ordered(a, 0, |a|)
  {
    AllSettled(a);
  }

  lemma TotalPush(st: seq<Work>, w: Work)
    ensures Total(st + [w]) == Total(st) + w.nelem
  {
    assert (st + [w])[..|st|] == st;
  }

  /** What the macro PUSH is given fits on the stack. */
  lemma StackRoom(st: seq<Work>, depth: nat, bailout: nat)
    requires StackOk(st, depth) && 1 <= depth <= bailout <= QS_MAXDEPTH - 3
    ensures |st| + 1 <= depth && |st| < QS_MAXDEPTH
  {
    if st != [] { assert |st| + 1 <= st[|st| - 1].depth <= depth; }
  }

  /** isort_i on one of the pieces. */
  method SortPiece(a: array<Elem>, l: nat, r: nat, ghost pend: seq<Work>, ghost k: nat)
    requires k < |pend| && Pending(a[..], pend) && Settled(a[..], pend) && pend[k].start == l && pend[k].End() == r
    modifies a
    ensures Pending(a[..], pend[..k] + pend[k + 1..]) && Settled(a[..], pend[..k] + pend[k + 1..])
    ensures multiset(a[..]) == multiset(old(a[..]))
  {
    ghost var b := a[..];
    assert l <= r <= a.Length;
    Isort(a, l, r);
    assert multiset(a[..]) == multiset(b);
    hide Shuffled, Pending, Settled;
    PieceShuffled(b, a[..], pend, k);
    PieceSorted(a[..], pend, k);
  }

  /** hsort_i on the piece at hand, past the depth at which quicksort is given up. */
  method HeapPiece(a: array<Elem>, ghost st: seq<Work>, cur: Work, ghost bailout: nat)
    requires Live(a[..], st, cur, bailout)
    modifies a
    ensures Idle(a[..], st, cur.depth, bailout) && multiset(a[..]) == multiset(old(a[..]))
  {
    ghost var b, pend := a[..], st + [cur];
    assert pend[|st|] == cur && cur.End() <= a.Length;
    Hsort(a, cur.start, cur.nelem);
    assert multiset(a[..]) == multiset(b);
    hide Shuffled, Pending, Settled;
    PieceShuffled(b, a[..], pend, |st|);
    PieceSorted(a[..], pend, |st|);
    assert pend[..|st|] + pend[|st| + 1..] == st;
  }

  /** The partition of the piece at hand, `lo` being where the pivot ends up. */
  method SplitPiece(a: array<Elem>, ghost st: seq<Work>, cur: Work, d: nat, ghost bailout: nat) returns (lo: nat)
    requires Live(a[..], st, cur, bailout)
    modifies a
    ensures cur.start <= lo < cur.End() && multiset(a[..]) == multiset(old(a[..]))
    ensures var low, high := Work(cur.start, lo - cur.start, d), Work(lo + 1, cur.End() - (lo + 1), d);
            Pending(a[..], st + [low, high]) && Settled(a[..], st + [low, high])
  {
    ghost var b, pend := a[..], st + [cur];
    assert pend[|st|] == cur && cur.End() <= a.Length;
    lo := Partition(a, cur.start, cur.nelem);
    assert multiset(a[..]) == multiset(b);
    hide Shuffled, Pending, Settled;
    PieceShuffled(b, a[..], pend, |st|);
    PieceSplit(a[..], st, cur, lo, d);
  }

  /** The two pieces beside the pivot are the last that is pending, and a place on the stack is left. */
  ghost predicate Halved(a: seq<Elem>, st: seq<Work>, start: nat, lo: nat, end: nat, depth: nat, bailout: nat) {
    && start <= lo < end && |st| + 2 <= depth <= bailout + 1 && bailout <= QS_MAXDEPTH - 3 && StackOk(st, depth - 1)
    && Pending(a, st + [Work(start, lo - start, depth), Work(lo + 1, end - (lo + 1), depth)])
    && Settled(a, st + [Work(start, lo - start, depth), Work(lo + 1, end - (lo + 1), depth)])
  }

  lemma StackMore(st: seq<Work>, depth: nat, w: Work)
    requires |st| + 2 <= depth && StackOk(st, depth - 1) && w.depth == depth && w.nelem > ISORT_THRESH
    ensures StackOk(st, depth) && StackOk(st + [w], depth)
  {
  }

  /** The upper piece is large: it is the next, and the lower one is sorted or goes on the stack. */
  method TakeHigh(a: array<Elem>, stack: array<Work>, top0: nat, start: nat, lo: nat, end: nat, depth: nat, ghost bailout: nat)
    returns (top: nat, cur: Work)
    requires stack.Length == QS_MAXDEPTH && top0 < QS_MAXDEPTH && Halved(a[..], stack[..top0], start, lo, end, depth, bailout)
    requires end - (lo + 1) > ISORT_THRESH
    modifies a, stack
    ensures multiset(a[..]) == multiset(old(a[..])) && top <= QS_MAXDEPTH && Live(a[..], stack[..top], cur, bailout)
    ensures Total(stack[..top] + [cur]) <= Total(old(stack[..top0])) + (end - start) - 1
  {
    hide Pending, Settled, StackOk, Total;
    ghost var st, low, high := stack[..top0], Work(start, lo - start, depth), Work(lo + 1, end - (lo + 1), depth);
    ghost var pend := st + [low, high];
    assert pend[..|st|] + pend[|st| + 1..] == st + [high] && pend[|st|] == low;
    TotalPush(st, low);
    TotalPush(st + [low], high);
    TotalPush(st, high);
    StackMore(st, depth, high);
    var nlo := lo - start;
    if nlo > ISORT_THRESH {
      StackMore(st, depth, low);
      stack[top0] := Work(start, nlo, depth);
      top := top0 + 1;
      assert stack[..top] == st + [low];
      assert stack[..top] + [high] == pend;
    } else {
      SortPiece(a, start, lo, pend, |st|);
      top := top0;
    }
    cur := Work(lo + 1, end - (lo + 1), depth);
  }

  /** The upper piece is small: it is sorted, and the lower one is the next, or is sorted as well. */
  method TakeLow(a: array<Elem>, stack: array<Work>, top0: nat, start: nat, lo: nat, end: nat, depth: nat, ghost bailout: nat)
    returns (done: bool, top: nat, cur: Work)
    requires stack.Length == QS_MAXDEPTH && top0 < QS_MAXDEPTH && Halved(a[..], stack[..top0], start, lo, end, depth, bailout)
    requires end - (lo + 1) <= ISORT_THRESH
    modifies a
    ensures multiset(a[..]) == multiset(old(a[..])) && top <= QS_MAXDEPTH
    ensures if done then Ordered(a[..], 0, a.Length)
            else Live(a[..], stack[..top], cur, bailout) && Total(stack[..top] + [cur]) <= Total(old(stack[..top0])) + (end - start) - 1
  {
    hide Pending, Settled, StackOk, Ordered;
    ghost var st, low, high := stack[..top0], Work(start, lo - start, depth), Work(lo + 1, end - (lo + 1), depth);
    ghost var pend := st + [low, high];
    assert pend[..|st| + 1] + pend[|st| + 2..] == st + [low] && pend[|st| + 1] == high;
    SortPiece(a, lo + 1, end, pend, |st| + 1);
    TotalPush(st, low);
    StackMore(st, depth, Work(0, ISORT_THRESH + 1, depth));
    var n := lo - start;
    if n <= ISORT_THRESH {
      ghost var rest := st + [low];
      assert rest[|st|] == low && rest[..|st|] + rest[|st| + 1..] == st;
      SortPiece(a, start, lo, rest, |st|);
      done, top, cur := Pop(a, stack, top0, depth, bailout);
    } else {
      done, top, cur := false, top0, Work(start, n, depth);
    }
  }

  /** One round of the loop in qsort_array. `top` counts the pieces on the stack. */
  method Round(a: array<Elem>, stack: array<Work>, top0: nat, cur0: Work, bailout: nat) returns (done: bool, top: nat, cur: Work)
    requires stack.Length == QS_MAXDEPTH && top0 <= QS_MAXDEPTH && Live(a[..], stack[..top0], cur0, bailout)
    modifies a, stack
    ensures multiset(a[..]) == multiset(old(a[..])) && top <= QS_MAXDEPTH
    ensures if done then Ordered(a[..], 0, a.Length)
            else Live(a[..], stack[..top], cur, bailout) && Total(stack[..top] + [cur]) < old(Total(stack[..top0] + [cur0]))
  {
    hide Pending, Settled, Ordered, StackOk;
    var start, n, depth := cur0.start, cur0.nelem, cur0.depth;
    ghost var st := stack[..top0];
    TotalPush(st, cur0);
    if depth > bailout {
      HeapPiece(a, st, cur0, bailout);
      done, top, cur := Pop(a, stack, top0, depth, bailout);
      return;
    }
    StackRoom(st, depth, bailout);
    var lo := SplitPiece(a, st, cur0, depth + 1, bailout);
    if start + n - (lo + 1) > ISORT_THRESH {
      done := false;
      top, cur := TakeHigh(a, stack, top0, start, lo, start + n, depth + 1, bailout);
    } else {
      done, top, cur := TakeLow(a, stack, top0, start, lo, start + n, depth + 1, bailout);
    }
  }

  /** The macro POP, or the end. */
  method Pop(a: array<Elem>, stack: array<Work>, top0: nat, depth: nat, ghost bailout: nat) returns (done: bool, top: nat, cur: Work)
    requires top0 <= stack.Length == QS_MAXDEPTH && Idle(a[..], stack[..top0], depth, bailout)
    ensures top <= QS_MAXDEPTH
    ensures if done then Ordered(a[..], 0, a.Length)
            else Live(a[..], stack[..top], cur, bailout) && Total(stack[..top] + [cur]) == Total(stack[..top0])
  {
    hide Idle, Live, Ordered, Total;
    top := top0;
    if top == 0 {
      assert stack[..top0] == [];
      Finished(a[..], depth, bailout);
      return true, top, Work(0, 0, 0);
    }
    Popped(a[..], stack[..top0], depth, bailout);
    top := top - 1;
    cur := stack[top];
    assert stack[..top0][..top] == stack[..top];
    done := false;
  }

  /** Twice the logarithm of the number of elements, but no more than the stack has room for. */
  method Bailout(nelem: nat) returns (d: nat)
    requires 1 < nelem
    ensures d == if 2 * Log2(nelem) > QS_MAXDEPTH - 3 then QS_MAXDEPTH - 3 else 2 * Log2(nelem)
    ensures 1 <= d
  {
    d := 0;
    var n: nat := nelem / 2;
    while n != 0
      invariant d + (if n == 0 then 0 else Log2(n) + 1) == Log2(nelem)
      decreases n
    {
      d := d + 1;
      n := n / 2;
    }
    d := d * 2;
    if d > QS_MAXDEPTH - 3 {
      d := QS_MAXDEPTH - 3;
    }
  }

  /** qsort_array */
  method Qsort(a: array<Elem>)
    modifies a
    ensures Ordered(a[..], 0, a.Length) && multiset(a[..]) == multiset(old(a[..]))
  {
    hide Live, Shuffled, Settled, Pending;
    if a.Length <= 1 {
      return;
    }
    if a.Length <= ISORT_THRESH {
      ghost var b := a[..];
      Isort(a, 0, a.Length);
      SameElements(b, a[..], 0, a.Length);
      return;
    }
    var bailout := Bailout(a.Length);
    var stack := new Work[QS_MAXDEPTH](i => Work(0, 0, 0));
    var top: nat, cur, done := 0, Work(0, a.Length, 1), false;
    assert stack[..top] + [cur] == [cur];
    WholePending(a[..], cur);
    WholeLive(a[..], cur, bailout);
    assert stack[..top] == [];
    while !done
      invariant multiset(a[..]) == multiset(old(a[..])) && top <= QS_MAXDEPTH
      invariant if done then Ordered(a[..], 0, a.Length) else Live(a[..], stack[..top], cur, bailout)
      decreases !done, Total(stack[..top] + [cur])
    {
      done, top, cur := Round(a, stack, top, cur, bailout);
    }
  }

  lemma WholeLive(a: seq<Elem>, cur: Work, bailout: nat)
    requires Pending(a, [cur]) && Settled(a, [cur]) && cur.nelem > ISORT_THRESH && cur.depth == 1 && bailout <= QS_MAXDEPTH - 3
    ensures Live(a, [], cur, bailout)
  {
    assert [] + [cur] == [cur];
  }

  lemma SameElements(a: seq<Elem>, b: seq<Elem>, l: nat, r: nat)
    requires Shuffled(a, b, l, r)
    ensures multiset(b) == multiset(a)
  {
  }

  lemma WholePending(a: seq<Elem>, cur: Work)
    requires cur.start == 0 && cur.nelem == |a|
    ensures Pending(a, [cur]) && Settled(a, [cur])
  {
    var pend := [cur];
    forall t: nat | t <= |a| && !Cut(a, t)
      ensures exists k :: 0 <= k < |pend| && Inside(pend[k], t)
    {
      assert Inside(pend[0], t);
    }
  }
}
