/**
 * l_sort of include/cat/list.h: merge sort that counts the nodes it has taken in binary. Slot `i` stands for the bit of
 * weight 2^i, and a carry is a merge.
 */
module ListSort {
  import opened Links
  import opened MergeSort
  import opened Powers

  const SLOTS := 48

  /** A list that is a ring: its head, its elements and what it consists of. */
  datatype Held = Held(head: Link, items: seq<Link>, nodes: set<Link>)

  ghost predicate Good(s: Held)
    reads s.nodes`next, s.nodes`prev
  {
    Ring(s.head, s.items, s.nodes)
  }

  predicate Separate(a: seq<Held>) {
    forall i, j :: 0 <= i < j < |a| ==> a[i].nodes !! a[j].nodes
  }

  ghost predicate Rings(a: seq<Held>, all: set<Link>)
    reads all`next, all`prev
  {
    Separate(a) && forall i :: 0 <= i < |a| ==> a[i].nodes <= all && Good(a[i])
  }

  lemma Parts(a: seq<Held>, all: set<Link>, i: nat, j: nat)
    requires Rings(a, all) && i < |a| && j < |a| && i != j
    ensures Good(a[i]) && a[i].nodes !! a[j].nodes && a[i].nodes <= all
  {
  }

  /** Two of the lists are others now. */
  function With(a: seq<Held>, i: nat, x: Held, j: nat, y: Held): (b: seq<Held>)
    requires i < |a| && j < |a| && i != j
    ensures |b| == |a| && b[i] == x && b[j] == y
  {
    a[i := x][j := y]
  }

  lemma WithAt(a: seq<Held>, i: nat, x: Held, j: nat, y: Held, k: nat)
    requires i < |a| && j < |a| && i != j && k < |a|
    ensures With(a, i, x, j, y)[k] == if k == i then x else if k == j then y else a[k]
  {
  }

  /** Two of the lists have been changed, within what they consist of. */
  lemma Changed(a: seq<Held>, all: set<Link>, i: nat, j: nat, x: Held, y: Held)
    requires Separate(a) && i < |a| && j < |a| && i != j && forall k :: 0 <= k < |a| ==> a[k].nodes <= all
    requires forall k :: 0 <= k < |a| && k != i && k != j ==> Good(a[k])
    requires Good(x) && Good(y) && x.nodes !! y.nodes && x.nodes + y.nodes <= a[i].nodes + a[j].nodes
    ensures Rings(With(a, i, x, j, y), all)
  {
    var b := With(a, i, x, j, y);
    forall k, m | 0 <= k < m < |b|
      ensures b[k].nodes !! b[m].nodes
    {
      Meets(a, i, j, x, y, k, m);
    }
    assert a[i].nodes <= all && a[j].nodes <= all;
    assert forall k :: 0 <= k < |b| && k != i && k != j ==> b[k] == a[k];
  }

  lemma Meets(a: seq<Held>, i: nat, j: nat, x: Held, y: Held, k: nat, m: nat)
    requires Separate(a) && i < |a| && j < |a| && i != j && x.nodes !! y.nodes && x.nodes + y.nodes <= a[i].nodes + a[j].nodes
    requires k < m < |a|
    ensures With(a, i, x, j, y)[k].nodes !! With(a, i, x, j, y)[m].nodes
  {
    assert a[k].nodes !! a[m].nodes;
    assert k != i ==> a[k].nodes !! a[i].nodes;
    assert k != j ==> a[k].nodes !! a[j].nodes;
    assert m != i ==> a[m].nodes !! a[i].nodes;
    assert m != j ==> a[m].nodes !! a[j].nodes;
  }

  lemma SameHeads(a: seq<Held>, i: nat, x: Held, j: nat, y: Held)
    requires i < |a| && j < |a| && i != j && x.head == a[i].head && y.head == a[j].head
    ensures forall k :: 0 <= k < |a| ==> With(a, i, x, j, y)[k].head == a[k].head
  {
  }

  // ----- the operations on the lists in use -----

  method MergeAt(l1: Link, l2: Link, ghost a: seq<Held>, ghost all: set<Link>, ghost i: nat, ghost j: nat) returns (ghost b: seq<Held>)
    requires Rings(a, all) && i < |a| && j < |a| && i != j && l1 == a[i].head && l2 == a[j].head && (a[i].items != [] || a[j].items != [])
    modifies all`next, all`prev
    ensures Rings(b, all)
    ensures b == With(a, i, Held(l1, Merged(a[i].items, a[j].items), a[i].nodes + a[j].nodes - {l2}), j, Held(l2, [], {l2}))
  {
    Parts(a, all, i, j);
    Parts(a, all, j, i);
    Ends(l2, a[j].items, a[j].nodes);
    Merge(l1, l2, a[i].items, a[j].items, a[i].nodes, a[j].nodes);
    ghost var x, y := Held(l1, Merged(a[i].items, a[j].items), a[i].nodes + a[j].nodes - {l2}), Held(l2, [], {l2});
    forall k | 0 <= k < |a| && k != i && k != j
      ensures Good(a[k])
    {
      assert old(Good(a[k])) && a[k].nodes !! a[i].nodes && a[k].nodes !! a[j].nodes;
    }
    Changed(a, all, i, j, x, y);
    b := With(a, i, x, j, y);
  }

  method MoveAt(dst: Link, src: Link, ghost a: seq<Held>, ghost all: set<Link>, ghost i: nat, ghost j: nat) returns (ghost b: seq<Held>)
    requires Rings(a, all) && i < |a| && j < |a| && i != j && dst == a[i].head && src == a[j].head && a[i].items == [] && a[j].items != []
    modifies all`next, all`prev
    ensures Rings(b, all)
    ensures b == With(a, i, Held(dst, a[j].items, a[j].nodes - {src} + {dst}), j, Held(src, [], {src}))
  {
    Parts(a, all, i, j);
    Parts(a, all, j, i);
    Ends(dst, a[i].items, a[i].nodes);
    Ends(src, a[j].items, a[j].nodes);
    Move(dst, src, a[j].items, a[j].nodes);
    ghost var x, y := Held(dst, a[j].items, a[j].nodes - {src} + {dst}), Held(src, [], {src});
    forall k | 0 <= k < |a| && k != i && k != j
      ensures Good(a[k])
    {
      assert old(Good(a[k])) && a[k].nodes !! a[i].nodes && a[k].nodes !! a[j].nodes;
    }
    Changed(a, all, i, j, x, y);
    b := With(a, i, x, j, y);
  }

  /** Where l_sort puts a node in the first slot. */
  function Added(s: seq<Link>, e: Link): seq<Link> {
    if s == [] || e.key < s[0].key then [e] + s else [s[0], e] + s[1..]
  }

  /** The insertion into the first slot by l_sort. */
  method PutIn(slot: Link, node: Link, ghost s: seq<Link>, ghost r: set<Link>) returns (wasempty: bool)
    requires Ring(slot, s, r) && node !in r
    modifies r`next, r`prev, node`next, node`prev
    ensures Ring(slot, Added(s, node), r + {node}) && (wasempty <==> s == [])
  {
    Ends(slot, s, r);
    AddedIs(s, node);
    hide Ring, Added;
    wasempty := IsEmpty(slot, s, r);
    if wasempty || node.key < slot.next.key {
      Ins(slot, node, slot, s, r, 0);
    } else {
      Ins(slot.next, node, slot, s, r, 1);
    }
  }

  lemma AddedIs(s: seq<Link>, e: Link)
    ensures Added(s, e) == if s == [] || e.key < s[0].key then s[..0] + [e] + s[0..] else s[..1] + [e] + s[1..]
  {
  }

  method AddAt(slot: Link, l: Link, ghost a: seq<Held>, ghost all: set<Link>, ghost i: nat, ghost j: nat)
    returns (wasempty: bool, ghost b: seq<Held>)
    requires Rings(a, all) && i < |a| && j < |a| && i != j && slot == a[i].head && l == a[j].head && a[j].items != []
    modifies all`next, all`prev
    ensures Rings(b, all) && (wasempty <==> a[i].items == [])
    ensures var e := a[j].items[0];
      b == With(a, i, Held(slot, Added(a[i].items, e), a[i].nodes + {e}), j, Held(l, a[j].items[1..], a[j].nodes - {e}))
  {
    Parts(a, all, i, j);
    Parts(a, all, j, i);
    ghost var s, r := a[i].items, a[i].nodes;
    hide Ring, Added;
    var node := Front(l, a[j].items, a[j].nodes);
    wasempty := PutIn(slot, node, s, r);
    ghost var x, y := Held(slot, Added(s, node), r + {node}), Held(l, a[j].items[1..], a[j].nodes - {node});
    forall k | 0 <= k < |a| && k != i && k != j
      ensures Good(a[k])
    {
      assert old(Good(a[k])) && a[k].nodes !! a[i].nodes && a[k].nodes !! a[j].nodes;
    }
    Changed(a, all, i, j, x, y);
    b := With(a, i, x, j, y);
  }

  // ----- what the slots hold -----

  /** How often `e` is on the lists. */
  function Count(a: seq<Held>, e: Link): nat {
    if a == [] then 0 else Count(a[..|a| - 1], e) + multiset(a[|a| - 1].items)[e]
  }

  /** How long the lists are together. */
  function Size(a: seq<Held>): nat {
    if a == [] then 0 else Size(a[..|a| - 1]) + |a[|a| - 1].items|
  }

  lemma {:induction false} SetOne(a: seq<Held>, i: nat, x: Held, e: Link)
    requires i < |a|
    ensures Count(a[i := x], e) == Count(a, e) - multiset(a[i].items)[e] + multiset(x.items)[e]
    ensures Size(a[i := x]) == Size(a) - |a[i].items| + |x.items|
  {
    var n := |a| - 1;
    if i < n {
      SetOne(a[..n], i, x, e);
      assert a[i := x][..n] == a[..n][i := x];
    } else {
      assert a[i := x][..n] == a[..n];
    }
  }

  /** Elements that move from one list to another stay where they are counted. */
  lemma SameCount(a: seq<Held>, i: nat, j: nat, x: Held, y: Held, e: Link)
    requires i < |a| && j < |a| && i != j && multiset(x.items) + multiset(y.items) == multiset(a[i].items) + multiset(a[j].items)
    ensures Count(With(a, i, x, j, y), e) == Count(a, e)
  {
    SetOne(a, i, x, e);
    SetOne(a[i := x], j, y, e);
    assert (multiset(x.items) + multiset(y.items))[e] == (multiset(a[i].items) + multiset(a[j].items))[e];
  }

  lemma SameSize(a: seq<Held>, i: nat, j: nat, x: Held, y: Held)
    requires i < |a| && j < |a| && i != j && |x.items| + |y.items| == |a[i].items| + |a[j].items|
    ensures Size(With(a, i, x, j, y)) == Size(a)
  {
    SetOne(a, i, x, x.head);
    SetOne(a[i := x], j, y, x.head);
  }

  lemma AddedSame(s: seq<Link>, e: Link, t: seq<Link>)
    requires t != [] && t[0] == e
    ensures multiset(Added(s, e)) + multiset(t[1..]) == multiset(s) + multiset(t)
  {
    assert t == [e] + t[1..];
    if s != [] { assert s == [s[0]] + s[1..]; }
  }

  /** Slot `k` is empty or full; the last one takes all the carries. */
  predicate Fits(k: nat, n: nat) {
    if k < SLOTS - 1 then n == 0 || n == Pow2(k) else n % Pow2(SLOTS - 1) == 0
  }

  /** The slots are sorted runs, and those but `carry` have the size they should have. */
  predicate Counter(a: seq<Held>, carry: int) {
    |a| > SLOTS && forall k :: 0 <= k < SLOTS ==> Sorted(a[k].items) && (k != carry ==> Fits(k, |a[k].items|))
  }

  lemma FullSlot(k: nat)
    requires k < SLOTS
    ensures Fits(k, Pow2(k)) && Fits(k, 0)
  {
    if k == SLOTS - 1 {
      DivIs(Pow2(k), Pow2(k), 1, 0);
      DivIs(0, Pow2(k), 0, 0);
    }
  }

  lemma FullLast(n: nat)
    requires Fits(SLOTS - 1, n)
    ensures Fits(SLOTS - 1, n + Pow2(SLOTS - 1))
  {
    var p := Pow2(SLOTS - 1);
    Euclid(n, p);
    Times(p, n / p, 1);
    DivIs(n + p, p, n / p + 1, 0);
  }

  // ----- the slots as a binary number -----

  lemma {:induction false} LowSlots(a: seq<Held>, k: nat)
    requires Counter(a, -1) && k < SLOTS
    ensures Size(a[..k]) < Pow2(k)
  {
    if k > 0 {
      LowSlots(a, k - 1);
      assert a[..k][..k - 1] == a[..k - 1] && Fits(k - 1, |a[k - 1].items|);
    }
  }

  lemma OnceOrNot(n: nat, p: nat)
    requires 0 < p && n % p == 0 && n < 2 * p
    ensures n == 0 || n == p
  {
    Euclid(n, p);
    if n / p >= 2 { TimesOrder(p, 2, n / p); }
  }

  lemma LastFits(a: seq<Held>)
    requires Counter(a, -1)
    ensures |a[SLOTS - 1].items| % Pow2(SLOTS - 1) == 0 && |a[SLOTS - 1].items| <= Size(a[..SLOTS])
  {
    hide Pow2;
    assert Fits(SLOTS - 1, |a[SLOTS - 1].items|) && a[..SLOTS][SLOTS - 1] == a[SLOTS - 1];
  }

  /** Fewer than 2^48 nodes never fill the last slot twice. */
  lemma LastSlot(a: seq<Held>)
    requires Counter(a, -1) && Size(a[..SLOTS]) < Pow2(SLOTS)
    ensures var n := |a[SLOTS - 1].items|; n == 0 || n == Pow2(SLOTS - 1)
  {
    assert |a| > SLOTS;
    hide Pow2, Counter, Size;
    LastFits(a);
    Pow2Next(SLOTS - 1);
    OnceOrNot(|a[SLOTS - 1].items|, Pow2(SLOTS - 1));
  }

  lemma SlotSize(a: seq<Held>, k: nat)
    requires Counter(a, -1) && Size(a[..SLOTS]) < Pow2(SLOTS) && k < SLOTS
    ensures |a[k].items| == 0 || |a[k].items| == Pow2(k)
    ensures Size(a[..k + 1]) == Size(a[..k]) + |a[k].items|
  {
    hide Pow2;
    LastSlot(a);
    assert Fits(k, |a[k].items|) && a[..k + 1][..k] == a[..k];
  }

  lemma {:induction false} HighSlots(a: seq<Held>, k: nat, m: nat) returns (q: nat)
    requires Counter(a, -1) && Size(a[..SLOTS]) < Pow2(SLOTS) && k <= m <= SLOTS
    ensures Size(a[..m]) == Size(a[..k]) + Pow2(k) * q
  {
    hide Counter, Pow2, Size;
    EnoughSlots(a);
    q := 0;
    if m > k {
      q := HighSlots(a, k, m - 1);
      SlotSize(a, m - 1);
      q := MoreOf(Size(a[..k]), k, q, m - 1, |a[m - 1].items|);
    }
  }

  lemma EnoughSlots(a: seq<Held>)
    requires Counter(a, -1)
    ensures |a| > SLOTS
  {
  }

  lemma MoreOf(base: nat, k: nat, q: nat, m: nat, n: nat) returns (more: nat)
    requires k <= m && (n == 0 || n == Pow2(m))
    ensures base + Pow2(k) * q + n == base + Pow2(k) * more
  {
    more := q;
    if n != 0 {
      Pow2Sum(k, m - k);
      Times(Pow2(k), q, Pow2(m - k));
      more := q + Pow2(m - k);
    }
  }

  lemma BitAt(n: nat, p: nat, low: nat, d: nat, q: nat)
    requires low < p && (d == 0 || d == 1) && n == low + d * p + 2 * p * q
    ensures n / p % 2 == d
  {
    Times(p, d, 2 * q);
    assert p * (2 * q) == 2 * p * q;
    DivIs(n, p, d + 2 * q, low);
  }

  /** Slot `k` is in use when the number of nodes has that bit. */
  lemma Digit(a: seq<Held>, k: nat)
    requires Counter(a, -1) && Size(a[..SLOTS]) < Pow2(SLOTS) && k < SLOTS
    ensures |a[k].items| == if Size(a[..SLOTS]) / Pow2(k) % 2 == 1 then Pow2(k) else 0
  {
    assert |a| > SLOTS;
    hide Counter, Pow2, Size;
    LowSlots(a, k);
    SlotSize(a, k);
    Pow2Next(k);
    var q := HighSlots(a, k + 1, SLOTS);
    BitAt(Size(a[..SLOTS]), Pow2(k), Size(a[..k]), if |a[k].items| == 0 then 0 else 1, q);
  }

  // ----- l_sort -----

  /** The slots and the list to be sorted, which comes last. */
  ghost predicate InUse(arr: array<Link>, l: Link, a: seq<Held>, all: set<Link>)
    reads arr, all`next, all`prev
  {
    && arr.Length == SLOTS && |a| == SLOTS + 1 && Rings(a, all) && a[SLOTS].head == l
    && forall k :: 0 <= k < SLOTS ==> a[k].head == arr[k]
  }

  /** The lists hold what was to be sorted. */
  ghost predicate Holds(a: seq<Held>, all: set<Link>, s: seq<Link>) {
    Size(a) == |s| && forall e :: e in all ==> Count(a, e) == multiset(s)[e]
  }

  lemma HoldsStill(a: seq<Held>, all: set<Link>, i: nat, j: nat, x: Held, y: Held, s: seq<Link>)
    requires i < |a| && j < |a| && i != j && multiset(x.items) + multiset(y.items) == multiset(a[i].items) + multiset(a[j].items)
    requires Holds(a, all, s)
    ensures Holds(With(a, i, x, j, y), all, s)
  {
    assert |multiset(x.items) + multiset(y.items)| == |x.items| + |y.items|;
    assert |multiset(a[i].items) + multiset(a[j].items)| == |a[i].items| + |a[j].items|;
    SameSize(a, i, j, x, y);
    forall e | e in all
      ensures Count(With(a, i, x, j, y), e) == multiset(s)[e]
    {
      SameCount(a, i, j, x, y, e);
    }
  }

  /** What is to be carried into slot `i`, if there is anything. */
  predicate Carry(a: seq<Held>, i: nat, done: bool) {
    |a| > SLOTS && if done || i >= SLOTS then Counter(a, -1) else i > 0 && Counter(a, i - 1) && |a[i - 1].items| == Pow2(i)
  }

  /** Two runs of the same size make one for the next slot. */
  lemma NextSize(i: nat, n: nat)
    requires i < SLOTS && Fits(i, n)
    ensures n == 0 ==> Fits(i, Pow2(i))
    ensures n != 0 ==> if i < SLOTS - 1 then n + Pow2(i) == Pow2(i + 1) else Fits(i, n + Pow2(i))
  {
    FullSlot(i);
    if i == SLOTS - 1 { FullLast(n); }
  }

  /** The run that comes into slot `i`. */
  lemma CarryRun(a: seq<Held>, i: nat, t: seq<Link>)
    requires 0 < i < SLOTS && Carry(a, i, false)
    requires t == if a[i].items == [] then a[i - 1].items else Merged(a[i].items, a[i - 1].items)
    ensures Sorted(t) && if a[i].items != [] && i < SLOTS - 1 then |t| == Pow2(i + 1) else Fits(i, |t|)
  {
    hide Fits, Sorted, Merged, Pow2;
    CarryFacts(a, i);
    NextSize(i, |a[i].items|);
    MergedSame(a[i].items, a[i - 1].items);
    MergedSorted(a[i].items, a[i - 1].items);
  }

  lemma CarryFacts(a: seq<Held>, i: nat)
    requires 0 < i < SLOTS && Carry(a, i, false)
    ensures |a| > SLOTS && Fits(i, |a[i].items|) && Sorted(a[i].items) && Sorted(a[i - 1].items) && |a[i - 1].items| == Pow2(i)
  {
    hide Fits, Sorted, Pow2;
  }

  lemma CarryStep(a: seq<Held>, i: nat, x: Held, y: Held)
    requires 0 < i < SLOTS && Carry(a, i, false) && y.items == []
    requires x.items == if a[i].items == [] then a[i - 1].items else Merged(a[i].items, a[i - 1].items)
    ensures Carry(With(a, i, x, i - 1, y), i + 1, a[i].items == [])
  {
    var b := With(a, i, x, i - 1, y);
    CarryRun(a, i, x.items);
    FullSlot(i - 1);
    assert Sorted(y.items);
    hide Fits, Sorted, Merged, Pow2, With;
    forall k | 0 <= k < SLOTS
      ensures Sorted(b[k].items) && (k != i ==> Fits(k, |b[k].items|))
    {
      WithAt(a, i, x, i - 1, y, k);
    }
  }

  lemma CarryFull(a: seq<Held>, i: nat)
    requires 0 < i < SLOTS && Carry(a, i, false)
    ensures a[i - 1].items != []
  {
  }

  lemma CarryDone(a: seq<Held>, i: nat, done: bool)
    requires Carry(a, i, done) && (done || i >= SLOTS)
    ensures Counter(a, -1)
  {
  }

  /** The node for slot 0, and what it carries. */
  lemma FirstStep(a: seq<Held>, x: Held, y: Held, e: Link)
    requires |a| > SLOTS && Counter(a, -1) && x.items == Added(a[0].items, e)
    ensures Carry(With(a, 0, x, SLOTS, y), 1, a[0].items == [])
  {
    var b := With(a, 0, x, SLOTS, y);
    FullSlot(0);
    assert Fits(0, |a[0].items|);
    forall k | 0 <= k < SLOTS
      ensures Sorted(b[k].items) && (k != 0 ==> Fits(k, |b[k].items|))
    {
      if k != 0 { assert b[k] == a[k]; }
    }
  }

  /** After a turn of the inner loop. */
  lemma Carried(a: seq<Held>, b: seq<Held>, all: set<Link>, s: seq<Link>, i: nat, x: Held, y: Held)
    requires 0 < i < SLOTS && Carry(a, i, false) && Holds(a, all, s) && b == With(a, i, x, i - 1, y) && y.items == []
    requires x.items == if a[i].items == [] then a[i - 1].items else Merged(a[i].items, a[i - 1].items)
    ensures Carry(b, i + 1, a[i].items == []) && Holds(b, all, s) && b[SLOTS] == a[SLOTS]
  {
    MergedSame(a[i].items, a[i - 1].items);
    WithAt(a, i, x, i - 1, y, SLOTS);
    hide Carry, Merged, Holds, With;
    CarryStep(a, i, x, y);
    HoldsStill(a, all, i, i - 1, x, y, s);
  }

  /** A turn of the inner loop of l_sort. */
  method CarryInto(arr: array<Link>, l: Link, i: nat, ghost a: seq<Held>, ghost all: set<Link>, ghost s: seq<Link>)
    returns (wasempty: bool, ghost b: seq<Held>)
    requires InUse(arr, l, a, all) && 0 < i < SLOTS && Carry(a, i, false) && Holds(a, all, s)
    modifies all`next, all`prev
    ensures InUse(arr, l, b, all) && Carry(b, i + 1, wasempty) && Holds(b, all, s) && b[SLOTS] == a[SLOTS]
  {
    CarryFull(a, i);
    Parts(a, all, i, i - 1);
    hide Rings, Carry, Merged, Holds, Counter, Ring, With;
    wasempty := IsEmpty(arr[i], a[i].items, a[i].nodes);
    if wasempty {
      b := MoveAt(arr[i], arr[i - 1], a, all, i, i - 1);
    } else {
      b := MergeAt(arr[i], arr[i - 1], a, all, i, i - 1);
    }
    Carried(a, b, all, s, i, b[i], b[i - 1]);
    SameHeads(a, i, b[i], i - 1, b[i - 1]);
  }

  /** A turn of the main loop of l_sort: the slots count one more. */
  method TakeOne(arr: array<Link>, l: Link, ghost a: seq<Held>, ghost all: set<Link>, ghost s: seq<Link>)
    returns (ghost b: seq<Held>)
    requires InUse(arr, l, a, all) && Counter(a, -1) && Holds(a, all, s) && a[SLOTS].items != []
    modifies all`next, all`prev
    ensures InUse(arr, l, b, all) && Counter(b, -1) && Holds(b, all, s) && b[SLOTS].items == a[SLOTS].items[1..]
  {
    hide Rings, Carry, Counter, Holds, Added;
    ghost var e := a[SLOTS].items[0];
    var wasempty;
    wasempty, b := AddAt(arr[0], l, a, all, 0, SLOTS);
    AddedSame(a[0].items, e, a[SLOTS].items);
    FirstStep(a, b[0], b[SLOTS], e);
    HoldsStill(a, all, 0, SLOTS, b[0], b[SLOTS], s);
    var i := 1;
    while i < arr.Length && !wasempty
      invariant 1 <= i <= SLOTS && InUse(arr, l, b, all) && Carry(b, i, wasempty) && Holds(b, all, s) && b[SLOTS].items == a[SLOTS].items[1..]
    {
      wasempty, b := CarryInto(arr, l, i, b, all, s);
      i := i + 1;
    }
    CarryDone(b, i, wasempty);
  }

  /** The slots before the first node. */
  method Slots(l: Link) returns (arr: array<Link>, ghost a: seq<Held>, ghost all: set<Link>)
    ensures fresh(arr) && fresh(all) && arr.Length == |a| == SLOTS && Rings(a, all)
    ensures forall k :: 0 <= k < SLOTS ==> a[k] == Held(arr[k], [], {arr[k]})
  {
    arr := new Link[SLOTS](_ => l);
    a, all := [], {};
    var i := 0;
    while i < arr.Length
      invariant 0 <= i <= SLOTS && |a| == i && Rings(a, all) && fresh(all)
      invariant forall k :: 0 <= k < i ==> a[k] == Held(arr[k], [], {arr[k]})
    {
      arr[i] := new Link(0, 0);
      ghost var x := Held(arr[i], [], {arr[i]});
      OneMore(a, all, x);
      a, all := a + [x], all + x.nodes;
      i := i + 1;
    }
  }

  lemma OneMore(a: seq<Held>, all: set<Link>, x: Held)
    requires Rings(a, all) && Good(x) && x.nodes !! all
    ensures Rings(a + [x], all + x.nodes)
  {
    var b := a + [x];
    forall i, j | 0 <= i < j < |b|
      ensures b[i].nodes !! b[j].nodes
    {
      assert j < |a| ==> a[i].nodes !! a[j].nodes;
      assert a[i].nodes <= all;
    }
  }

  lemma {:induction false} NothingYet(a: seq<Held>, e: Link)
    requires forall k :: 0 <= k < |a| ==> a[k].items == []
    ensures Count(a, e) == 0 && Size(a) == 0
  {
    if a != [] { NothingYet(a[..|a| - 1], e); }
  }

  lemma Start(a: seq<Held>, all: set<Link>, x: Held)
    requires |a| == SLOTS && forall k :: 0 <= k < |a| ==> a[k].items == []
    ensures Holds(a + [x], all, x.items) && Counter(a + [x], -1)
  {
    var b := a + [x];
    assert b[..|b| - 1] == a;
    NothingYet(a, x.head);
    forall e | e in all
      ensures Count(b, e) == multiset(x.items)[e]
    {
      NothingYet(a, e);
    }
    forall k | 0 <= k < SLOTS
      ensures b[k].items == [] && Fits(k, 0)
    {
      FullSlot(k);
    }
  }

  /** The slots below `i` have all been merged into `last`. */
  predicate Gathered(a: seq<Held>, last: nat, i: nat) {
    && |a| == SLOTS + 1 && last < i <= SLOTS && a[SLOTS].items == []
    && (forall k :: 0 <= k < i && k != last ==> a[k].items == []) && forall k :: 0 <= k < SLOTS ==> Sorted(a[k].items)
  }

  lemma GatherStep(a: seq<Held>, last: nat, i: nat, x: Held, y: Held)
    requires Gathered(a, last, i) && i < SLOTS && y.items == [] && x.items == Merged(a[i].items, a[last].items)
    ensures Gathered(With(a, i, x, last, y), i, i + 1)
  {
    var b := With(a, i, x, last, y);
    MergedSorted(a[i].items, a[last].items);
    forall k | 0 <= k <= SLOTS
      ensures b[k] == if k == i then x else if k == last then y else a[k]
    {
      WithAt(a, i, x, last, y, k);
    }
  }

  /** The last loop of l_sort. */
  method Gather(arr: array<Link>, l: Link, ghost a: seq<Held>, ghost all: set<Link>, ghost s: seq<Link>)
    returns (last: nat, ghost b: seq<Held>)
    requires InUse(arr, l, a, all) && Counter(a, -1) && Holds(a, all, s) && a[SLOTS].items == []
    modifies all`next, all`prev
    ensures InUse(arr, l, b, all) && Gathered(b, last, SLOTS) && Holds(b, all, s) && b[SLOTS] == a[SLOTS]
  {
    last, b := 0, a;
    var i := 1;
    hide Rings, Merged, Holds, Ring, With, Gathered, Counter;
    GatherStart(a);
    while i < arr.Length
      invariant 1 <= i <= SLOTS && InUse(arr, l, b, all) && Gathered(b, last, i) && Holds(b, all, s) && b[SLOTS] == a[SLOTS]
    {
      last, b := GatherOne(arr, l, i, last, b, all, s);
      i := i + 1;
    }
  }

  lemma GatherStart(a: seq<Held>)
    requires Counter(a, -1) && |a| == SLOTS + 1 && a[SLOTS].items == []
    ensures Gathered(a, 0, 1)
  {
  }

  method GatherOne(arr: array<Link>, l: Link, i: nat, last: nat, ghost a: seq<Held>, ghost all: set<Link>, ghost s: seq<Link>)
    returns (last': nat, ghost b: seq<Held>)
    requires InUse(arr, l, a, all) && 0 < i < SLOTS && Gathered(a, last, i) && Holds(a, all, s)
    modifies all`next, all`prev
    ensures InUse(arr, l, b, all) && Gathered(b, last', i + 1) && Holds(b, all, s) && b[SLOTS] == a[SLOTS]
  {
    Parts(a, all, i, last);
    last', b := last, a;
    var empty := IsEmpty(arr[i], a[i].items, a[i].nodes);
    if !empty {
      hide Rings, Merged, Holds, Ring, With;
      b := MergeAt(arr[i], arr[last], a, all, i, last);
      GatherStep(a, last, i, b[i], b[last]);
      MergedSame(a[i].items, a[last].items);
      HoldsStill(a, all, i, last, b[i], b[last], s);
      SameHeads(a, i, b[i], last, b[last]);
      WithAt(a, i, b[i], last, b[last], SLOTS);
      last' := i;
    }
  }

  lemma {:induction false} OnlyOne(a: seq<Held>, last: nat, e: Link)
    requires forall k :: 0 <= k < |a| && k != last ==> a[k].items == []
    ensures Count(a, e) == if last < |a| then multiset(a[last].items)[e] else 0
    ensures Size(a) == if last < |a| then |a[last].items| else 0
  {
    if a != [] { OnlyOne(a[..|a| - 1], last, e); }
  }

  lemma AllThere(a: seq<Held>, all: set<Link>, last: nat, s: seq<Link>)
    requires Rings(a, all) && Gathered(a, last, SLOTS) && Holds(a, all, s) && forall e :: e in s ==> e in all
    ensures multiset(a[last].items) == multiset(s) && Sorted(a[last].items)
  {
    Parts(a, all, last, SLOTS);
    forall e
      ensures multiset(a[last].items)[e] == multiset(s)[e]
    {
      OnlyOne(a, last, e);
      if e !in all { assert e !in s && e !in a[last].items; }
    }
  }

  /** The main loop of l_sort. */
  method TakeAll(arr: array<Link>, l: Link, ghost a0: seq<Held>, ghost all: set<Link>, ghost s: seq<Link>) returns (ghost a: seq<Held>)
    requires InUse(arr, l, a0, all) && Counter(a0, -1) && Holds(a0, all, s)
    modifies all`next, all`prev
    ensures InUse(arr, l, a, all) && Counter(a, -1) && Holds(a, all, s) && a[SLOTS].items == []
  {
    a := a0;
    Parts(a, all, SLOTS, 0);
    hide Rings, Counter, Holds, Ring;
    var empty := IsEmpty(l, a[SLOTS].items, a[SLOTS].nodes);
    while !empty
      invariant InUse(arr, l, a, all) && Counter(a, -1) && Holds(a, all, s) && (empty <==> a[SLOTS].items == [])
      decreases |a[SLOTS].items|
    {
      a := TakeOne(arr, l, a, all, s);
      Parts(a, all, SLOTS, 0);
      empty := IsEmpty(l, a[SLOTS].items, a[SLOTS].nodes);
    }
  }

  /** The elements of the slot that is moved to the list of `l` are those it had, in order. */
  lemma Renamed(h: Link, l: Link, t: seq<Link>, nodes: set<Link>, s: seq<Link>)
    requires Ring(h, t, nodes) && l !in nodes && multiset(t) == multiset(s)
    ensures nodes - {h} + {l} == Nodes(l, s) && (t == [] <==> s == [])
  {
    Ends(h, t, nodes);
    assert |multiset(t)| == |t| && |multiset(s)| == |s|;
    forall e
      ensures e in t <==> e in s
    {
      assert e in t <==> e in multiset(t);
      assert e in s <==> e in multiset(s);
    }
  }

  /** l_sort once the slots are there. */
  method SortWith(arr: array<Link>, l: Link, ghost a0: seq<Held>, ghost all: set<Link>, ghost s: seq<Link>)
    returns (last: nat, ghost t: seq<Link>)
    requires InUse(arr, l, a0, all) && Counter(a0, -1) && Holds(a0, all, s) && forall e :: e in s ==> e in all
    modifies all`next, all`prev
    ensures Sorted(t) && multiset(t) == multiset(s) && last < SLOTS
    ensures Ring(l, t, Nodes(l, s)) <==> s != []
    ensures s == [] ==> l.next == l && l.prev == arr[last]
  {
    hide Rings, Counter, Holds, Ring, Nodes;
    ghost var a := TakeAll(arr, l, a0, all, s);
    last, a := Gather(arr, l, a, all, s);
    Last(a, last);
    AllThere(a, all, last, s);
    Parts(a, all, SLOTS, last);
    Parts(a, all, last, SLOTS);
    t := a[last].items;
    Ends(l, a[SLOTS].items, a[SLOTS].nodes);
    Renamed(arr[last], l, t, a[last].nodes, s);
    Move(l, arr[last], t, a[last].nodes);
  }

  lemma Last(a: seq<Held>, last: nat)
    requires Gathered(a, last, SLOTS)
    ensures last < SLOTS
  {
  }

  /** l_sort. For an empty list the head is not left as one: its `prev` goes to a slot. */
  method Sort(l: Link, ghost s: seq<Link>, ghost r: set<Link>) returns (ghost t: seq<Link>)
    requires Ring(l, s, r)
    modifies r`next, r`prev
    ensures Sorted(t) && multiset(t) == multiset(s) && (Ring(l, t, r) <==> s != [])
    ensures s == [] ==> l.next == l && fresh(l.prev)
  {
    Ends(l, s, r);
    assert r == Nodes(l, s);
    var arr, a, all := Slots(l);
    ghost var x := Held(l, s, r);
    OneMore(a, all, x);
    Start(a, all + r, x);
    hide Rings, Counter, Holds, Nodes;
    var last;
    last, t := SortWith(arr, l, a + [x], all + r, s);
  }
}
