/**
 * The free lists of the allocator of src/dynmem.c in memory: circular lists through link words inside the free blocks,
 * with a table of list heads. Memory is a sequence of words. The heads are its first words; the links of a block follow
 * its length word.
 */
module TlsfLists {
  import opened TlsfClasses

  type Mem = seq<int>

  const HEAP := 2 * NUM_HEADS

  /** The listed blocks: address and length in words. */
  type Listed = map<int, nat>

  function Class(n: nat): (idx: int)
    requires 1 <= n && UNIT * n < LIMIT
    ensures ValidClass(idx)
  {
    IndexOf(UNIT * n);
    Indices(UNIT * n)
  }

  /** The address of the head of a list. */
  function Head(idx: int): (h: int)
    requires ValidClass(idx)
    ensures IsHead(h)
  {
    2 * ListOf(idx)
  }

  predicate IsHead(e: int) {
    0 <= e < HEAP && e % 2 == 0
  }

  /** The addresses of `struct list`s: the heads and the entries of the listed blocks. */
  predicate IsEntry(f: Listed, e: int) {
    IsHead(e) || e - 1 in f
  }

  predicate Fits(a: int, n: nat, len: nat) {
    HEAP <= a && 4 <= n && UNIT * n < LIMIT && a + n <= len
  }

  /** The blocks lie apart, behind the heads, and are long enough for their links. */
  predicate Spaced(f: Listed, len: nat) {
    && HEAP <= len
    && (forall a :: a in f ==> Fits(a, f[a], len))
    && (forall a, b :: a in f && b in f && a < b ==> a + f[a] <= b)
  }

  /** The head of the list for blocks of `n` words. */
  function HomeOf(n: nat): int {
    if 1 <= n && UNIT * n < LIMIT then Head(Class(n)) else -1
  }

  /** The head of the list an entry belongs to. */
  function Home(f: Listed, e: int): int {
    if IsHead(e) then e else if e - 1 in f then HomeOf(f[e - 1]) else -1
  }

  /** When each block was listed. */
  type Stamps = map<int, nat>

  /** Along a list the stamps fall: the blocks listed last come first. */
  predicate Earlier(stamp: Stamps, e: int, g: int) {
    IsHead(e) || IsHead(g) || (e - 1 in stamp && g - 1 in stamp && stamp[g - 1] < stamp[e - 1])
  }

  /** An entry and its neighbours. */
  predicate LinkOk(m: Mem, f: Listed, stamp: Stamps, e: int) {
    && 0 <= e < |m| - 1 && IsEntry(f, m[e]) && IsEntry(f, m[e + 1]) && 0 <= m[e] < |m| - 1 && 0 <= m[e + 1] < |m| - 1
    && m[m[e] + 1] == e && m[m[e + 1]] == e && Home(f, m[e]) == Home(f, e) == Home(f, m[e + 1]) && Earlier(stamp, e, m[e])
  }

  ghost predicate Linked(m: Mem, f: Listed, stamp: Stamps, now: nat) {
    && Spaced(f, |m|) && stamp.Keys == f.Keys && (forall a :: a in f ==> stamp[a] < now)
    && forall e {:trigger LinkOk(m, f, stamp, e)} :: IsEntry(f, e) ==> LinkOk(m, f, stamp, e)
  }

  /** l_ins */
  function Ins(m: Mem, prev: int, e: int): (r: Mem)
    requires 0 <= prev < |m| - 1 && 0 <= e < |m| - 1 && 0 <= m[prev] < |m| - 1
    ensures |r| == |m|
  {
    m[e := m[prev]][e + 1 := prev][prev := e][m[prev] + 1 := e]
  }

  /** l_rem */
  function Rem(m: Mem, e: int): (r: Mem)
    requires 0 <= e < |m| - 1 && 0 <= m[e] < |m| - 1 && 0 <= m[e + 1] < |m| - 1
    ensures |r| == |m|
  {
    m[m[e + 1] := m[e]][m[e] + 1 := m[e + 1]][e := e][e + 1 := e]
  }

  lemma EntryBounds(f: Listed, e: int, len: nat)
    requires Spaced(f, len) && IsEntry(f, e)
    ensures 0 <= e < len - 1 && (IsHead(e) <==> e < HEAP) && (e - 1 in f <==> !IsHead(e))
  {
  }

  /** Different entries have no word in common. */
  lemma EntriesApart(f: Listed, e: int, g: int, len: nat)
    requires Spaced(f, len) && IsEntry(f, e) && IsEntry(f, g)
    ensures e + 1 != g && g + 1 != e
  {
    if e - 1 in f && g - 1 in f {
      assert e - 1 < g - 1 ==> e - 1 + f[e - 1] <= g - 1;
      assert g - 1 < e - 1 ==> g - 1 + f[g - 1] <= e - 1;
    }
  }

  /** An entry stays one, of the same list. */
  predicate Kept(f: Listed, g: Listed, e: int) {
    IsEntry(f, e) && IsEntry(g, e) && Home(g, e) == Home(f, e)
  }

  /** The links of an entry between neighbours that are not touched stay as they are. */
  lemma SameLink(m: Mem, r: Mem, f: Listed, g: Listed, stamp: Stamps, st: Stamps, d: int)
    requires LinkOk(m, f, stamp, d) && |r| == |m| && r[d] == m[d] && r[d + 1] == m[d + 1]
    requires r[m[d] + 1] == d && r[m[d + 1]] == d
    requires Kept(f, g, d) && Kept(f, g, m[d]) && Kept(f, g, m[d + 1]) && Earlier(st, d, m[d])
    ensures LinkOk(r, g, st, d)
  {
  }

  lemma InsWord(m: Mem, prev: int, e: int, i: int)
    requires 0 <= prev < |m| - 1 && 0 <= e < |m| - 1 && 0 <= m[prev] < |m| - 1 && 0 <= i < |m|
    ensures Ins(m, prev, e)[i] ==
      if i == m[prev] + 1 || i == prev then e else if i == e + 1 then prev else if i == e then m[prev] else m[i]
  {
  }

  /** A block and its entry before it is listed. */
  predicate Unlisted(m: Mem, f: Listed, a: int, n: nat) {
    a !in f && Fits(a, n, |m|) && Spaced(f[a := n], |m|)
  }

  lemma ListedMore(f: Listed, a: int, n: nat, e: int, len: nat)
    requires IsEntry(f, e) && a !in f && Fits(a, n, len)
    ensures Kept(f, f[a := n], e) && e != a + 1
    ensures IsEntry(f[a := n], a + 1) && Home(f[a := n], a + 1) == HomeOf(n) && !IsHead(a + 1)
  {
  }

  /** An entry that is not one of the three has none of their words, nor they its. */
  lemma ThreeApart(f: Listed, len: nat, e: int, h: int, x: int, d: int)
    requires Spaced(f, len) && IsEntry(f, e) && IsEntry(f, h) && IsEntry(f, x) && IsEntry(f, d)
    ensures d + 1 !in {e, h, x} && d - 1 !in {e, h, x}
  {
    EntriesApart(f, e, d, len);
    EntriesApart(f, h, d, len);
    EntriesApart(f, x, d, len);
  }

  /** What is known around the place of an insertion: the head `h`, the entry `x` that was first, the new one `e`. */
  ghost predicate Place(m: Mem, f: Listed, stamp: Stamps, now: nat, a: int, n: nat, h: int) {
    && Linked(m, f, stamp, now) && Unlisted(m, f, a, n) && h == HomeOf(n) && IsHead(h) && LinkOk(m, f, stamp, h)
    && LinkOk(m, f, stamp, m[h]) && Home(f, h) == h
  }

  lemma InsHead(m: Mem, f: Listed, stamp: Stamps, now: nat, a: int, n: nat, h: int)
    requires Place(m, f, stamp, now, a, n, h)
    ensures LinkOk(Ins(m, h, a + 1), f[a := n], stamp[a := now], h)
  {
    hide Ins, Home, HomeOf, IsHead, Spaced, IsEntry, Linked;
    var e, g, x, y := a + 1, f[a := n], m[h], m[h + 1];
    var r := Ins(m, h, e);
    HeadEntry(f, g, h);
    ListedMore(f, a, n, h, |m|);
    ListedMore(f, a, n, x, |m|);
    ListedMore(f, a, n, y, |m|);
    LinkedSpaced(m, f, stamp, now);
    ThreeApart(g, |m|, e, h, x, h);
    ThreeApart(g, |m|, e, h, x, e);
    ThreeApart(g, |m|, e, h, x, y);
    EntryBounds(g, e, |m|);
    InsWord(m, h, e, h);
    InsWord(m, h, e, h + 1);
    InsWord(m, h, e, e);
    InsWord(m, h, e, e + 1);
    InsWord(m, h, e, y);
  }

  lemma HeadEntry(f: Listed, g: Listed, h: int)
    requires IsHead(h)
    ensures IsEntry(f, h) && IsEntry(g, h) && Home(f, h) == Home(g, h) == h
  {
  }

  lemma LinkedSpaced(m: Mem, f: Listed, stamp: Stamps, now: nat)
    requires Linked(m, f, stamp, now)
    ensures Spaced(f, |m|)
  {
  }

  lemma InsNew(m: Mem, f: Listed, stamp: Stamps, now: nat, a: int, n: nat, h: int)
    requires Place(m, f, stamp, now, a, n, h)
    ensures LinkOk(Ins(m, h, a + 1), f[a := n], stamp[a := now], a + 1)
  {
    hide Ins, Home, HomeOf, IsHead, Spaced, IsEntry, Linked;
    var e, g, x := a + 1, f[a := n], m[h];
    HeadEntry(f, g, h);
    ListedMore(f, a, n, h, |m|);
    ListedMore(f, a, n, x, |m|);
    LinkedSpaced(m, f, stamp, now);
    ThreeApart(g, |m|, e, h, x, h);
    ThreeApart(g, |m|, e, h, x, e);
    ThreeApart(g, |m|, e, h, x, x);
    EntryBounds(g, e, |m|);
    InsWord(m, h, e, h);
    InsWord(m, h, e, e);
    InsWord(m, h, e, e + 1);
    InsWord(m, h, e, x + 1);
    NewStamp(m, f, stamp, now, a, x);
  }

  /** The new block is the latest. */
  lemma NewStamp(m: Mem, f: Listed, stamp: Stamps, now: nat, a: int, x: int)
    requires Linked(m, f, stamp, now) && IsEntry(f, x) && a !in f
    ensures Earlier(stamp[a := now], a + 1, x)
    ensures forall e, g :: g != a + 1 && e != a + 1 && Earlier(stamp, e, g) ==> Earlier(stamp[a := now], e, g)
  {
  }

  lemma InsFirst(m: Mem, f: Listed, stamp: Stamps, now: nat, a: int, n: nat, h: int)
    requires Place(m, f, stamp, now, a, n, h) && m[h] != h
    ensures LinkOk(Ins(m, h, a + 1), f[a := n], stamp[a := now], m[h])
  {
    hide Ins, Home, HomeOf, IsHead, Spaced, IsEntry, Linked, Earlier;
    var e, g, x := a + 1, f[a := n], m[h];
    var z := m[x];
    HeadEntry(f, g, h);
    ListedMore(f, a, n, h, |m|);
    ListedMore(f, a, n, x, |m|);
    ListedMore(f, a, n, z, |m|);
    LinkedSpaced(m, f, stamp, now);
    ThreeApart(g, |m|, e, h, x, x);
    ThreeApart(g, |m|, e, h, x, e);
    ThreeApart(g, |m|, e, h, x, z);
    EntryBounds(g, e, |m|);
    InsWord(m, h, e, x);
    InsWord(m, h, e, x + 1);
    InsWord(m, h, e, e);
    InsWord(m, h, e, z + 1);
    NewStamp(m, f, stamp, now, a, x);
  }

  lemma InsOther(m: Mem, f: Listed, stamp: Stamps, now: nat, a: int, n: nat, h: int, d: int)
    requires Place(m, f, stamp, now, a, n, h) && IsEntry(f, d) && d != h && d != m[h]
    ensures LinkOk(Ins(m, h, a + 1), f[a := n], stamp[a := now], d)
  {
    hide Ins, Home, HomeOf, IsHead, Spaced, IsEntry, Earlier;
    assert LinkOk(m, f, stamp, d);
    hide Linked;
    var e, g, x, y, z := a + 1, f[a := n], m[h], m[d], m[d + 1];
    HeadEntry(f, g, h);
    ListedMore(f, a, n, h, |m|);
    ListedMore(f, a, n, x, |m|);
    ListedMore(f, a, n, d, |m|);
    ListedMore(f, a, n, y, |m|);
    ListedMore(f, a, n, z, |m|);
    LinkedSpaced(m, f, stamp, now);
    ThreeApart(g, |m|, e, h, x, d);
    ThreeApart(g, |m|, e, h, x, y);
    ThreeApart(g, |m|, e, h, x, z);
    EntryBounds(g, e, |m|);
    InsWord(m, h, e, d);
    InsWord(m, h, e, d + 1);
    InsWord(m, h, e, y + 1);
    InsWord(m, h, e, z);
    NewStamp(m, f, stamp, now, a, h);
    SameLink(m, Ins(m, h, e), f, g, stamp, stamp[a := now], d);
  }

  /** A new block goes to the front of the list of its class. */
  lemma InsLinked(m: Mem, f: Listed, stamp: Stamps, now: nat, a: int, n: nat)
    requires Linked(m, f, stamp, now) && Unlisted(m, f, a, n)
    ensures var h := HomeOf(n);
            && IsHead(h) && h < |m| - 1 && 0 <= m[h] < |m| - 1
            && Linked(Ins(m, h, a + 1), f[a := n], stamp[a := now], now + 1)
  {
    hide Ins, Home;
    var h, g, st := HomeOf(n), f[a := n], stamp[a := now];
    HeadEntry(f, g, h);
    assert LinkOk(m, f, stamp, h);
    assert LinkOk(m, f, stamp, m[h]);
    var r := Ins(m, h, a + 1);
    forall d | IsEntry(g, d)
      ensures LinkOk(r, g, st, d)
    {
      if d == a + 1 {
        InsNew(m, f, stamp, now, a, n, h);
      } else if d == h {
        InsHead(m, f, stamp, now, a, n, h);
      } else if d == m[h] {
        InsFirst(m, f, stamp, now, a, n, h);
      } else {
        InsOther(m, f, stamp, now, a, n, h, d);
      }
    }
  }

  // ----- l_rem -----

  lemma RemWord(m: Mem, e: int, i: int)
    requires 0 <= e < |m| - 1 && 0 <= m[e] < |m| - 1 && 0 <= m[e + 1] < |m| - 1 && 0 <= i < |m|
    ensures Rem(m, e)[i] == if i == e || i == e + 1 then e else if i == m[e] + 1 then m[e + 1] else if i == m[e + 1] then m[e] else m[i]
  {
  }

  lemma ListedLess(f: Listed, a: int, e: int, len: nat)
    requires IsEntry(f, e) && a in f && Spaced(f, len) && e != a + 1
    ensures Kept(f, f - {a}, e)
  {
  }

  /** The block taken out, with its neighbours. */
  ghost predicate Taken(m: Mem, f: Listed, stamp: Stamps, now: nat, a: int) {
    && 0 <= a < |m| - 2 && 0 <= m[a + 1] < |m| - 1 && 0 <= m[a + 2] < |m| - 1
    && Linked(m, f, stamp, now) && a in f && IsEntry(f, a + 1) && LinkOk(m, f, stamp, a + 1)
    && LinkOk(m, f, stamp, m[a + 1]) && LinkOk(m, f, stamp, m[a + 2]) && m[a + 1] != a + 1 && m[a + 2] != a + 1
  }

  lemma TakenOf(m: Mem, f: Listed, stamp: Stamps, now: nat, a: int)
    requires Linked(m, f, stamp, now) && a in f
    ensures Taken(m, f, stamp, now, a)
  {
    hide Home;
    assert IsEntry(f, a + 1);
    assert LinkOk(m, f, stamp, a + 1);
    var n, p := m[a + 1], m[a + 2];
    assert LinkOk(m, f, stamp, n);
    assert LinkOk(m, f, stamp, p);
    EntryBounds(f, a + 1, |m|);
    NotItself(stamp, a + 1);
  }

  lemma NotItself(stamp: Stamps, e: int)
    requires !IsHead(e)
    ensures !Earlier(stamp, e, e)
  {
  }

  lemma EarlierPast(f: Listed, stamp: Stamps, a: int, p: int, n: int, len: nat)
    requires Spaced(f, len) && a in f && Earlier(stamp, p, a + 1) && Earlier(stamp, a + 1, n) && p != a + 1 && n != a + 1
    ensures Earlier(stamp - {a}, p, n)
    ensures forall e, g :: g != a + 1 && e != a + 1 && Earlier(stamp, e, g) ==> Earlier(stamp - {a}, e, g)
  {
  }

  lemma RemBefore(m: Mem, r: Mem, f: Listed, stamp: Stamps, now: nat, a: int)
    requires 0 <= a < |m| - 2 && 0 <= m[a + 1] < |m| - 1 && 0 <= m[a + 2] < |m| - 1 && r == Rem(m, a + 1)
    requires Taken(m, f, stamp, now, a)
    ensures LinkOk(r, f - {a}, stamp - {a}, m[a + 2])
  {
    hide Rem, Home, IsHead, Spaced, IsEntry, Linked, Earlier;
    var e, g, n, p := a + 1, f - {a}, m[a + 1], m[a + 2];
    var y := m[p + 1];
    LinkedSpaced(m, f, stamp, now);
    ListedLess(f, a, n, |m|);
    ListedLess(f, a, p, |m|);
    if y != e { ListedLess(f, a, y, |m|); }
    ThreeApart(f, |m|, e, n, p, e);
    ThreeApart(f, |m|, e, n, p, n);
    ThreeApart(f, |m|, e, n, p, p);
    ThreeApart(f, |m|, e, n, p, y);
    RemWord(m, e, p);
    RemWord(m, e, p + 1);
    RemWord(m, e, n + 1);
    RemWord(m, e, y);
    EarlierPast(f, stamp, a, p, n, |m|);
  }

  lemma RemAfter(m: Mem, r: Mem, f: Listed, stamp: Stamps, now: nat, a: int)
    requires 0 <= a < |m| - 2 && 0 <= m[a + 1] < |m| - 1 && 0 <= m[a + 2] < |m| - 1 && r == Rem(m, a + 1)
    requires Taken(m, f, stamp, now, a) && m[a + 1] != m[a + 2]
    ensures LinkOk(r, f - {a}, stamp - {a}, m[a + 1])
  {
    hide Rem, Home, IsHead, Spaced, IsEntry, Linked, Earlier;
    var e, g, n, p := a + 1, f - {a}, m[a + 1], m[a + 2];
    var z := m[n];
    LinkedSpaced(m, f, stamp, now);
    ListedLess(f, a, n, |m|);
    ListedLess(f, a, p, |m|);
    ListedLess(f, a, z, |m|);
    ThreeApart(f, |m|, e, n, p, e);
    ThreeApart(f, |m|, e, n, p, n);
    ThreeApart(f, |m|, e, n, p, p);
    ThreeApart(f, |m|, e, n, p, z);
    RemWord(m, e, n);
    RemWord(m, e, n + 1);
    RemWord(m, e, p);
    RemWord(m, e, z + 1);
    EarlierPast(f, stamp, a, p, n, |m|);
  }

  lemma RemOther(m: Mem, r: Mem, f: Listed, stamp: Stamps, now: nat, a: int, d: int)
    requires 0 <= a < |m| - 2 && 0 <= m[a + 1] < |m| - 1 && 0 <= m[a + 2] < |m| - 1 && r == Rem(m, a + 1)
    requires Taken(m, f, stamp, now, a) && IsEntry(f, d) && d != a + 1 && d != m[a + 1] && d != m[a + 2]
    ensures LinkOk(r, f - {a}, stamp - {a}, d)
  {
    hide Rem, Home, IsHead, Spaced, IsEntry, Earlier;
    assert LinkOk(m, f, stamp, d);
    hide Linked;
    var e, g, n, p, y, z := a + 1, f - {a}, m[a + 1], m[a + 2], m[d], m[d + 1];
    LinkedSpaced(m, f, stamp, now);
    ListedLess(f, a, d, |m|);
    ListedLess(f, a, y, |m|);
    ListedLess(f, a, z, |m|);
    ThreeApart(f, |m|, e, n, p, d);
    ThreeApart(f, |m|, e, n, p, y);
    ThreeApart(f, |m|, e, n, p, z);
    RemWord(m, e, d);
    RemWord(m, e, d + 1);
    RemWord(m, e, y + 1);
    RemWord(m, e, z);
    EarlierPast(f, stamp, a, p, n, |m|);
    SameLink(m, r, f, g, stamp, stamp - {a}, d);
  }

  /** A block leaves its list. */
  lemma RemLinked(m: Mem, f: Listed, stamp: Stamps, now: nat, a: int)
    requires Linked(m, f, stamp, now) && a in f
    ensures 0 <= a + 1 < |m| - 1 && 0 <= m[a + 1] < |m| - 1 && 0 <= m[a + 2] < |m| - 1
    ensures Linked(Rem(m, a + 1), f - {a}, stamp - {a}, now)
  {
    hide Rem, Home;
    TakenOf(m, f, stamp, now, a);
    var r, g, st := Rem(m, a + 1), f - {a}, stamp - {a};
    forall d | IsEntry(g, d)
      ensures LinkOk(r, g, st, d)
    {
      if d == m[a + 2] {
        RemBefore(m, r, f, stamp, now, a);
      } else if d == m[a + 1] {
        RemAfter(m, r, f, stamp, now, a);
      } else {
        RemOther(m, r, f, stamp, now, a, d);
      }
    }
  }

  // ----- what the lists hold -----

  /** The entry `k` links after `e`. */
  function Nth(m: Mem, e: int, k: nat): int
    decreases k
  {
    if k == 0 then e else if 0 <= e < |m| then Nth(m, m[e], k - 1) else e
  }

  lemma {:induction false} NthNext(m: Mem, e: int, k: nat)
    requires 0 <= Nth(m, e, k) < |m|
    ensures Nth(m, e, k + 1) == m[Nth(m, e, k)]
    decreases k
  {
    if k > 0 && 0 <= e < |m| { NthNext(m, m[e], k - 1); }
  }

  /** Every listed block is reached from the head of the list of its size. */
  lemma {:induction false} InItsList(m: Mem, f: Listed, stamp: Stamps, now: nat, a: int) returns (k: nat)
    requires Linked(m, f, stamp, now) && a in f
    ensures IsHead(HomeOf(f[a])) && Nth(m, HomeOf(f[a]), k) == a + 1
    decreases now - stamp[a]
  {
    hide Nth, HomeOf;
    TakenOf(m, f, stamp, now, a);
    var p := m[a + 2];
    EntryBounds(f, a + 1, |m|);
    BlockHome(f, a, |m|);
    if IsHead(p) {
      HeadEntry(f, f, p);
      NthNext(m, p, 0) by { NthZero(m, p); }
      NthZero(m, p);
      k := 1;
    } else {
      EntryBounds(f, p, |m|);
      BlockHome(f, p - 1, |m|);
      var j := InItsList(m, f, stamp, now, p - 1);
      NthNext(m, HomeOf(f[a]), j);
      k := j + 1;
    }
  }

  /** The first block of a list has been listed last. */
  lemma {:induction false} FirstNewest(m: Mem, f: Listed, stamp: Stamps, now: nat, h: int, a: int)
    requires Linked(m, f, stamp, now) && a in f && HomeOf(f[a]) == h
    ensures 0 <= h < |m| && m[h] - 1 in stamp && a in stamp && stamp[a] <= stamp[m[h] - 1]
    decreases now - stamp[a]
  {
    hide HomeOf;
    TakenOf(m, f, stamp, now, a);
    var p := m[a + 2];
    EntryBounds(f, a + 1, |m|);
    BlockHome(f, a, |m|);
    if IsHead(p) {
      HeadEntry(f, f, p);
    } else {
      EntryBounds(f, p, |m|);
      BlockHome(f, p - 1, |m|);
      FirstNewest(m, f, stamp, now, h, p - 1);
    }
  }

  lemma NthZero(m: Mem, e: int)
    ensures Nth(m, e, 0) == e
  {
  }

  lemma BlockHome(f: Listed, a: int, len: nat)
    requires Spaced(f, len) && a in f
    ensures Home(f, a + 1) == HomeOf(f[a]) && IsHead(HomeOf(f[a])) && !IsHead(a + 1)
  {
  }

  /** And no list has an entry of another: what is reached from a head belongs to it. */
  lemma {:induction false} OnlyItsList(m: Mem, f: Listed, stamp: Stamps, now: nat, e: int, k: nat)
    requires Linked(m, f, stamp, now) && IsEntry(f, e)
    ensures IsEntry(f, Nth(m, e, k)) && Home(f, Nth(m, e, k)) == Home(f, e)
    decreases k
  {
    hide Home;
    assert LinkOk(m, f, stamp, e);
    if k > 0 { OnlyItsList(m, f, stamp, now, m[e], k - 1); }
  }

  /** A list has an entry. */
  predicate Busy(m: Mem, idx: int) {
    HEAP <= |m| && ValidClass(idx) && m[Head(idx)] != Head(idx)
  }

  lemma SameHead(n: nat, idx: int)
    requires 1 <= n && UNIT * n < LIMIT && ValidClass(idx)
    ensures HomeOf(n) == Head(idx) <==> Class(n) == idx
  {
    ListsDiffer(Class(n), idx);
  }

  /** The first block of a list has the class of the list. */
  lemma FirstOf(m: Mem, f: Listed, stamp: Stamps, now: nat, idx: int)
    requires Linked(m, f, stamp, now) && Busy(m, idx)
    ensures var a := m[Head(idx)] - 1; a in f && 4 <= f[a] && UNIT * f[a] < LIMIT && Class(f[a]) == idx
  {
    hide Home, HomeOf, Class;
    var h := Head(idx);
    HeadEntry(f, f, h);
    assert LinkOk(m, f, stamp, h);
    var e := m[h];
    HeadEntry(f, f, if IsHead(e) then e else h);
    EntryBounds(f, e, |m|);
    BlockHome(f, e - 1, |m|);
    SameHead(f[e - 1], idx);
  }

  /** A list is empty exactly when no listed block has its class. */
  lemma BusyIff(m: Mem, f: Listed, stamp: Stamps, now: nat, idx: int)
    requires Linked(m, f, stamp, now) && ValidClass(idx)
    ensures Busy(m, idx) <==> exists a :: a in f && HomeOf(f[a]) == Head(idx)
  {
    hide Home, HomeOf;
    HeadEntry(f, f, Head(idx));
    if Busy(m, idx) {
      FirstOf(m, f, stamp, now, idx);
      SameHead(f[m[Head(idx)] - 1], idx);
    }
    if a :| a in f && HomeOf(f[a]) == Head(idx) {
      var k := InItsList(m, f, stamp, now, a);
      BlockHome(f, a, |m|);
      if m[Head(idx)] == Head(idx) { NthLoop(m, Head(idx), k); }
    }
  }

  lemma {:induction false} NthLoop(m: Mem, h: int, k: nat)
    requires 0 <= h < |m| && m[h] == h
    ensures Nth(m, h, k) == h
  {
    if k > 0 { NthLoop(m, h, k - 1); }
  }
}
