/** How the lists, the bitmaps and the blocks of the allocator of src/dynmem.c hang together. */
module TlsfState {
  import opened TlsfClasses
  import opened TlsfLists
  import opened TlsfBlocks

  // ----- the bitmaps -----

  /** A 64-bit word, lowest bit first. */
  type Word = seq<bool>

  /** The word is zero. */
  predicate IsZero(w: Word) {
    forall i :: 0 <= i < |w| ==> !w[i]
  }

  predicate IsWord(w: Word) {
    |w| == SZ_BITS
  }

  /** The bit of a list is on when the list is not empty, and the bit of a row when one of its lists is not. */
  ghost predicate Bits(m: Mem, l1bm: Word, l2bm: seq<Word>) {
    && IsWord(l1bm) && |l2bm| == NUM_L2 && (forall l1 :: 0 <= l1 < NUM_L2 ==> IsWord(l2bm[l1]))
    && (forall l1, l2 {:trigger l2bm[l1][l2]} :: 0 <= l1 < NUM_L2 && 0 <= l2 < SZ_BITS ==>
          (l2bm[l1][l2] <==> Busy(m, l1 * 256 + l2)))
    && (forall l1 :: 0 <= l1 < SZ_BITS ==> (l1bm[l1] <==> l1 < NUM_L2 && !IsZero(l2bm[l1])))
  }

  /** Two states of memory differ in no list but one as far as emptiness goes. */
  ghost predicate SameBusy(m: Mem, r: Mem, but: int) {
    forall k :: k != but ==> (Busy(r, k) <==> Busy(m, k))
  }

  /** One bit of one row changes with the list it stands for. */
  lemma RowBits(m: Mem, r: Mem, l1bm: Word, l2bm: seq<Word>, l1: nat, l2: nat, on: bool)
    requires Bits(m, l1bm, l2bm) && l1 < NUM_L2 && l2 < SZ_BITS
    requires SameBusy(m, r, l1 * 256 + l2) && (Busy(r, l1 * 256 + l2) <==> on)
    ensures var rows := l2bm[l1 := l2bm[l1][l2 := on]];
            Bits(r, l1bm[l1 := !IsZero(rows[l1])], rows)
  {
  }

  /** tlsf_ins_blk: both bits are set. */
  lemma BitsSet(m: Mem, r: Mem, l1bm: Word, l2bm: seq<Word>, l1: nat, l2: nat)
    requires Bits(m, l1bm, l2bm) && l1 < NUM_L2 && l2 < SZ_BITS
    requires SameBusy(m, r, l1 * 256 + l2) && Busy(r, l1 * 256 + l2)
    ensures Bits(r, l1bm[l1 := true], l2bm[l1 := l2bm[l1][l2 := true]])
  {
    hide Busy, SameBusy;
    RowBits(m, r, l1bm, l2bm, l1, l2, true);
    hide Bits;
    assert l2bm[l1][l2 := true][l2];
  }

  /** tlsf_rem_blk: the bit of an empty list goes off, and the bit of a row without lists. */
  lemma BitsClear(m: Mem, r: Mem, l1bm: Word, l2bm: seq<Word>, l1: nat, l2: nat)
    requires Bits(m, l1bm, l2bm) && l1 < NUM_L2 && l2 < SZ_BITS
    requires SameBusy(m, r, l1 * 256 + l2) && Busy(m, l1 * 256 + l2)
    ensures Busy(r, l1 * 256 + l2) ==> Bits(r, l1bm, l2bm)
    ensures !Busy(r, l1 * 256 + l2) ==>
      var row := l2bm[l1][l2 := false];
      Bits(r, if IsZero(row) then l1bm[l1 := false] else l1bm, l2bm[l1 := row])
  {
    hide Busy, SameBusy;
    RowBits(m, r, l1bm, l2bm, l1, l2, Busy(r, l1 * 256 + l2));
    assert l2bm[l1][l2] && l1bm[l1];
    assert l2bm[l1][l2 := true] == l2bm[l1] && l2bm[l1 := l2bm[l1]] == l2bm && l1bm[l1 := true] == l1bm;
  }

  // ----- list operations leave the blocks alone -----

  lemma ListingSpaced(m: Mem, b: Blocks, pools: Pools)
    requires Heap(m, b, pools) && HEAP <= |m|
    ensures Spaced(Listing(b), |m|)
  {
    hide PoolsOk;
    forall a | a in Listing(b)
      ensures Fits(a, Listing(b)[a], |m|)
    {
      assert BlkOk(m, b, a);
    }
  }

  lemma HeldUnlisted(m: Mem, b: Blocks, pools: Pools, a: int)
    requires Heap(m, b, pools) && HEAP <= |m| && a in b && b[a].kind == Held && 4 <= b[a].size
    ensures Unlisted(m, Listing(b), a, b[a].size)
  {
    hide PoolsOk;
    assert BlkOk(m, b, a);
    var f := Listing(b)[a := b[a].size];
    forall c | c in f
      ensures Fits(c, f[c], |m|)
    {
      assert BlkOk(m, b, c);
    }
  }

  /** A block with room for its links that nobody uses. */
  predicate Linkable(b: Blocks, a: int) {
    a in b && Open(b[a].kind) && 4 <= b[a].size
  }

  /** Where memory may differ after a list operation on the block at `a`. */
  ghost predicate ListWrites(m: Mem, r: Mem, b: Blocks, a: int) {
    |r| == |m| && forall i :: HEAP <= i < |m| && r[i] != m[i] ==> exists x :: Linkable(b, x) && (i == x + 1 || i == x + 2)
  }

  lemma ListKeeps(m: Mem, r: Mem, b: Blocks, pools: Pools, a: int)
    requires Heap(m, b, pools) && ListWrites(m, r, b, a)
    ensures Heap(r, b, pools) && Untouched(m, r, b, -1)
  {
    hide Heap;
    forall u | u in b && HEAP <= u && 1 <= b[u].size && u + b[u].size <= |m|
      ensures r[u] == m[u] && r[u + b[u].size - 1] == m[u + b[u].size - 1]
    {
      if r[u] != m[u] { NotLink(m, b, pools, u, u); }
      if r[u + b[u].size - 1] != m[u + b[u].size - 1] { NotLink(m, b, pools, u, u + b[u].size - 1); }
    }
    TagsFrame(m, r, b, pools);
    forall u, i {:trigger b[u], r[i]} | u in b && Other(u, -1) && b[u].kind == Used && HEAP <= u < i < u + b[u].size <= |m|
      ensures r[i] == m[i]
    {
      if r[i] != m[i] { NotLink(m, b, pools, u, i); }
    }
  }

  lemma NotLink(m: Mem, b: Blocks, pools: Pools, u: int, i: int)
    requires Heap(m, b, pools) && u in b && (i == u || i == u + b[u].size - 1 || (b[u].kind == Used && u <= i < u + b[u].size))
    ensures !exists x :: Linkable(b, x) && (i == x + 1 || i == x + 2)
  {
  }

  /** An entry of the lists belongs to a head or to a free block. */
  lemma EntryOf(b: Blocks, e: int)
    requires IsEntry(Listing(b), e)
    ensures IsHead(e) || (e - 1 in b && b[e - 1].kind == Free)
    ensures IsHead(e) ==> e + 1 < HEAP
  {
  }

  lemma FreeLinkable(m: Mem, b: Blocks, pools: Pools, e: int)
    requires Heap(m, b, pools) && IsEntry(Listing(b), e)
    ensures IsHead(e) || Linkable(b, e - 1)
    ensures IsHead(e) ==> e + 1 < HEAP
  {
    hide Heap;
    EntryOf(b, e);
    if !IsHead(e) { BlkAt(m, b, pools, e - 1); }
  }

  lemma InsWrites(m: Mem, b: Blocks, pools: Pools, h: int, a: int)
    requires Heap(m, b, pools)
    requires HEAP <= |m| && IsHead(h) && h < |m| - 1 && 0 <= m[h] < |m| - 1 && IsEntry(Listing(b), m[h])
    requires Linkable(b, a) && 0 <= a < |m| - 2
    ensures ListWrites(m, Ins(m, h, a + 1), b, a)
  {
    hide Ins, Heap;
    FreeLinkable(m, b, pools, m[h]);
    forall i | HEAP <= i < |m|
      ensures Ins(m, h, a + 1)[i] != m[i] ==> exists x :: Linkable(b, x) && (i == x + 1 || i == x + 2)
    {
      InsWord(m, h, a + 1, i);
      if i == m[h] + 1 { assert i == (m[h] - 1) + 2; }
    }
  }

  lemma RemWrites(m: Mem, b: Blocks, pools: Pools, a: int)
    requires Heap(m, b, pools)
    requires HEAP <= |m| && a in b && b[a].kind == Free && 0 <= a < |m| - 2
    requires 0 <= m[a + 1] < |m| - 1 && 0 <= m[a + 2] < |m| - 1 && IsEntry(Listing(b), m[a + 1]) && IsEntry(Listing(b), m[a + 2])
    ensures ListWrites(m, Rem(m, a + 1), b, a)
  {
    hide Rem, Heap;
    FreeLinkable(m, b, pools, m[a + 1]);
    FreeLinkable(m, b, pools, m[a + 2]);
    BlkAt(m, b, pools, a);
    forall i | HEAP <= i < |m|
      ensures Rem(m, a + 1)[i] != m[i] ==> exists x :: Linkable(b, x) && (i == x + 1 || i == x + 2)
    {
      RemWord(m, a + 1, i);
      var x := if i == a + 1 || i == a + 2 then a else if i == m[a + 1] + 1 then m[a + 1] - 1 else m[a + 2] - 1;
      if Rem(m, a + 1)[i] != m[i] { assert Linkable(b, x); }
    }
  }

  // ----- tag operations leave the lists alone -----

  lemma LinksFrame(m: Mem, r: Mem, b: Blocks, pools: Pools, stamp: Stamps, now: nat)
    requires Heap(m, b, pools) && HEAP <= |m| && Linked(m, Listing(b), stamp, now) && LinksKept(m, r, b)
    ensures Linked(r, Listing(b), stamp, now)
  {
    hide Heap, Home;
    var f := Listing(b);
    forall e | IsEntry(f, e)
      ensures LinkOk(r, f, stamp, e)
    {
      assert LinkOk(m, f, stamp, e);
      EntryWords(m, r, b, e);
      EntryWords(m, r, b, m[e]);
      EntryWords(m, r, b, m[e + 1]);
    }
  }

  lemma EntryWords(m: Mem, r: Mem, b: Blocks, e: int)
    requires LinksKept(m, r, b) && IsEntry(Listing(b), e) && 0 <= e < |m| - 1 && HEAP <= |m|
    ensures r[e] == m[e] && r[e + 1] == m[e + 1]
  {
  }

  lemma BitsFrame(m: Mem, r: Mem, b: Blocks, l1bm: Word, l2bm: seq<Word>)
    requires HEAP <= |m| && Bits(m, l1bm, l2bm) && LinksKept(m, r, b)
    ensures Bits(r, l1bm, l2bm)
  {
  }

  // ----- the bits after a list operation -----

  lemma InsBusy(m: Mem, h: int, e: int, idx: int)
    requires HEAP <= |m| && ValidClass(idx) && h == Head(idx) && HEAP <= e < |m| - 1 && 0 <= m[h] < |m| - 1
    requires IsHead(m[h]) || HEAP <= m[h]
    ensures SameBusy(m, Ins(m, h, e), idx) && Busy(Ins(m, h, e), idx)
  {
    hide Ins, Head, Busy;
    var r := Ins(m, h, e);
    InsWord(m, h, e, h);
    ListsApart(idx, -1);
    BusyAt(r, idx);
    forall k | k != idx
      ensures Busy(r, k) <==> Busy(m, k)
    {
      BusyAt(r, k);
      BusyAt(m, k);
      if ValidClass(k) {
        ListsApart(k, idx);
        InsWord(m, h, e, Head(k));
      }
    }
  }

  lemma BusyAt(m: Mem, k: int)
    requires HEAP <= |m|
    ensures Busy(m, k) <==> ValidClass(k) && m[Head(k)] != Head(k)
  {
  }

  /** The heads of different lists have no word in common. */
  lemma ListsApart(j: int, k: int)
    requires ValidClass(j) && j != k
    ensures Head(j) < HEAP - 1
    ensures ValidClass(k) ==> Head(j) != Head(k) && Head(j) != Head(k) + 1 && Head(j) + 1 != Head(k) && Head(k) < HEAP - 1
  {
    if ValidClass(k) { ListsDiffer(j, k); }
  }

  lemma RemBusy(m: Mem, e: int, h: int, idx: int)
    requires HEAP <= |m| && ValidClass(idx) && h == Head(idx) && HEAP <= e < |m| - 1 && 0 <= m[e] < |m| - 1 && 0 <= m[e + 1] < |m| - 1
    requires IsHead(m[e]) || HEAP <= m[e]
    requires m[e + 1] == h || HEAP <= m[e + 1]
    ensures SameBusy(m, Rem(m, e), idx)
  {
    hide Rem, Head, Busy;
    var r := Rem(m, e);
    forall k | k != idx
      ensures Busy(r, k) <==> Busy(m, k)
    {
      BusyAt(r, k);
      BusyAt(m, k);
      if ValidClass(k) {
        ListsApart(k, idx);
        RemWord(m, e, Head(k));
      }
    }
  }

  // ----- the state -----

  /** Everything that holds between the steps of an operation. */
  ghost predicate Inv(m: Mem, b: Blocks, pools: Pools, stamp: Stamps, now: nat, l1bm: Word, l2bm: seq<Word>) {
    HEAP <= |m| && Heap(m, b, pools) && Linked(m, Listing(b), stamp, now) && Bits(m, l1bm, l2bm)
  }

  /** Length words change, and the free blocks are the same ones. */
  lemma TagStep(m: Mem, r: Mem, b: Blocks, b2: Blocks, pools: Pools, stamp: Stamps, now: nat, l1bm: Word, l2bm: seq<Word>)
    requires Inv(m, b, pools, stamp, now, l1bm, l2bm) && Heap(r, b2, pools) && LinksKept(m, r, b) && Listing(b2) == Listing(b)
    ensures Inv(r, b2, pools, stamp, now, l1bm, l2bm)
  {
    hide Heap, Linked, Bits, LinksKept;
    LinksFrame(m, r, b, pools, stamp, now);
    BitsFrame(m, r, b, l1bm, l2bm);
    assert |r| == |m| by { KeptLength(m, r, b); }
  }

  lemma KeptLength(m: Mem, r: Mem, b: Blocks)
    requires LinksKept(m, r, b)
    ensures |r| == |m|
  {
  }

  lemma ListingGive(b: Blocks, a: int)
    requires a in b && b[a].kind == Held
    ensures Listing(b[a := b[a].(kind := Free)]) == Listing(b)[a := b[a].size]
  {
  }

  lemma ListingTake(b: Blocks, a: int)
    requires a in b && b[a].kind == Free
    ensures Listing(b[a := b[a].(kind := Held)]) == Listing(b) - {a} && a in Listing(b) && Listing(b)[a] == b[a].size
  {
  }

  /** The neighbours of the head of a list, or of a listed block. */
  lemma EntryLinks(m: Mem, f: Listed, stamp: Stamps, now: nat, e: int)
    requires Linked(m, f, stamp, now) && IsEntry(f, e)
    ensures 0 <= e < |m| - 1 && 0 <= m[e] < |m| - 1 && 0 <= m[e + 1] < |m| - 1 && IsEntry(f, m[e]) && IsEntry(f, m[e + 1])
    ensures (IsHead(m[e]) || HEAP <= m[e]) && (IsHead(m[e + 1]) || HEAP <= m[e + 1])
    ensures Home(f, m[e + 1]) == Home(f, e) && m[m[e + 1]] == e
  {
    hide Home;
    assert LinkOk(m, f, stamp, e);
    EntryBounds(f, m[e], |m|);
    EntryBounds(f, m[e + 1], |m|);
  }

  predicate ClassIs(n: nat, l1: nat, l2: nat) {
    4 <= n && UNIT * n < LIMIT && l2 < 256 && Class(n) == l1 * 256 + l2
  }

  lemma ClassRow(n: nat, l1: nat, l2: nat)
    requires ClassIs(n, l1, l2)
    ensures 4 <= n && ValidClass(l1 * 256 + l2) && l1 < NUM_L2 && l2 < Lists(l1) <= SZ_BITS && HomeOf(n) == Head(l1 * 256 + l2)
  {
    ListsBound(l1);
    Unpack(l1, l2);
  }

  /** tlsf_ins_blk: a held block is listed and so becomes free. */
  lemma InsStep(m: Mem, b: Blocks, pools: Pools, stamp: Stamps, now: nat, l1bm: Word, l2bm: seq<Word>, a: int, l1: nat, l2: nat)
    requires Inv(m, b, pools, stamp, now, l1bm, l2bm) && a in b && b[a].kind == Held && b[a].prev && ClassIs(b[a].size, l1, l2)
    requires a + b[a].size in b ==> !b[a + b[a].size].prev && !Open(b[a + b[a].size].kind)
    ensures ValidClass(l1 * 256 + l2) && l1 < |l2bm| && l1 < |l1bm| && l2 < |l2bm[l1]|
    ensures var h := Head(l1 * 256 + l2);
            && 0 <= h < |m| - 1 && 0 <= m[h] < |m| - 1 && HEAP <= a < |m| - 2
            && (var r := Ins(m, h, a + 1);
                && Inv(r, b[a := b[a].(kind := Free)], pools, stamp[a := now], now + 1, l1bm[l1 := true], l2bm[l1 := l2bm[l1][l2 := true]])
                && Untouched(m, r, b, -1))
  {
    hide Heap, Linked, HomeOf, Home, ClassIs, Listing, Ins;
    ClassRow(b[a].size, l1, l2);
    var h, f := Head(l1 * 256 + l2), Listing(b);
    HeldUnlisted(m, b, pools, a);
    HeadEntry(f, f, h);
    EntryLinks(m, f, stamp, now, h);
    BlkAt(m, b, pools, a);
    InsLinked(m, f, stamp, now, a, b[a].size);
    var r := Ins(m, h, a + 1);
    InsWrites(m, b, pools, h, a);
    ListKeeps(m, r, b, pools, a);
    Give(r, b, pools, a);
    ListingGive(b, a);
    InsBusy(m, h, a + 1, l1 * 256 + l2);
    BitsSet(m, r, l1bm, l2bm, l1, l2);
  }

  /** tlsf_rem_blk: a free block is held. */
  lemma RemStep(m: Mem, b: Blocks, pools: Pools, stamp: Stamps, now: nat, l1bm: Word, l2bm: seq<Word>, a: int, l1: nat, l2: nat)
    requires Inv(m, b, pools, stamp, now, l1bm, l2bm) && a in b && b[a].kind == Free && ClassIs(b[a].size, l1, l2)
    ensures ValidClass(l1 * 256 + l2) && l1 < |l2bm| && l1 < |l1bm| && l2 < |l2bm[l1]|
    ensures HEAP <= a < |m| - 2 && 0 <= m[a + 1] < |m| - 1 && 0 <= m[a + 2] < |m| - 1
    ensures var r := Rem(m, a + 1);
            var row := l2bm[l1][l2 := false];
            var empty := !Busy(r, l1 * 256 + l2);
            && Inv(r, b[a := b[a].(kind := Held)], pools, stamp - {a}, now,
                   if empty && IsZero(row) then l1bm[l1 := false] else l1bm, if empty then l2bm[l1 := row] else l2bm)
            && Untouched(m, r, b, -1)
  {
    hide Heap, Linked, HomeOf, Home, ClassIs, Listing, Rem, Busy;
    ClassRow(b[a].size, l1, l2);
    var h, f := Head(l1 * 256 + l2), Listing(b);
    ListingTake(b, a);
    ListingSpaced(m, b, pools);
    BlockHome(f, a, |m|);
    assert IsEntry(f, a + 1);
    EntryLinks(m, f, stamp, now, a + 1);
    BlkAt(m, b, pools, a);
    RemLinked(m, f, stamp, now, a);
    var r := Rem(m, a + 1);
    RemWrites(m, b, pools, a);
    ListKeeps(m, r, b, pools, a);
    Take(r, b, pools, a);
    HomeIs(f, m[a + 2], h);
    RemBusy(m, a + 1, h, l1 * 256 + l2);
    BusyOf(m, f, stamp, now, a, l1 * 256 + l2);
    BitsClear(m, r, l1bm, l2bm, l1, l2);
  }

  lemma HomeIs(f: Listed, e: int, h: int)
    requires IsHead(e) ==> Home(f, e) == h
    ensures IsHead(e) ==> e == h
  {
  }

  lemma BusyOf(m: Mem, f: Listed, stamp: Stamps, now: nat, a: int, idx: int)
    requires Linked(m, f, stamp, now) && a in f && ValidClass(idx) && HomeOf(f[a]) == Head(idx)
    ensures Busy(m, idx)
  {
    BusyIff(m, f, stamp, now, idx);
  }

  // ----- the steps on length words -----

  lemma ReleaseStep(m: Mem, b: Blocks, pools: Pools, stamp: Stamps, now: nat, l1bm: Word, l2bm: seq<Word>, a: int)
    requires Inv(m, b, pools, stamp, now, l1bm, l2bm) && a in b && b[a].kind == Used && 4 <= b[a].size
    ensures 0 <= a && a + b[a].size <= |m|
    ensures var r := SetFree(m, a, b[a].size, PrevBit(b[a]));
            Inv(r, b[a := b[a].(kind := Held)], pools, stamp, now, l1bm, l2bm) && Untouched(m, r, b, a)
  {
    hide Heap, Linked, Bits, LinksKept, Tagged, Untouched, SetFree;
    Release(m, b, pools, a);
    TaggedKeeps(m, SetFree(m, a, b[a].size, PrevBit(b[a])), b, pools, a);
    TagStep(m, SetFree(m, a, b[a].size, PrevBit(b[a])), b, b[a := b[a].(kind := Held)], pools, stamp, now, l1bm, l2bm);
  }

  lemma MergeStep(m: Mem, b: Blocks, pools: Pools, stamp: Stamps, now: nat, l1bm: Word, l2bm: seq<Word>, a: int)
    requires Inv(m, b, pools, stamp, now, l1bm, l2bm) && a in b && b[a].kind == Held && b[a].prev
    requires a + b[a].size in b && b[a + b[a].size].kind == Held
    ensures var c := a + b[a].size; var n := b[a].size + b[c].size;
            && 0 <= a && 1 <= n && a + n <= |m|
            && (var r := SetFree(m, a, n, 2); Inv(r, Joined(b, a, c), pools, stamp, now, l1bm, l2bm) && Untouched(m, r, b, -1))
  {
    hide Heap, Linked, Bits, LinksKept, Tagged, Untouched, SetFree;
    Merge(m, b, pools, a);
    var c := a + b[a].size;
    var r := SetFree(m, a, b[a].size + b[c].size, 2);
    TaggedKeeps(m, r, b, pools, -1);
    JoinedListing(b, a, c);
    TagStep(m, r, b, Joined(b, a, c), pools, stamp, now, l1bm, l2bm);
  }

  lemma JoinedListing(b: Blocks, a: int, c: int)
    requires a in b && c in b && b[a].kind != Free && b[c].kind != Free
    ensures Listing(Joined(b, a, c)) == Listing(b)
  {
  }

  lemma QuietStep(m: Mem, b: Blocks, pools: Pools, stamp: Stamps, now: nat, l1bm: Word, l2bm: seq<Word>, a: int)
    requires Inv(m, b, pools, stamp, now, l1bm, l2bm) && a in b && b[a].kind == Held
    ensures var c := a + b[a].size;
            && c in b && 0 <= c < |m|
            && (var b2 := b[c := b[c].(prev := false)];
                var r := m[c := Header(b2[c])];
                Inv(r, b2, pools, stamp, now, l1bm, l2bm) && Untouched(m, r, b, -1))
  {
    hide Heap, Linked, Bits, LinksKept, Tagged, Untouched, Header;
    Quiet(m, b, pools, a);
    var c := a + b[a].size;
    var b2 := b[c := b[c].(prev := false)];
    TaggedKeeps(m, m[c := Header(b2[c])], b, pools, -1);
    TagStep(m, m[c := Header(b2[c])], b, b2, pools, stamp, now, l1bm, l2bm);
  }

  lemma UseStep(m: Mem, b: Blocks, pools: Pools, stamp: Stamps, now: nat, l1bm: Word, l2bm: seq<Word>, a: int)
    requires Inv(m, b, pools, stamp, now, l1bm, l2bm) && a in b && b[a].kind == Held && 2 <= b[a].size
    requires a + b[a].size in b ==> b[a + b[a].size].kind != Held
    ensures var c := a + b[a].size;
            && c in b && 0 <= a < c < |m|
            && (var b2 := b[a := b[a].(kind := Used)][c := b[c].(prev := true)];
                var r := m[a := Header(b2[a])][c := Header(b2[c])];
                Inv(r, b2, pools, stamp, now, l1bm, l2bm) && Untouched(m, r, b, -1))
  {
    hide Heap, Linked, Bits, LinksKept, Tagged, Untouched, Header;
    Use(m, b, pools, a);
    var c := a + b[a].size;
    var b2 := b[a := b[a].(kind := Used)][c := b[c].(prev := true)];
    var r := m[a := Header(b2[a])][c := Header(b2[c])];
    TaggedKeeps(m, r, b, pools, -1);
    TagStep(m, r, b, b2, pools, stamp, now, l1bm, l2bm);
  }

  lemma CutStep(m: Mem, r: Mem, b: Blocks, pools: Pools, stamp: Stamps, now: nat, l1bm: Word, l2bm: seq<Word>, a: int, z: nat)
    requires Inv(m, b, pools, stamp, now, l1bm, l2bm) && Pieces(m, r, b, a, z) && 4 <= b[a].size - z
    requires b[a].kind == Held || (b[a].kind == Used && 2 <= z)
    ensures Inv(r, CutOff(b, a, z), pools, stamp, now, l1bm, l2bm) && Untouched(m, r, b, a) && a + z !in b
  {
    hide Heap, Linked, Bits, LinksKept, Tagged, Untouched, Pieces;
    assert a in b && z < b[a].size by { PiecesIn(m, r, b, a, z); }
    Cut(m, r, b, pools, a, z);
    BlkAt(m, b, pools, a);
    InExtent(m, r, b, a, z);
    TaggedKeeps(m, r, b, pools, a);
    CutListing(b, a, z);
    TagStep(m, r, b, CutOff(b, a, z), pools, stamp, now, l1bm, l2bm);
  }

  lemma PiecesIn(m: Mem, r: Mem, b: Blocks, a: int, z: nat)
    requires Pieces(m, r, b, a, z)
    ensures a in b && 1 <= z < b[a].size
  {
  }

  lemma InExtent(m: Mem, r: Mem, b: Blocks, a: int, z: nat)
    requires Pieces(m, r, b, a, z) && BlkOk(m, b, a) && b[a].kind != Free
    ensures Tagged(m, r, b, a)
  {
    forall i | 0 <= i < |m| && r[i] != m[i]
      ensures exists y :: MayWrite(b, a, i, y)
    {
      assert MayWrite(b, a, i, a);
    }
  }

  lemma CutListing(b: Blocks, a: int, z: nat)
    requires a in b && b[a].kind != Free && z < b[a].size && a + z !in b
    ensures Listing(CutOff(b, a, z)) == Listing(b)
  {
  }

  lemma ShiftStep(m: Mem, r: Mem, b: Blocks, pools: Pools, stamp: Stamps, now: nat, l1bm: Word, l2bm: seq<Word>, a: int, z: nat)
    requires Inv(m, b, pools, stamp, now, l1bm, l2bm) && Shifted(m, r, b, a, z)
    requires b[a].kind == Used && b[a + b[a].size].kind == Held && 2 <= z < b[a].size
    requires 4 <= b[a].size + b[a + b[a].size].size - z
    ensures Inv(r, Shift(b, a, z), pools, stamp, now, l1bm, l2bm) && Untouched(m, r, b, a)
  {
    hide Heap, Linked, Bits, LinksKept, Tagged, Untouched, Shift;
    assert a in b && a + b[a].size in b;
    hide Shifted;
    MoveBoundary(m, r, b, pools, a, z);
    NextAt(m, b, pools, a);
    ShiftedExtent(m, r, b, a, z);
    TaggedKeeps(m, r, b, pools, a);
    var c := a + b[a].size;
    assert z < b[a].size + b[c].size;
    ShiftListing(m, b, pools, a, z);
    TagStep(m, r, b, Shift(b, a, z), pools, stamp, now, l1bm, l2bm);
  }

  lemma ShiftedExtent(m: Mem, r: Mem, b: Blocks, a: int, z: nat)
    requires Shifted(m, r, b, a, z) && BlkOk(m, b, a) && BlkOk(m, b, a + b[a].size) && b[a].kind == Used && b[a + b[a].size].kind == Held
    ensures Tagged(m, r, b, a)
  {
    var c := a + b[a].size;
    forall i | 0 <= i < |m| && r[i] != m[i]
      ensures exists y :: MayWrite(b, a, i, y)
    {
      assert MayWrite(b, a, i, if i < c then a else c);
    }
  }

  lemma ShiftListing(m: Mem, b: Blocks, pools: Pools, a: int, z: nat)
    requires Heap(m, b, pools) && a in b && a + b[a].size in b && b[a].kind == Used && b[a + b[a].size].kind == Held && 0 < z < b[a].size
    ensures Listing(Shift(b, a, z)) == Listing(b)
  {
  }

  lemma TakeAllStep(m: Mem, r: Mem, b: Blocks, pools: Pools, stamp: Stamps, now: nat, l1bm: Word, l2bm: seq<Word>, a: int)
    requires Inv(m, b, pools, stamp, now, l1bm, l2bm) && Swallowed(m, r, b, a) && b[a].kind == Used && b[a + b[a].size].kind == Held
    ensures a + b[a].size + b[a + b[a].size].size in b
    ensures Inv(r, Absorb(b, a), pools, stamp, now, l1bm, l2bm) && Untouched(m, r, b, a)
  {
    hide Heap, Linked, Bits, LinksKept, Tagged, Untouched;
    TakeAll(m, r, b, pools, a);
    var c := a + b[a].size;
    NextAt(m, b, pools, a);
    NextAt(m, b, pools, c);
    SwallowedExtent(m, r, b, a);
    TaggedKeeps(m, r, b, pools, a);
    JoinedListing(b, a, c);
    TagStep(m, r, b, Absorb(b, a), pools, stamp, now, l1bm, l2bm) by { AbsorbListing(b, a, c); }
  }

  lemma AbsorbListing(b: Blocks, a: int, c: int)
    requires a in b && c == a + b[a].size && c in b && c + b[c].size in b && b[a].kind == Used && b[c].kind == Held
    requires 0 < b[a].size && 0 < b[c].size
    ensures Listing(Absorb(b, a)) == Listing(b)
  {
  }

  lemma SwallowedExtent(m: Mem, r: Mem, b: Blocks, a: int)
    requires Swallowed(m, r, b, a) && BlkOk(m, b, a) && BlkOk(m, b, a + b[a].size)
    requires BlkOk(m, b, a + b[a].size + b[a + b[a].size].size) && b[a].kind == Used && b[a + b[a].size].kind == Held
    ensures Tagged(m, r, b, a)
  {
    var c := a + b[a].size;
    var e := c + b[c].size;
    forall i | 0 <= i < |m| && r[i] != m[i]
      ensures exists y :: MayWrite(b, a, i, y)
    {
      assert MayWrite(b, a, i, if i < c then a else if i < e then c else e);
    }
  }
}
