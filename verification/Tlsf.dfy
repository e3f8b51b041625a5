/** The two-level segregated fit allocator of src/dynmem.c over one array of words. */
module Allocator {
  import opened Powers
  import opened TlsfClasses
  import opened TlsfLists
  import opened TlsfBlocks
  import opened TlsfState

  const PREV_ALLOC_BIT := 2
  const TWO64 := 0x1_0000_0000_0000_0000
  const ALIM := 0x8000_0000_0000_0000
  const MAX_ALLOC := 0xFFFF_FFFF_FFFF_FFF8
  const MIN_SHRINK := 128
  const MIN_POOL := 48
  const POOL_RECORD := 40

  // ----- length words -----

  /** The macro MBSIZE. */
  function MbSize(w: int): int {
    w - w % 4
  }

  function IsAlloc(w: int): bool {
    w % 2 == 1
  }

  function PrevOf(w: int): int {
    w % 4 - w % 2
  }

  lemma Flags(n: nat, k: nat)
    requires k < 4
    ensures (UNIT * n + k) % 4 == k && (UNIT * n + k) % 2 == k % 2
  {
  }

  lemma HeaderParts(x: Blk)
    ensures var w := Header(x);
            && MbSize(w) == (if x.kind == End then 0 else UNIT * x.size)
            && (IsAlloc(w) <==> !Open(x.kind)) && (1 < x.size || x.kind == End ==> PrevOf(w) == PrevBit(x))
  {
    var k := if x.kind == Held && x.size == 1 then 0 else PrevBit(x) + (if Open(x.kind) then 0 else 1);
    Flags(if x.kind == End then 0 else x.size, k);
    assert Header(x) == (if x.kind == End then 0 else UNIT * x.size) + k;
  }

  lemma HeaderAt(m: Mem, b: Blocks, pools: Pools, a: int)
    requires Heap(m, b, pools) && a in b
    ensures HEAP <= a < |m| && m[a] == Header(b[a]) && a + b[a].size <= |m| && 1 <= b[a].size && UNIT * b[a].size < LIMIT
    ensures MbSize(m[a]) == (if b[a].kind == End then 0 else UNIT * b[a].size)
    ensures (IsAlloc(m[a]) <==> !Open(b[a].kind)) && (1 < b[a].size || b[a].kind == End ==> PrevOf(m[a]) == PrevBit(b[a]))
    ensures b[a].kind != End ==> a + b[a].size in b && a + b[a].size < |m|
  {
    hide Heap, Header;
    BlkAt(m, b, pools, a);
    HeaderParts(b[a]);
    if b[a].kind != End { BlkAt(m, b, pools, a + b[a].size); }
  }

  /** struct tlsf, with the memory it manages: the list heads first. */
  class Tlsf {
    const mem: array<int>
    var l1bm: Word
    var l2bm: seq<Word>
    ghost var blks: Blocks
    ghost var pools: Pools
    ghost var stamp: Stamps
    ghost var now: nat

    /** Between the steps of an operation. */
    ghost predicate Sound()
      reads this, mem
    {
      Inv(mem[..], blks, pools, stamp, now, l1bm, l2bm)
    }

    /** Between operations. */
    ghost predicate Valid()
      reads this, mem
    {
      Sound() && NoneHeld(blks, -1) && Roomy(blks)
    }

    /** tlsf_init: every list is empty. */
    constructor (memory: array<int>)
      requires HEAP <= memory.Length
      modifies memory
      ensures Valid() && mem == memory && blks == map[] && pools == map[]
    {
      mem := memory;
      l1bm := seq(SZ_BITS, i => false);
      l2bm := seq(NUM_L2, i => seq(SZ_BITS, j => false));
      blks, pools, stamp, now := map[], map[], map[], 0;
      new;
      hide Inv;
      InitLists(memory);
      EmptyInv(mem[..], l1bm, l2bm);
    }

    /** l_init for each of the heads. */
    static method InitLists(memory: array<int>)
      requires HEAP <= memory.Length
      modifies memory
      ensures forall j :: 0 <= j < HEAP ==> memory[j] == j - j % 2
    {
      var i := 0;
      while i < HEAP
        invariant 0 <= i <= HEAP && i % 2 == 0 && forall j :: 0 <= j < i ==> memory[j] == j - j % 2
      {
        memory[i] := i;
        memory[i + 1] := i;
        i := i + 2;
      }
    }

    /** l_ins */
    method LIns(prev: int, e: int)
      requires 0 <= prev < mem.Length - 1 && 0 <= e < mem.Length - 1 && 0 <= mem[prev] < mem.Length - 1
      modifies mem
      ensures mem[..] == Ins(old(mem[..]), prev, e)
    {
      var next := mem[prev];
      ghost var m := mem[..];
      mem[e] := next;
      assert mem[..] == m[e := next];
      mem[e + 1] := prev;
      assert mem[..] == m[e := next][e + 1 := prev];
      mem[prev] := e;
      assert mem[..] == m[e := next][e + 1 := prev][prev := e];
      mem[next + 1] := e;
      assert mem[..] == m[e := next][e + 1 := prev][prev := e][next + 1 := e];
    }

    /** l_rem */
    method LRem(e: int)
      requires 0 <= e < mem.Length - 1 && 0 <= mem[e] < mem.Length - 1 && 0 <= mem[e + 1] < mem.Length - 1
      modifies mem
      ensures mem[..] == Rem(old(mem[..]), e)
    {
      var next, prev := mem[e], mem[e + 1];
      ghost var m := mem[..];
      mem[prev] := next;
      assert mem[..] == m[prev := next];
      mem[next + 1] := prev;
      assert mem[..] == m[prev := next][next + 1 := prev];
      mem[e] := e;
      assert mem[..] == m[prev := next][next + 1 := prev][e := e];
      mem[e + 1] := e;
      assert mem[..] == m[prev := next][next + 1 := prev][e := e][e + 1 := e];
    }

    /** set_free_mb */
    method SetFreeMb(a: int, size: nat, bits: int)
      requires 0 <= a && size % UNIT == 0 && UNIT <= size && a + size / UNIT <= mem.Length
      modifies mem
      ensures mem[..] == SetFree(old(mem[..]), a, size / UNIT, bits)
    {
      ghost var m := mem[..];
      mem[a] := size + bits;
      assert mem[..] == m[a := size + bits];
      mem[a + size / UNIT - 1] := size;
      assert mem[..] == m[a := size + bits][a + size / UNIT - 1 := size];
    }

    /** tlsf_ins_blk */
    method InsBlk(mb: int, l1: nat, l2: nat)
      requires Sound() && mb in blks && blks[mb].kind == Held && blks[mb].prev && ClassIs(blks[mb].size, l1, l2)
      requires mb + blks[mb].size in blks ==> !blks[mb + blks[mb].size].prev && !Open(blks[mb + blks[mb].size].kind)
      modifies this, mem
      ensures Sound() && pools == old(pools) && blks == old(blks)[mb := old(blks)[mb].(kind := Free)]
      ensures stamp == old(stamp)[mb := old(now)] && now == old(now) + 1
      ensures Untouched(old(mem[..]), mem[..], old(blks), -1)
    {
      hide Inv, Ins, Untouched, ClassIs, IsHead, ValidClass, Head, IsZero;
      InsStep(mem[..], blks, pools, stamp, now, l1bm, l2bm, mb, l1, l2);
      l1bm := l1bm[l1 := true];
      l2bm := l2bm[l1 := l2bm[l1][l2 := true]];
      LIns(Head(l1 * 256 + l2), mb + 1);
      blks := blks[mb := blks[mb].(kind := Free)];
      stamp, now := stamp[mb := now], now + 1;
    }

    /** tlsf_rem_blk */
    method RemBlk(mb: int, l1: nat, l2: nat)
      requires Sound() && mb in blks && blks[mb].kind == Free && ClassIs(blks[mb].size, l1, l2)
      modifies this, mem
      ensures Sound() && pools == old(pools) && blks == old(blks)[mb := old(blks)[mb].(kind := Held)]
      ensures stamp == old(stamp) - {mb} && now == old(now)
      ensures Untouched(old(mem[..]), mem[..], old(blks), -1)
    {
      hide Inv, Rem, Untouched, ClassIs, IsZero;
      RemStep(mem[..], blks, pools, stamp, now, l1bm, l2bm, mb, l1, l2);
      LRem(mb + 1);
      var head := Head(l1 * 256 + l2);
      if mem[head] == head {
        l2bm := l2bm[l1 := l2bm[l1][l2 := false]];
        if IsZero(l2bm[l1]) {
          l1bm := l1bm[l1 := false];
        }
      }
      blks := blks[mb := blks[mb].(kind := Held)];
      stamp := stamp - {mb};
    }

    /** calc_tlsf_indices for a block. */
    method IndexOfBlock(mb: int) returns (l1: nat, l2: nat)
      requires Sound() && mb in blks && blks[mb].kind != End && 4 <= blks[mb].size
      ensures ClassIs(blks[mb].size, l1, l2)
    {
      HeaderAt(mem[..], blks, pools, mb);
      IndexOf(MbSize(mem[mb]));
      var idx := Indices(MbSize(mem[mb]));
      l1, l2 := idx / 256, idx % 256;
    }

    /** tlsf_ins_blk_c */
    method InsBlkC(mb: int)
      requires Sound() && mb in blks && blks[mb].kind == Held && blks[mb].prev && 4 <= blks[mb].size
      requires mb + blks[mb].size in blks ==> !blks[mb + blks[mb].size].prev && !Open(blks[mb + blks[mb].size].kind)
      modifies this, mem
      ensures Sound() && pools == old(pools) && blks == old(blks)[mb := old(blks)[mb].(kind := Free)]
      ensures stamp == old(stamp)[mb := old(now)] && now == old(now) + 1
      ensures Untouched(old(mem[..]), mem[..], old(blks), -1)
    {
      hide Inv, Untouched, ClassIs;
      var l1, l2 := IndexOfBlock(mb);
      InsBlk(mb, l1, l2);
    }

    /** tlsf_rem_blk_c */
    method RemBlkC(mb: int)
      requires Sound() && mb in blks && blks[mb].kind == Free
      modifies this, mem
      ensures Sound() && pools == old(pools) && blks == old(blks)[mb := old(blks)[mb].(kind := Held)]
      ensures stamp == old(stamp) - {mb} && now == old(now)
      ensures Untouched(old(mem[..]), mem[..], old(blks), -1)
    {
      assert 4 <= blks[mb].size by { BlkAt(mem[..], blks, pools, mb); }
      hide Inv, Untouched, ClassIs;
      var l1, l2 := IndexOfBlock(mb);
      RemBlk(mb, l1, l2);
    }

    /** tlsf_split_blk: a free block leaves its list, and what is beyond `amt` bytes of it goes back to one. */
    method SplitBlk(mb: int, amt: nat)
      requires Sound() && NoneHeld(blks, -1) && mb in blks && blks[mb].kind == Free && blks[mb].prev
      requires amt % UNIT == 0 && UNIT <= amt && amt + MINSZ <= UNIT * blks[mb].size
      modifies this, mem
      ensures Sound() && pools == old(pools)
      ensures blks == Split(old(blks), mb, amt / UNIT)
      ensures Untouched(old(mem[..]), mem[..], old(blks), -1)
    {
      hide Inv, Untouched, NoneHeld, Heap;
      SplitNext(mem[..], blks, pools, stamp, now, l1bm, l2bm, mb, amt / UNIT);
      ghost var b0, m0 := blks, mem[..];
      RemBlkC(mb);
      ghost var b1, m1 := blks, mem[..];
      CutHeld(mb, amt);
      ghost var b2, m2 := blks, mem[..];
      InsBlkC(mb + amt / UNIT);
      UntouchedTwice(m0, m1, m2, b0, b1, -1);
      UntouchedTwice(m0, m2, mem[..], b0, b2, -1);
    }

    /** The length words of the two parts. */
    method CutHeld(mb: int, amt: nat)
      requires Sound() && mb in blks && blks[mb].kind == Held && blks[mb].prev
      requires amt % UNIT == 0 && UNIT <= amt && amt + MINSZ <= UNIT * blks[mb].size
      modifies this, mem
      ensures Sound() && pools == old(pools) && blks == CutOff(old(blks), mb, amt / UNIT) && mb + amt / UNIT !in old(blks)
      ensures Untouched(old(mem[..]), mem[..], old(blks), -1)
    {
      hide Inv, Untouched, Pieces, SetFree, CutOff;
      var z := amt / UNIT;
      ghost var b1, m1 := blks, mem[..];
      var size, bits := LengthOf(mb);
      SetFreeMb(mb + z, size - amt, bits);
      SetFreeMb(mb, amt, bits);
      CutWords(m1, b1, mb, z);
      CutStep(m1, mem[..], b1, pools, stamp, now, l1bm, l2bm, mb, z);
      blks := CutOff(b1, mb, z);
      HeldUntouched(m1, mem[..], b1, mb);
    }

    /** The size and the flags of a block. */
    method LengthOf(mb: int) returns (size: nat, bits: nat)
      requires Sound() && mb in blks && blks[mb].kind == Held && 1 < blks[mb].size
      ensures size == UNIT * blks[mb].size && bits == PrevBit(blks[mb]) && HEAP <= mb && mb + blks[mb].size <= mem.Length
    {
      HeaderAt(mem[..], blks, pools, mb);
      size, bits := MbSize(mem[mb]), mem[mb] % 4;
    }

    /** The first half of tlsf_coalesce_and_insert: the block before, if it is free. */
    method JoinPrev(mb: int) returns (p: int)
      requires Sound() && mb in blks && blks[mb].kind == Held && 4 <= blks[mb].size && NoneHeld(blks, mb) && !blks[mb].prev
      modifies this, mem
      ensures Sound() && pools == old(pools) && 0 <= p && Follows(old(blks), p, mb) && old(blks)[p].kind == Free && old(blks)[p].prev
      ensures blks == Joined(old(blks)[p := old(blks)[p].(kind := Held)], p, mb)
      ensures Untouched(old(mem[..]), mem[..], old(blks), -1)
    {
      hide Inv, Untouched, SetFree, Joined;
      ghost var b0, m0 := blks, mem[..];
      ghost var q := BeforeHeld(m0, b0, pools, stamp, now, l1bm, l2bm, mb);
      var sz, bits := LengthOf(mb);
      var foot := mem[mb - 1];
      p := mb - foot / UNIT;
      sz := sz + foot;
      RemBlkC(p);
      ghost var b1, m1 := blks, mem[..];
      MergeStep(m1, b1, pools, stamp, now, l1bm, l2bm, p);
      SetFreeMb(p, sz, PREV_ALLOC_BIT);
      blks := Joined(b1, p, mb);
      UntouchedTwice(m0, m1, mem[..], b0, b1, -1);
    }

    /** The other half: the block behind, or its flag. */
    method JoinNext(mb: int)
      requires Sound() && mb in blks && blks[mb].kind == Held && 4 <= blks[mb].size && NoneHeld(blks, mb) && blks[mb].prev
      modifies this, mem
      ensures Sound() && pools == old(pools)
      ensures var c := mb + old(blks)[mb].size;
              c in old(blks) && blks == WithNext(old(blks), mb)
      ensures Untouched(old(mem[..]), mem[..], old(blks), -1)
    {
      hide Inv, Untouched, SetFree, Joined;
      ghost var b0, m0 := blks, mem[..];
      var sz, bits := LengthOf(mb);
      BehindHeld(m0, b0, pools, stamp, now, l1bm, l2bm, mb);
      var next := mb + sz / UNIT;
      if !IsAlloc(mem[next]) {
        RemBlkC(next);
        ghost var b1, m1 := blks, mem[..];
        var more, b := LengthOf(next);
        MergeStep(m1, b1, pools, stamp, now, l1bm, l2bm, mb);
        SetFreeMb(mb, sz + more, PREV_ALLOC_BIT);
        blks := Joined(b1, mb, next);
        UntouchedTwice(m0, m1, mem[..], b0, b1, -1);
      } else {
        QuietStep(m0, b0, pools, stamp, now, l1bm, l2bm, mb);
        mem[next] := mem[next] - PrevOf(mem[next]);
        blks := blks[next := blks[next].(prev := false)];
        assert mem[..] == m0[next := Header(blks[next])];
      }
    }

    /**
     * tlsf_coalesce_and_insert. `b1` are the blocks once the closing word is written; the free block that comes of it
     * reaches from `lo` to `hi`.
     */
    method CoalesceAndInsert(mb0: int, ghost b1: Blocks) returns (ghost lo: int, ghost hi: int)
      requires 0 <= mb0 < mem.Length && mb0 in b1 && b1[mb0].kind == Held && 4 <= b1[mb0].size && NoneHeld(b1, mb0)
      requires mb0 + b1[mb0].size <= mem.Length && MbSize(mem[mb0]) == UNIT * b1[mb0].size && PrevOf(mem[mb0]) == PrevBit(b1[mb0])
      requires Inv(SetFree(mem[..], mb0, b1[mb0].size, PrevBit(b1[mb0])), b1, pools, stamp, now, l1bm, l2bm)
      modifies this, mem
      ensures Sound() && NoneHeld(blks, -1) && pools == old(pools) && Freed(b1, blks, mb0, lo, hi) && StillUsed(b1, blks, -1)
      ensures Untouched(SetFree(old(mem[..]), mb0, b1[mb0].size, PrevBit(b1[mb0])), mem[..], b1, -1)
    {
      hide Inv, Untouched, SetFree, Joined, Freed, Follows, Heap, WithNext, NoneHeld, StillUsed;
      var mb := mb0;
      SetFreeMb(mb, MbSize(mem[mb]), PrevOf(mem[mb]));
      blks := b1;
      ghost var b2, m1, m2 := b1, mem[..], mem[..];
      HeldBits(m1, b1, pools, stamp, now, l1bm, l2bm, mb);
      SameMemory(m1, b1, -1);
      if PrevOf(mem[mb]) == 0 {
        mb := JoinPrev(mb);
        b2, m2 := blks, mem[..];
        PrevJoined(b1, mb, mb0, b2);
      }
      SameUsed(b1, -1);
      NextJoined(m2, b2, pools, stamp, now, l1bm, l2bm, mb);
      StillTwice(b1, b2, WithNext(b2, mb), -1);
      FreedWhole(m1, b1, pools, mb0, mb, b2);
      JoinNext(mb);
      ghost var b3, m3 := blks, mem[..];
      InsBlkC(mb);
      lo, hi := mb, mb + b3[mb].size;
      UntouchedTwice(m1, m2, m3, b1, b2, -1);
      UntouchedTwice(m1, m3, mem[..], b1, b3, -1);
      GivenUsed(b3, mb);
      StillTwice(b1, b3, blks, -1);
    }

    /** tlsf_free, with `mp` the address of the first word behind the length word, or 0 for a null pointer. */
    method FreeMem(mp: int) returns (ghost lo: int, ghost hi: int)
      requires Valid() && (mp != 0 ==> mp - 1 in blks && blks[mp - 1].kind == Used)
      modifies this, mem
      ensures Valid() && pools == old(pools)
      ensures mp == 0 ==> blks == old(blks) && mem[..] == old(mem[..])
      ensures mp != 0 ==> Freed(old(blks), blks, mp - 1, lo, hi)
      ensures StillUsed(old(blks), blks, mp - 1) && Untouched(old(mem[..]), mem[..], old(blks), mp - 1)
    {
      hide Inv, Untouched, StillUsed, SetFree, Freed, NoneHeld;
      SameMemory(mem[..], blks, mp - 1);
      SameUsed(blks, mp - 1);
      if mp == 0 {
        lo, hi := 0, 0;
        return;
      }
      var mb := mp - 1;
      ghost var b0, m0, b1 := blks, mem[..], blks[mb := blks[mb].(kind := Held)];
      UsedBlock(m0, b0, pools, stamp, now, l1bm, l2bm, mb);
      ReleaseStep(m0, b0, pools, stamp, now, l1bm, l2bm, mb);
      lo, hi := CoalesceAndInsert(mb, b1);
      FreedUsed(b0, mb, blks, lo, hi);
      StillThen(b0, b1, blks, mb);
      UntouchedThen(m0, SetFree(m0, mb, b0[mb].size, PrevBit(b0[mb])), mem[..], b0, b1, mb);
    }

    /** The lowest bit of `w & ~((1 << from) - 1)`, or 64. */
    method FindBit(w: Word, from: nat) returns (n: nat)
      requires IsWord(w) && from <= SZ_BITS
      ensures from <= n <= SZ_BITS && (n < SZ_BITS ==> w[n]) && forall i :: from <= i < n ==> !w[i]
    {
      n := from;
      while n < SZ_BITS && !w[n]
        invariant from <= n <= SZ_BITS && forall i :: from <= i < n ==> !w[i]
      {
        n := n + 1;
      }
    }

    /** tlsf_find_blk: the first list from class `idx` on that is not empty, or -1 for a null pointer. */
    method FindBlk(idx: int) returns (head: int, found: int)
      requires Sound() && ValidClass(idx)
      ensures head == -1 ==> forall k :: idx <= k ==> !Busy(mem[..], k)
      ensures head != -1 ==> idx <= found && Busy(mem[..], found) && head == Head(found) && forall k :: idx <= k < found ==> !Busy(mem[..], k)
    {
      hide Busy, Heap, Linked;
      var l1, l2 := idx / 256, idx % 256;
      ListsBound(l1);
      ghost var m := mem[..];
      var n := FindBit(l2bm[l1], l2);
      RowEmpty(m, l1bm, l2bm, l1, l2, n);
      if n == SZ_BITS {
        var r := FindBit(l1bm, l1 + 1);
        RowsEmpty(m, l1bm, l2bm, l1 + 1, r);
        if r == SZ_BITS {
          return -1, 0;
        }
        l1 := r;
        n := FindBit(l2bm[l1], 0);
        RowEmpty(m, l1bm, l2bm, l1, 0, n);
      }
      found := l1 * 256 + n;
      assert l2bm[l1][n];
      BusyValid(m, found);
      head := Head(found);
    }

    /** The flag bits that say a block is in use. */
    method MarkUsed(mb: int)
      requires Sound() && mb in blks && blks[mb].kind == Held && 2 <= blks[mb].size && NoneHeld(blks, mb)
      modifies this, mem
      ensures Sound() && pools == old(pools) && mb + old(blks)[mb].size in old(blks)
      ensures blks == MadeUsed(old(blks), mb) && Untouched(old(mem[..]), mem[..], old(blks), -1)
    {
      hide Inv, Untouched, Header;
      ghost var m0, b0 := mem[..], blks;
      HeldNext(m0, b0, pools, stamp, now, l1bm, l2bm, mb);
      UseStep(m0, b0, pools, stamp, now, l1bm, l2bm, mb);
      blks := MadeUsed(b0, mb);
      var next := mb + MbSize(mem[mb]) / UNIT;
      mem[mb] := mem[mb] + (if IsAlloc(mem[mb]) then 0 else 1);
      assert mem[..] == m0[mb := Header(blks[mb])];
      mem[next] := mem[next] + (if PrevOf(mem[next]) == 0 then PREV_ALLOC_BIT else 0);
      assert mem[..] == m0[mb := Header(blks[mb])][next := Header(blks[next])];
    }

    /** tlsf_extract: the first block of a list, or the front of it. */
    method Extract(head: int, amt: nat, idx: int) returns (mp: int)
      requires Valid() && Busy(mem[..], idx) && head == Head(idx) && MINSZ <= amt <= Low(idx) && amt % UNIT == 0
      modifies this, mem
      ensures Sound() && NoneHeld(blks, -1) && pools == old(pools) && 0 < mp
      ensures mp - 1 in old(blks) && old(blks)[mp - 1].kind == Free && amt <= UNIT * old(blks)[mp - 1].size
      ensures amt < UNIT * old(blks)[mp - 1].size ==> mp - 1 + amt / UNIT !in old(blks)
      ensures mp - 1 + old(blks)[mp - 1].size in old(blks) && blks == Allocated(old(blks), mp - 1, amt / UNIT)
      ensures 0 <= idx && ClassIs(old(blks)[mp - 1].size, idx / 256, idx % 256) && mp == old(mem[..])[Head(idx)]
      ensures Untouched(old(mem[..]), mem[..], old(blks), -1)
    {
      hide Inv, Untouched, Heap, Linked, Bits, Busy, Low, ClassIs, Roomy, NoneHeld;
      ghost var m0, b0 := mem[..], blks;
      FirstFree(m0, b0, pools, stamp, now, l1bm, l2bm, idx);
      HeadIn(m0, idx);
      var mb := mem[head] - 1;
      if amt < UNIT * b0[mb].size { SplitNext(m0, b0, pools, stamp, now, l1bm, l2bm, mb, amt / UNIT); }
      if MbSize(mem[mb]) - amt >= MINSZ {
        SplitBlk(mb, amt);
      } else {
        RemBlk(mb, idx / 256, idx % 256);
      }
      ghost var m1, b1 := mem[..], blks;
      AllocatedHeld(b0, mb, amt / UNIT, b1);
      MarkUsed(mb);
      UntouchedTwice(m0, m1, mem[..], b0, b1, -1);
      mp := mb + 1;
    }

    /**
     * tlsf_malloc, without the function that adds memory. It fails when the request is too big, or when no free block
     * belongs to a class whose smallest size is enough. round_next_tlsf_size finds a class for every size below `LIMIT`.
     */
    method Malloc(req: nat) returns (mp: int)
      requires Valid() && req < TWO64 && (req + 15 < LIMIT || ALIM <= req + 15)
      modifies this, mem
      ensures Valid() && pools == old(pools) && StillUsed(old(blks), blks, -1) && Untouched(old(mem[..]), mem[..], old(blks), -1)
      ensures mp == 0 ==> blks == old(blks) && mem[..] == old(mem[..])
      ensures mp == 0 <==> NoneFits(old(blks), req)
      ensures mp != 0 ==> 0 < mp && Handed(old(blks), blks, mp - 1, req) && Tightest(old(blks), mp - 1, Rounded(req))
      ensures mp != 0 ==> Newest(old(blks), old(stamp), mp - 1) && CutFree(old(blks), blks, mp - 1, Rounded(req))
    {
      hide CutFree, Tightest, Newest, NoneSuit, TooBig, Inv, Heap, Linked, Bits, Untouched, StillUsed, Busy, NoneHeld, Roomy, Indices, RoundNext, Suits, Handed, ValidClass, Rounded;
      SameMemory(mem[..], blks, -1);
      SameUsed(blks, -1);
      var amt, ok := Amount(req);
      if !ok {
        return 0;
      }
      ghost var m0, b0 := mem[..], blks;
      ClassFound(amt);
      var idx := RoundNext(amt, Indices(amt));
      var head, found := FindBlk(idx);
      assert mem[..] == m0;
      if head == -1 {
        NoneSuits(m0, b0, pools, stamp, now, l1bm, l2bm, amt);
        return 0;
      }
      OneSuits(m0, b0, pools, stamp, now, l1bm, l2bm, amt, found);
      TightestIs(m0, b0, pools, stamp, now, l1bm, l2bm, amt, found);
      ghost var s0, now0, l1, l2 := stamp, now, l1bm, l2bm;
      mp := Extract(head, amt, found);
      HandedOut(b0, mp - 1, req, blks);
      NewestIs(m0, b0, pools, s0, now0, l1, l2, found, mp - 1);
      HandedCut(m0, b0, pools, s0, now0, l1, l2, blks, mp - 1, req);
    }

    /** The size of the block for a request, in 64-bit arithmetic. */
    method Amount(req: nat) returns (amt: nat, ok: bool)
      requires req < TWO64 && (req + 15 < LIMIT || ALIM <= req + 15)
      ensures ok <==> !TooBig(req)
      ensures ok ==> amt == Rounded(req) && MINSZ <= amt < LIMIT && amt % UNIT == 0
    {
      amt := req;
      if amt < MINSZ - UNIT {
        amt := MINSZ;
      } else {
        amt := (amt + 2 * UNIT - 1) % TWO64;
        amt := amt - amt % UNIT;
        if amt >= ALIM || amt < req {
          return amt, false;
        }
      }
      ok := true;
    }

    /** tlsf_shrink_blk where the next block is free: it begins earlier. */
    method GiveBack(mb: int, sz: nat)
      requires Valid() && mb in blks && blks[mb].kind == Used && sz % UNIT == 0 && 2 * UNIT <= sz && sz + MINSZ <= UNIT * blks[mb].size
      requires mb + blks[mb].size in blks && blks[mb + blks[mb].size].kind == Free
      modifies this, mem
      ensures Sound() && pools == old(pools) && blks == Shrunk(old(blks), mb, sz / UNIT)
      ensures Untouched(old(mem[..]), mem[..], old(blks), mb) && SamePayload(old(mem[..]), mem[..], mb, sz / UNIT)
      ensures StillUsed(old(blks), blks, mb)
    {
      hide Inv, Untouched, SetFree, Shifted, NoneHeld, Roomy, Shift, Shrunk, SamePayload, StillUsed;
      ghost var m0, b0 := mem[..], blks;
      var z := sz / UNIT;
      UsedAt(m0, b0, pools, stamp, now, l1bm, l2bm, mb);
      var nmb := mb + MbSize(mem[mb]) / UNIT;
      var delta := MbSize(mem[mb]) - sz;
      ShrunkFree(m0, b0, pools, stamp, now, l1bm, l2bm, mb, z);
      RemBlkC(nmb);
      ghost var m1, b1 := mem[..], blks;
      var nbsz, bits := LengthOf(nmb);
      UsedAt(m1, b1, pools, stamp, now, l1bm, l2bm, mb);
      SetFreeMb(mb + z, nbsz + delta, PREV_ALLOC_BIT);
      SetFreeWord(m1, mb + z, (nbsz + delta) / UNIT, PREV_ALLOC_BIT, mb);
      mem[mb] := sz + mem[mb] % 4;
      ghost var m2 := mem[..];
      assert m2 == SetFree(m1, mb + z, (nbsz + delta) / UNIT, PREV_ALLOC_BIT)[mb := sz + m1[mb] % 4];
      GivenWords(m1, b1, mb, z, m2);
      ShiftStep(m1, m2, b1, pools, stamp, now, l1bm, l2bm, mb, z);
      blks := Shift(b1, mb, z);
      ghost var b2 := blks;
      InsBlkC(mb + z);
      ThreeSteps(m0, m1, m2, mem[..], b0, b1, b2, mb, z);
      GivenUsed(b2, mb + z);
      StillFirst(b0, b1, b2, mb);
      StillThen(b0, b2, blks, mb);
    }

    /** tlsf_shrink_blk where the next block is in use: the tail becomes a free block. */
    method GiveTail(mb: int, sz: nat)
      requires Valid() && mb in blks && blks[mb].kind == Used && sz % UNIT == 0 && 2 * UNIT <= sz && sz + MINSZ <= UNIT * blks[mb].size
      requires mb + blks[mb].size in blks && blks[mb + blks[mb].size].kind != Free
      modifies this, mem
      ensures Sound() && pools == old(pools) && blks == Shrunk(old(blks), mb, sz / UNIT)
      ensures Untouched(old(mem[..]), mem[..], old(blks), mb) && SamePayload(old(mem[..]), mem[..], mb, sz / UNIT)
      ensures StillUsed(old(blks), blks, mb)
    {
      hide Inv, Untouched, SetFree, Pieces, NoneHeld, Roomy, CutOff, Shrunk, SamePayload, StillUsed, Header, Ripe, Trimmed;
      ghost var m0, b0 := mem[..], blks;
      var z := sz / UNIT;
      UsedAt(m0, b0, pools, stamp, now, l1bm, l2bm, mb);
      var unit := mb + MbSize(mem[mb]) / UNIT;
      var delta := MbSize(mem[mb]) - sz;
      TailFree(m0, b0, pools, stamp, now, l1bm, l2bm, mb, z);
      ghost var m1 := SetFree(m0, mb + z, b0[mb].size - z, 2)[mb := sz + m0[mb] % 4];
      TailWords(m0, b0, mb, z, m1);
      CutStep(m0, m1, b0, pools, stamp, now, l1bm, l2bm, mb, z);
      ghost var b1 := CutOff(b0, mb, z);
      QuietStep(m1, b1, pools, stamp, now, l1bm, l2bm, mb + z);
      ghost var b2 := Trimmed(b0, mb, z);
      ghost var w := Header(b2[unit]);
      mem[unit] := mem[unit] - PrevOf(mem[unit]);
      SetFreeMb(mb + z, delta, PREV_ALLOC_BIT);
      SetFreeWord(m0[unit := w], mb + z, delta / UNIT, PREV_ALLOC_BIT, mb);
      mem[mb] := sz + mem[mb] % 4;
      SameWrites(m0, unit, w, mb + z, delta / UNIT, mb, sz + m0[mb] % 4);
      blks := b2;
      ghost var m2 := mem[..];
      assert m2 == m1[unit := w];
      assert Inv(m2, b2, pools, stamp, now, l1bm, l2bm);
      RipeFacts(b2, mb + z);
      InsBlkC(mb + z);
      TailPayload(m1, m2, b1, mb, unit);
      FourSteps(m0, m1, m2, mem[..], b0, b1, b2, mb, z);
      GivenUsed(b2, mb + z);
      StillThen(b0, b1, b2, mb);
      StillThen(b0, b2, blks, mb);
    }

    /** tlsf_shrink_blk */
    method ShrinkBlk(mb: int, sz: nat)
      requires Valid() && mb in blks && blks[mb].kind == Used && sz % UNIT == 0 && 2 * UNIT <= sz <= UNIT * blks[mb].size
      modifies this, mem
      ensures Sound() && pools == old(pools) && mb + old(blks)[mb].size in old(blks)
      ensures blks == if GivesBack(old(blks), mb, sz) then Shrunk(old(blks), mb, sz / UNIT) else old(blks)
      ensures Untouched(old(mem[..]), mem[..], old(blks), mb)
      ensures mb in blks && SamePayload(old(mem[..]), mem[..], mb, blks[mb].size)
      ensures StillUsed(old(blks), blks, mb)
    {
      hide Inv, Untouched, NoneHeld, Roomy, SamePayload;
      ghost var m0, b0 := mem[..], blks;
      UsedAt(m0, b0, pools, stamp, now, l1bm, l2bm, mb);
      SameMemory(m0, b0, mb);
      SameUsed(b0, mb);
      SameWords(m0, mb, b0[mb].size);
      var delta := (MbSize(mem[mb]) - sz) / UNIT * UNIT;
      if delta < MINSZ {
        return;
      }
      UsedNext(m0, b0, pools, stamp, now, l1bm, l2bm, mb);
      var unit := mb + MbSize(mem[mb]) / UNIT;
      if !IsAlloc(mem[unit]) {
        GiveBack(mb, sz);
      } else if delta < MIN_SHRINK {
        return;
      } else {
        GiveTail(mb, sz);
      }
    }

    /** The part of tlsf_realloc that takes what is missing from the free block behind. */
    method GrowInPlace(mb: int, newamt: nat)
      requires Valid() && mb in blks && blks[mb].kind == Used && newamt % UNIT == 0 && UNIT * blks[mb].size < newamt
      requires mb + blks[mb].size in blks && blks[mb + blks[mb].size].kind == Free
      requires newamt <= UNIT * (blks[mb].size + blks[mb + blks[mb].size].size)
      modifies this, mem
      ensures Sound() && pools == old(pools) && mb + old(blks)[mb].size + old(blks)[mb + old(blks)[mb].size].size in old(blks)
      ensures blks == Grown(old(blks), mb, newamt / UNIT)
      ensures Untouched(old(mem[..]), mem[..], old(blks), mb) && SamePayload(old(mem[..]), mem[..], mb, old(blks)[mb].size)
      ensures StillUsed(old(blks), blks, mb)
    {
      hide Inv, Untouched, NoneHeld, Roomy, SamePayload, Split, Absorb, Swallowed, StillUsed, Grown;
      ghost var m0, b0 := mem[..], blks;
      UsedAt(m0, b0, pools, stamp, now, l1bm, l2bm, mb);
      ghost var k := GrowFacts(m0, b0, pools, stamp, now, l1bm, l2bm, mb, newamt);
      var nmb := mb + MbSize(mem[mb]) / UNIT;
      var delta := newamt - MbSize(mem[mb]);
      if MbSize(mem[nmb]) > delta + MINSZ {
        SplitBlk(nmb, delta);
      } else {
        RemBlkC(nmb);
      }
      ghost var m1, b1 := mem[..], blks;
      GrownHeld(b0, mb, newamt, b1, k);
      Swallow(mb);
      PayloadOf(m0, m1, b0, mb, b0[mb].size);
      SameTwice(m0, m1, mem[..], mb, b0[mb].size);
      UntouchedFirst(m0, m1, mem[..], b0, b1, mb);
      StillFirst(b0, b1, blks, mb);
    }

    /** The held block behind the one at `mb` becomes part of it. */
    method Swallow(mb: int)
      requires Sound() && mb in blks && blks[mb].kind == Used && mb + blks[mb].size in blks && blks[mb + blks[mb].size].kind == Held
      requires var e := mb + blks[mb].size + blks[mb + blks[mb].size].size; e in blks && blks[e].kind != Held
      modifies this, mem
      ensures Sound() && pools == old(pools) && blks == Absorb(old(blks), mb)
      ensures Untouched(old(mem[..]), mem[..], old(blks), mb) && SamePayload(old(mem[..]), mem[..], mb, old(blks)[mb].size)
      ensures StillUsed(old(blks), blks, mb)
    {
      hide Inv, Untouched, SamePayload, Absorb, Swallowed, Header;
      ghost var m1, b1 := mem[..], blks;
      UsedAt(m1, b1, pools, stamp, now, l1bm, l2bm, mb);
      Behind(m1, b1, pools, stamp, now, l1bm, l2bm, mb);
      var nmb := mb + MbSize(mem[mb]) / UNIT;
      var more := MbSize(mem[nmb]);
      var lenp := nmb + more / UNIT;
      mem[lenp] := mem[lenp] + (if PrevOf(mem[lenp]) == 0 then PREV_ALLOC_BIT else 0);
      mem[mb] := mem[mb] + more;
      ghost var m2 := mem[..];
      assert m2 == m1[lenp := Header(b1[lenp].(prev := true))][mb := m1[mb] + more];
      GrownWords(m1, m2, b1, mb);
      AbsorbUsed(b1, mb);
      TakeAllStep(m1, m2, b1, pools, stamp, now, l1bm, l2bm, mb);
      blks := Absorb(b1, mb);
    }

    /** memcpy between the insides of two blocks in use, in words. Whoever owns a block may write there. */
    method CopyWords(dst: int, src: int, n: nat)
      requires Sound() && 0 < dst && dst - 1 in blks && blks[dst - 1].kind == Used && n < blks[dst - 1].size
      requires 0 <= src && src + n <= mem.Length && (src + n <= dst || dst + n <= src)
      modifies mem
      ensures Sound() && Untouched(old(mem[..]), mem[..], blks, dst - 1)
      ensures Copied(old(mem[..]), mem[..], src, dst, n)
    {
      hide Inv, Untouched;
      ghost var m := mem[..];
      UsedAt(m, blks, pools, stamp, now, l1bm, l2bm, dst - 1);
      var i := 0;
      while i < n
        invariant 0 <= i <= n && dst + n <= mem.Length && m == old(mem[..])
        invariant forall j :: 0 <= j < mem.Length && !(dst <= j < dst + i) ==> mem[j] == m[j]
        invariant forall j :: dst <= j < dst + i ==> mem[j] == m[src + (j - dst)]
      {
        mem[dst + i] := mem[src + i];
        i := i + 1;
      }
      ghost var r := mem[..];
      assert forall j :: 0 <= j < |m| && !(dst - 1 < j < dst - 1 + blks[dst - 1].size) ==> r[j] == m[j];
      PayloadStep(m, r, blks, pools, stamp, now, l1bm, l2bm, dst - 1);
    }

    /** The last part of tlsf_realloc: another block, and what fits of the old contents. */
    method MoveBlock(op: int, newamt: nat) returns (mp: int, ghost mid: Blocks, ghost lo: int, ghost hi: int)
      requires Valid() && 0 < op && op - 1 in blks && blks[op - 1].kind == Used && UNIT * blks[op - 1].size < newamt < TWO64
      requires newamt + 15 < LIMIT || ALIM <= newamt + 15
      modifies this, mem
      ensures Valid() && pools == old(pools) && StillUsed(old(blks), blks, op - 1) && Untouched(old(mem[..]), mem[..], old(blks), op - 1)
      ensures mp == 0 ==> blks == old(blks) && mem[..] == old(mem[..])
      ensures mp != 0 ==> Has(blks, mp, newamt) && Copied(old(mem[..]), mem[..], op, mp, old(blks)[op - 1].size - 1)
      ensures mp == 0 <==> NoneFits(old(blks), newamt)
      ensures mp != 0 ==> mp != op && Handed(old(blks), mid, mp - 1, newamt) && Freed(mid, blks, op - 1, lo, hi)
    {
      hide Inv, Untouched, StillUsed, Roomy, NoneHeld, Handed, Freed, Suits, NoneFits, Tightest, CutFree;
      ghost var m0, b0 := mem[..], blks;
      var mb := op - 1;
      UsedAt(m0, b0, pools, stamp, now, l1bm, l2bm, mb);
      var osize := MbSize(mem[mb]) - UNIT;
      mp := Malloc(newamt);
      SameMemory(m0, b0, mb);
      SameUsed(b0, mb);
      mid, lo, hi := blks, 0, 0;
      if mp != 0 {
        ghost var m1, b1 := mem[..], blks;
        MovedApart(b0, b1, m1, pools, stamp, now, l1bm, l2bm, mb, mp - 1, newamt);
        CopyWords(mp, op, osize / UNIT);
        ghost var m2 := mem[..];
        lo, hi := FreeMem(op);
        MovedAll(m0, m1, m2, mem[..], b0, b1, blks, op, mp, newamt);
      }
    }

    /** tlsf_realloc for a block in use and a size that is not zero, with words of 64 bits. */
    method Resize(op: int, newamt: nat) returns (mp: int, ghost mid: Blocks, ghost lo: int, ghost hi: int)
      requires Valid() && 0 < op && op - 1 in blks && blks[op - 1].kind == Used
      requires 0 < newamt < TWO64 && (newamt + 30 < LIMIT || ALIM <= newamt)
      modifies this, mem
      ensures Sound() && NoneHeld(blks, -1) && pools == old(pools)
      ensures StillUsed(old(blks), blks, op - 1) && Untouched(old(mem[..]), mem[..], old(blks), op - 1)
      ensures mp == 0 ==> blks == old(blks) && mem[..] == old(mem[..])
      ensures mp != 0 ==> Has(blks, mp, newamt)
      ensures mp != 0 ==> Copied(old(mem[..]), mem[..], op, mp, Min(old(blks)[op - 1].size, blks[mp - 1].size) - 1)
      ensures Roomy(blks) <==> !Undersized(old(blks), op - 1, newamt)
      ensures mp == 0 <==> Refused(newamt) || (!Stays(old(blks), op - 1, Need(newamt)) && NoneFits(old(blks), Need(newamt)))
      ensures mp == op <==> !Refused(newamt) && Stays(old(blks), op - 1, Need(newamt))
      ensures mp == op ==> StaysAs(old(blks), blks, op - 1, Need(newamt))
      ensures mp != 0 && mp != op ==> Handed(old(blks), mid, mp - 1, Need(newamt)) && Freed(mid, blks, op - 1, lo, hi)
    {
      hide Inv, Untouched, StillUsed, Roomy, NoneHeld, SamePayload, GivesBack, Shrunk, Undersized, Has, Copied;
      hide Stays, StaysAs, NoneFits, Handed, Freed;
      ghost var m0, b0 := mem[..], blks;
      SameMemory(m0, b0, op - 1);
      SameUsed(b0, op - 1);
      mp, mid, lo, hi := 0, blks, 0, 0;
      TooSmall(b0, op - 1, newamt);
      UsedAt(m0, b0, pools, stamp, now, l1bm, l2bm, op - 1);
      RoundedUp(newamt);
      var tsz := (newamt + UNIT - 1) % TWO64 / UNIT * UNIT;
      if tsz < newamt || tsz > MAX_ALLOC - UNIT {
        return;
      }
      var need, mb := tsz + UNIT, op - 1;
      if mem[mb] >= need {
        LargeStays(b0, mb, need);
        Shorten(mb, need, newamt);
        mp := op;
        return;
      }
      mp, mid, lo, hi := Enlarge(op, need);
      if mp != 0 { EnlargedAll(m0, b0, mem[..], blks, op, mp, need, newamt); }
    }

    /** What it does when the block is large enough. */
    method Shorten(mb: int, need: nat, ghost req: nat)
      requires Valid() && mb in blks && blks[mb].kind == Used && 0 < req && need % UNIT == 0
      requires need == (req + UNIT - 1) / UNIT * UNIT + UNIT <= UNIT * blks[mb].size
      modifies this, mem
      ensures Sound() && NoneHeld(blks, -1) && pools == old(pools)
      ensures StillUsed(old(blks), blks, mb) && Untouched(old(mem[..]), mem[..], old(blks), mb)
      ensures Has(blks, mb + 1, req)
      ensures Copied(old(mem[..]), mem[..], mb + 1, mb + 1, Min(old(blks)[mb].size, blks[mb].size) - 1)
      ensures Roomy(blks) <==> !(need < MINSZ && GivesBack(old(blks), mb, need))
      ensures StaysAs(old(blks), blks, mb, need)
    {
      hide Inv, Untouched, StillUsed, Roomy, NoneHeld, SamePayload, GivesBack, Shrunk, Has, Copied, StaysAs;
      ghost var m0, b0 := mem[..], blks;
      UsedAt(m0, b0, pools, stamp, now, l1bm, l2bm, mb);
      ShrunkStays(m0, b0, pools, stamp, now, l1bm, l2bm, mb, need);
      ShrinkBlk(mb, need);
      ShrunkAll(m0, b0, mem[..], blks, mb, need, req);
    }

    /** What it does when the block is too small: take from the next one, or move. */
    method Enlarge(op: int, need: nat) returns (mp: int, ghost mid: Blocks, ghost lo: int, ghost hi: int)
      requires Valid() && 0 < op && op - 1 in blks && blks[op - 1].kind == Used && need % UNIT == 0
      requires UNIT * blks[op - 1].size < need < TWO64 && (need + 15 < LIMIT || ALIM <= need + 15)
      modifies this, mem
      ensures Valid() && pools == old(pools)
      ensures StillUsed(old(blks), blks, op - 1) && Untouched(old(mem[..]), mem[..], old(blks), op - 1)
      ensures mp == 0 ==> blks == old(blks) && mem[..] == old(mem[..])
      ensures mp != 0 ==> Has(blks, mp, need - UNIT) && Copied(old(mem[..]), mem[..], op, mp, old(blks)[op - 1].size - 1)
      ensures mp == 0 <==> !Stays(old(blks), op - 1, need) && NoneFits(old(blks), need)
      ensures mp == op <==> Stays(old(blks), op - 1, need)
      ensures mp == op ==> StaysAs(old(blks), blks, op - 1, need)
      ensures mp != 0 && mp != op ==> Handed(old(blks), mid, mp - 1, need) && Freed(mid, blks, op - 1, lo, hi)
    {
      hide Inv, Untouched, StillUsed, Roomy, NoneHeld, SamePayload, Grown, Has, Copied, Stays, StaysAs, NoneFits, Handed, Freed;
      ghost var m0, b0 := mem[..], blks;
      mid, lo, hi := blks, 0, 0;
      var mb := op - 1;
      UsedAt(m0, b0, pools, stamp, now, l1bm, l2bm, mb);
      UsedNext(m0, b0, pools, stamp, now, l1bm, l2bm, mb);
      var lenp := mb + MbSize(mem[mb]) / UNIT;
      SmallStays(b0, mb, need);
      if !IsAlloc(mem[lenp]) {
        FreeAt(m0, b0, pools, stamp, now, l1bm, l2bm, lenp);
        var delta := need - MbSize(mem[mb]);
        if delta <= MbSize(mem[lenp]) {
          GrownStays(m0, b0, pools, stamp, now, l1bm, l2bm, mb, need);
          GrowInPlace(mb, need);
          mp := op;
          GrownAll(m0, b0, mem[..], blks, mb, need);
          return;
        }
      }
      mp, mid, lo, hi := MoveBlock(op, need);
      if mp != 0 { MovedHas(blks, mp, need, need - UNIT); }
    }

    /**
     * tlsf_realloc. The block stays where it is if it can; its contents, or what fits of them, are the same in any case,
     * and no other block is touched. What tlsf_shrink_blk leaves may be shorter than a smallest block.
     */
    method Realloc(op: int, newamt: nat) returns (mp: int, ghost mid: Blocks, ghost lo: int, ghost hi: int)
      requires Valid() && 0 <= op && (op != 0 ==> op - 1 in blks && blks[op - 1].kind == Used)
      requires newamt < TWO64 && (newamt + 30 < LIMIT || ALIM <= newamt)
      modifies this, mem
      ensures Sound() && NoneHeld(blks, -1) && pools == old(pools)
      ensures StillUsed(old(blks), blks, op - 1) && Untouched(old(mem[..]), mem[..], old(blks), op - 1)
      ensures newamt == 0 ==> mp == 0 && (if op == 0 then blks == old(blks) else Freed(old(blks), blks, op - 1, lo, hi))
      ensures newamt != 0 && mp == 0 ==> blks == old(blks) && mem[..] == old(mem[..])
      ensures newamt != 0 && mp != 0 ==> Has(blks, mp, newamt)
      ensures newamt != 0 && mp != 0 && op != 0 ==>
        Copied(old(mem[..]), mem[..], op, mp, Min(old(blks)[op - 1].size, blks[mp - 1].size) - 1)
      ensures Valid() <==> !(op != 0 && newamt != 0 && Undersized(old(blks), op - 1, newamt))
      ensures newamt != 0 && op == 0 ==> (mp == 0 <==> NoneFits(old(blks), newamt)) && (mp != 0 ==> Handed(old(blks), blks, mp - 1, newamt))
      ensures newamt != 0 && op != 0 ==>
        && (mp == 0 <==> Refused(newamt) || (!Stays(old(blks), op - 1, Need(newamt)) && NoneFits(old(blks), Need(newamt))))
        && (mp == op <==> !Refused(newamt) && Stays(old(blks), op - 1, Need(newamt)))
        && (mp == op ==> StaysAs(old(blks), blks, op - 1, Need(newamt)))
        && (mp != 0 && mp != op ==> Handed(old(blks), mid, mp - 1, Need(newamt)) && Freed(mid, blks, op - 1, lo, hi))
    {
      hide Inv, Untouched, StillUsed, Roomy, NoneHeld, Handed, Freed, Suits, Undersized, Has, Copied;
      hide Stays, StaysAs, NoneFits, Refused, Need, Tightest, CutFree;
      ghost var b0 := blks;
      mp, mid, lo, hi := 0, blks, 0, 0;
      if newamt == 0 {
        lo, hi := FreeMem(op);
      } else if op == 0 {
        mp := Malloc(newamt);
        if mp != 0 { HandedHas(b0, blks, mp, newamt); }
      } else {
        mp, mid, lo, hi := Resize(op, newamt);
      }
    }

    /** tlsf_add_pool, for `len` bytes at the address `p`. The record of the pool takes the first five words. */
    method AddPool(p: int, len: nat)
      requires Valid() && MIN_POOL + POOL_RECORD <= len / UNIT * UNIT < LIMIT && HEAP <= p && p + len / UNIT <= mem.Length
      requires Clear(pools, p, p + len / UNIT)
      modifies this, mem
      ensures Spread(old(pools)) ==> Spread(pools)
      ensures Valid() && StillUsed(old(blks), blks, -1) && Untouched(old(mem[..]), mem[..], old(blks), -1)
      ensures var start, end := p + POOL_RECORD / UNIT, p + len / UNIT - 1;
              && pools == old(pools)[start := end]
              && blks == old(blks)[start := Blk(end - start, Free, true, start)][end := Blk(1, End, false, start)]
    {
      hide Inv, Untouched, StillUsed, Freed, NoneHeld, Roomy, SetFree, Spread, Clear;
      ghost var m0, b0, p0 := mem[..], blks, pools;
      ClearVacant(m0, b0, p0, stamp, now, l1bm, l2bm, p, len / UNIT);
      var ulen := len / UNIT * UNIT;
      var unit := p + POOL_RECORD / UNIT;
      ulen := ulen - (POOL_RECORD + UNIT);
      var end := unit + ulen / UNIT;
      mem[end] := 1;
      mem[unit] := ulen + PREV_ALLOC_BIT + 1;
      ghost var m1, b1 := mem[..], WithPool(b0, unit, end, Held);
      assert m1 == m0[end := 1][unit := ulen + 3];
      PoolFresh(m0, b0, p0, stamp, now, l1bm, l2bm, unit, end);
      PoolInv(m0, b0, p0, stamp, now, l1bm, l2bm, unit, end, m1);
      pools := pools[unit := end];
      Flags(ulen / UNIT, 3);
      ghost var lo, hi := CoalesceAndInsert(unit, b1);
      PoolAdded(b0, unit, end, b1, blks, lo, hi);
      PoolUntouched(m0, b0, unit, end, SetFree(m1, unit, end - unit, 2), mem[..], b1);
      StillFirst(b0, b1, blks, -1);
    }
  }

  /** A free block with its tail cut off. */
  function Split(b: Blocks, a: int, z: nat): Blocks
    requires a in b && z < b[a].size
  {
    b[a := b[a].(kind := Held, size := z)][a + z := Blk(b[a].size - z, Free, true, b[a].pool)]
  }

  lemma CutWords(m: Mem, b: Blocks, a: int, z: nat)
    requires a in b && 0 <= a && 1 <= z && z + 1 < b[a].size && a + b[a].size <= |m| && b[a].kind == Held && b[a].prev
    ensures Pieces(m, SetFree(SetFree(m, a + z, b[a].size - z, 2), a, z, 2), b, a, z)
  {
  }

  /** For a held block it makes no difference whether it is excepted. */
  lemma HeldUntouched(m: Mem, r: Mem, b: Blocks, a: int)
    requires Untouched(m, r, b, a) && (a in b ==> b[a].kind != Used)
    ensures Untouched(m, r, b, -1)
  {
  }

  /** What follows a free block suits a free block. */
  lemma SplitNext(m: Mem, b: Blocks, pools: Pools, stamp: Stamps, now: nat, l1bm: Word, l2bm: seq<Word>, a: int, z: nat)
    requires Inv(m, b, pools, stamp, now, l1bm, l2bm) && NoneHeld(b, -1) && a in b && b[a].kind == Free && 0 < z < b[a].size
    ensures var c := a + b[a].size; a + z !in b && c in b && !b[c].prev && !Open(b[c].kind)
  {
    hide Heap, Linked, Bits;
    BlkAt(m, b, pools, a);
    BlkAt(m, b, pools, a + b[a].size);
    if a + z in b { ApartAt(m, b, pools, a, a + z); BlkAt(m, b, pools, a + z); }
  }

  /** The free block before a held one, as the word before it tells. */
  lemma BeforeHeld(m: Mem, b: Blocks, pools: Pools, stamp: Stamps, now: nat, l1bm: Word, l2bm: seq<Word>, a: int) returns (p: int)
    requires Inv(m, b, pools, stamp, now, l1bm, l2bm) && NoneHeld(b, a) && a in b && b[a].kind == Held && !b[a].prev
    ensures 0 <= p && Follows(b, p, a) && b[p].kind == Free && b[p].prev && 0 < a <= |m| && m[a - 1] == UNIT * b[p].size && 0 < b[p].size
  {
    hide Heap, Linked, Bits;
    BlkAt(m, b, pools, a);
    p :| Follows(b, p, a);
    BlkAt(m, b, pools, p);
    FreePrev(m, b, pools, p, a);
  }

  /** What is behind a held block: free or in use, and its length word says which. */
  lemma BehindHeld(m: Mem, b: Blocks, pools: Pools, stamp: Stamps, now: nat, l1bm: Word, l2bm: seq<Word>, a: int)
    requires Inv(m, b, pools, stamp, now, l1bm, l2bm) && NoneHeld(b, a) && a in b && b[a].kind == Held
    ensures var c := a + b[a].size;
            && c in b && c != a && 0 <= c < |m| && (b[c].kind == Free || !Open(b[c].kind)) && (IsAlloc(m[c]) <==> b[c].kind != Free)
            && (b[c].kind == Free ==> 1 < b[c].size)
            && (b[c].kind != Free ==> m[c] - PrevOf(m[c]) == Header(b[c].(prev := false)))
  {
    hide Heap, Linked, Bits;
    var c := a + b[a].size;
    BlkAt(m, b, pools, a);
    BlkAt(m, b, pools, c);
    HeaderAt(m, b, pools, c);
  }

  /** The flag of a held block with a length word of its own. */
  lemma HeldBits(m: Mem, b: Blocks, pools: Pools, stamp: Stamps, now: nat, l1bm: Word, l2bm: seq<Word>, a: int)
    requires Inv(m, b, pools, stamp, now, l1bm, l2bm) && a in b && b[a].kind == Held && 1 < b[a].size
    ensures 0 <= a < |m| && (PrevOf(m[a]) == 0 <==> !b[a].prev) && Heap(m, b, pools)
  {
    hide Heap, Linked, Bits;
    HeaderAt(m, b, pools, a);
  }

  lemma SameUsed(b: Blocks, but: int)
    ensures StillUsed(b, b, but)
  {
  }

  lemma GivenUsed(b: Blocks, a: int)
    requires a in b && b[a].kind == Held
    ensures StillUsed(b, b[a := b[a].(kind := Free)], -1)
  {
  }

  lemma StillTwice(b: Blocks, c: Blocks, d: Blocks, but: int)
    requires StillUsed(b, c, but) && StillUsed(c, d, but)
    ensures StillUsed(b, d, but)
  {
  }

  lemma SameMemory(m: Mem, b: Blocks, but: int)
    ensures Untouched(m, m, b, but)
  {
  }

  /** The block at `a` has gone: the free one from `lo` to `hi` covers its place and that of free blocks next to it. */
  ghost predicate Freed(b: Blocks, b2: Blocks, a: int, lo: int, hi: int) {
    && a in b && a + b[a].size in b && lo in b && hi in b && lo in b2 && hi in b2 && lo <= a && a + b[a].size <= hi
    && (if b[a].prev then lo == a else Follows(b, lo, a) && b[lo].kind == Free)
    && (var c := a + b[a].size; hi == if b[c].kind == Free then c + b[c].size else c)
    && (forall x :: x in b2 <==> x in b && !(lo < x < hi))
    && b2[lo] == Blk(hi - lo, Free, true, b[lo].pool) && b2[hi] == b[hi].(prev := false)
    && (forall x :: x in b2 && x != lo && x != hi ==> b2[x] == b[x])
  }

  lemma PrevJoined(b: Blocks, p: int, a: int, b2: Blocks)
    requires 0 <= p && a in b && NoneHeld(b, a) && Follows(b, p, a) && b[p].kind == Free && b[p].prev && p != a && 4 <= b[a].size && b[a].kind == Held
    requires b2 == Joined(b[p := b[p].(kind := Held)], p, a)
    ensures NoneHeld(b2, p) && p in b2 && b2[p] == Blk(b[p].size + b[a].size, Held, true, b[p].pool) && 4 <= b2[p].size
    ensures StillUsed(b, b2, -1)
  {
  }

  /** The blocks when the held one at `a` has joined the one behind it, or has cleared its flag. */
  function WithNext(b: Blocks, a: int): Blocks
    requires a in b && a + b[a].size in b
  {
    var c := a + b[a].size;
    if b[c].kind == Free then Joined(b[c := b[c].(kind := Held)], a, c) else b[c := b[c].(prev := false)]
  }

  lemma NextJoined(m: Mem, b: Blocks, pools: Pools, stamp: Stamps, now: nat, l1bm: Word, l2bm: seq<Word>, a: int)
    requires Inv(m, b, pools, stamp, now, l1bm, l2bm) && NoneHeld(b, a) && a in b && b[a].kind == Held && b[a].prev
    ensures a + b[a].size in b
    ensures var b2 := WithNext(b, a);
            && a in b2 && b2[a].kind == Held && b2[a].prev && b[a].size <= b2[a].size && NoneHeld(b2, a)
            && a + b2[a].size in b2 && !b2[a + b2[a].size].prev && !Open(b2[a + b2[a].size].kind)
            && NoneHeld(b2[a := b2[a].(kind := Free)], -1)
            && StillUsed(b, b2, -1)
  {
    hide Heap, Linked, Bits;
    var c := a + b[a].size;
    BlkAt(m, b, pools, a);
    BlkAt(m, b, pools, c);
    if b[c].kind == Free { BlkAt(m, b, pools, c + b[c].size); }
  }

  lemma FreedWhole(m: Mem, b: Blocks, pools: Pools, a: int, lo: int, b2: Blocks)
    requires Heap(m, b, pools) && NoneHeld(b, a) && a in b && b[a].kind == Held
    requires if b[a].prev then lo == a && b2 == b
             else Follows(b, lo, a) && b[lo].kind == Free && b[lo].prev && b2 == Joined(b[lo := b[lo].(kind := Held)], lo, a)
    requires lo in b2 && lo + b2[lo].size in b2
    ensures var b3 := WithNext(b2, lo);
            Freed(b, b3[lo := b3[lo].(kind := Free)], a, lo, lo + b3[lo].size)
  {
    hide Heap, BlkOk;
    var c := a + b[a].size;
    assert 1 <= b[a].size && c in b by { BlkAt(m, b, pools, a); NextIn(m, b, a); BlkBounds(m, b, a); }
    assert 1 <= b[c].size by { BlkAt(m, b, pools, c); BlkBounds(m, b, c); }
    assert 1 <= b[lo].size by { BlkAt(m, b, pools, lo); BlkBounds(m, b, lo); }
    assert b2[lo].size == c - lo && c in b2 && b2[c] == b[c];
    var b3 := WithNext(b2, lo);
    var hi := lo + b3[lo].size;
    if b[c].kind == Free { BlkAt(m, b, pools, c); NextFree(m, b, c); }
    forall x | x in b && lo < x < hi
      ensures x == a || x == c
    {
      if x != a { ApartAt(m, b, pools, a, x); }
      if x != lo { ApartAt(m, b, pools, lo, x); }
      if x != c { ApartAt(m, b, pools, c, x); }
    }
    FreedMap(b, pools, a, lo, b2);
  }

  lemma NextFree(m: Mem, b: Blocks, c: int)
    requires BlkOk(m, b, c) && b[c].kind == Free
    ensures c + b[c].size in b && !b[c + b[c].size].prev
  {
  }

  lemma FreedMap(b: Blocks, pools: Pools, a: int, lo: int, b2: Blocks)
    requires a in b && b[a].kind == Held && 1 <= b[a].size && lo in b && 1 <= b[lo].size
    requires if b[a].prev then lo == a && b2 == b
             else Follows(b, lo, a) && b[lo].kind == Free && b[lo].prev && b2 == Joined(b[lo := b[lo].(kind := Held)], lo, a)
    requires var c := a + b[a].size;
             c in b && 1 <= b[c].size && lo in b2 && c in b2 && b2[c] == b[c] && b2[lo].size == c - lo
             && (b[c].kind == Free ==> c + b[c].size in b && !b[c + b[c].size].prev)
    requires var hi := lo + WithNext(b2, lo)[lo].size; forall x :: x in b && lo < x < hi ==> x == a || x == a + b[a].size
    ensures var b3 := WithNext(b2, lo);
            Freed(b, b3[lo := b3[lo].(kind := Free)], a, lo, lo + b3[lo].size)
  {
  }

  lemma UsedBlock(m: Mem, b: Blocks, pools: Pools, stamp: Stamps, now: nat, l1bm: Word, l2bm: seq<Word>, a: int)
    requires Inv(m, b, pools, stamp, now, l1bm, l2bm) && NoneHeld(b, -1) && Roomy(b) && a in b && b[a].kind == Used
    ensures 0 <= a < |m| && a + b[a].size <= |m| && MbSize(m[a]) == UNIT * b[a].size && PrevOf(m[a]) == PrevBit(b[a])
    ensures 4 <= b[a].size && NoneHeld(b[a := b[a].(kind := Held)], a) && StillUsed(b, b[a := b[a].(kind := Held)], a)
  {
    hide Heap, Linked, Bits;
    HeaderAt(m, b, pools, a);
  }

  /** What has been freed says nothing of the block's own state before. */
  lemma FreedUsed(b: Blocks, a: int, b2: Blocks, lo: int, hi: int)
    requires a in b && b[a].kind == Used && 0 < b[a].size && Freed(b[a := b[a].(kind := Held)], b2, a, lo, hi)
    ensures Freed(b, b2, a, lo, hi) && (Roomy(b) ==> Roomy(b2))
  {
  }

  lemma StillFirst(b: Blocks, c: Blocks, d: Blocks, but: int)
    requires StillUsed(b, c, -1) && StillUsed(c, d, but)
    ensures StillUsed(b, d, but)
  {
  }

  lemma AbsorbUsed(b: Blocks, a: int)
    requires a in b && a + b[a].size in b && a + b[a].size + b[a + b[a].size].size in b && b[a + b[a].size].kind == Held && 0 <= a
    requires 0 < b[a + b[a].size].size
    ensures StillUsed(b, Absorb(b, a), a)
  {
  }

  lemma StillThen(b: Blocks, c: Blocks, d: Blocks, but: int)
    requires StillUsed(b, c, but) && StillUsed(c, d, -1)
    ensures StillUsed(b, d, but)
  {
  }

  lemma UntouchedThen(m: Mem, q: Mem, r: Mem, b: Blocks, c: Blocks, but: int)
    requires Untouched(m, q, b, but) && Untouched(q, r, c, -1) && StillUsed(b, c, but)
    ensures Untouched(m, r, b, but)
  {
  }

  // ----- the search -----

  /** The lists of a row before its lowest bit are empty. */
  lemma RowEmpty(m: Mem, l1bm: Word, l2bm: seq<Word>, l1: nat, l2: nat, n: nat)
    requires Bits(m, l1bm, l2bm) && l1 < NUM_L2 && l2 <= n <= SZ_BITS && forall i :: l2 <= i < n ==> !l2bm[l1][i]
    ensures forall k :: l1 * 256 + l2 <= k < l1 * 256 + n ==> !Busy(m, k)
    ensures n == SZ_BITS ==> forall k :: l1 * 256 + l2 <= k < (l1 + 1) * 256 ==> !Busy(m, k)
  {
    hide Busy;
    forall k | l1 * 256 + l2 <= k < (l1 + 1) * 256 && (k < l1 * 256 + n || n == SZ_BITS)
      ensures !Busy(m, k)
    {
      if k % 256 < SZ_BITS {
        assert k == l1 * 256 + k % 256;
        assert !l2bm[l1][k % 256];
      } else {
        BusyValid(m, k);
      }
    }
  }

  /** So are all those of the rows before the lowest bit of the first level. */
  lemma RowsEmpty(m: Mem, l1bm: Word, l2bm: seq<Word>, l1: nat, n: nat)
    requires Bits(m, l1bm, l2bm) && l1 <= n <= SZ_BITS && (forall i :: l1 <= i < n ==> !l1bm[i]) && (n < SZ_BITS ==> l1bm[n])
    ensures forall k :: l1 * 256 <= k < n * 256 ==> !Busy(m, k)
    ensures if n == SZ_BITS then forall k :: l1 * 256 <= k ==> !Busy(m, k) else n < NUM_L2 && !IsZero(l2bm[n])
  {
    hide Busy;
    forall k | l1 * 256 <= k && (k < n * 256 || n == SZ_BITS)
      ensures !Busy(m, k)
    {
      var r, j := k / 256, k % 256;
      BusyValid(m, k);
      if r < NUM_L2 && j < SZ_BITS {
        assert !l1bm[r];
        assert !l2bm[r][j];
      }
    }
  }

  lemma BusyValid(m: Mem, k: int)
    ensures Busy(m, k) ==> ValidClass(k) && 0 <= k && k / 256 < NUM_L2 && k % 256 < SZ_BITS
  {
    if Busy(m, k) { ListsBound(k / 256); }
  }

  // ----- a block is handed out -----

  function MadeUsed(b: Blocks, a: int): Blocks
    requires a in b && a + b[a].size in b
  {
    var c := a + b[a].size;
    b[a := b[a].(kind := Used)][c := b[c].(prev := true)]
  }

  lemma HeldNext(m: Mem, b: Blocks, pools: Pools, stamp: Stamps, now: nat, l1bm: Word, l2bm: seq<Word>, a: int)
    requires Inv(m, b, pools, stamp, now, l1bm, l2bm) && NoneHeld(b, a) && a in b && b[a].kind == Held && 2 <= b[a].size
    ensures var c := a + b[a].size;
            && c in b && c != a && b[c].kind != Held && 0 <= a < |m| && 0 <= c < |m| && MbSize(m[a]) == UNIT * b[a].size
            && m[a] + (if IsAlloc(m[a]) then 0 else 1) == Header(b[a].(kind := Used))
            && m[c] + (if PrevOf(m[c]) == 0 then 2 else 0) == Header(b[c].(prev := true))
  {
    hide Heap, Linked, Bits;
    var c := a + b[a].size;
    HeaderAt(m, b, pools, a);
    HeaderAt(m, b, pools, c);
  }

  /** What tlsf_extract makes of a free block: the first `z` words of it, or all if too little would be left. */
  function Allocated(b: Blocks, a: int, z: nat): Blocks
    requires a in b && z <= b[a].size && a + b[a].size in b
  {
    var x := b[a];
    if UNIT * x.size - UNIT * z >= MINSZ then b[a := Blk(z, Used, x.prev, x.pool)][a + z := Blk(x.size - z, Free, true, x.pool)]
    else b[a := x.(kind := Used)][a + x.size := b[a + x.size].(prev := true)]
  }

  lemma AllocatedHeld(b: Blocks, a: int, z: nat, b1: Blocks)
    requires 0 <= a && a in b && b[a].kind == Free && 4 <= z <= b[a].size && a + b[a].size in b && NoneHeld(b, -1)
    requires z < b[a].size ==> a + z !in b
    requires b1 == if UNIT * b[a].size - UNIT * z >= MINSZ then Split(b, a, z) else b[a := b[a].(kind := Held)]
    ensures a in b1 && b1[a].kind == Held && 2 <= b1[a].size && NoneHeld(b1, a) && StillUsed(b, b1, -1) && a + b1[a].size in b1
    ensures MadeUsed(b1, a) == Allocated(b, a, z) && NoneHeld(Allocated(b, a, z), -1)
  {
  }

  lemma HeadIn(m: Mem, idx: int)
    requires Busy(m, idx)
    ensures 0 <= Head(idx) < |m|
  {
  }

  /** The first block of a list that is not empty. */
  lemma FirstFree(m: Mem, b: Blocks, pools: Pools, stamp: Stamps, now: nat, l1bm: Word, l2bm: seq<Word>, idx: int)
    requires Inv(m, b, pools, stamp, now, l1bm, l2bm) && NoneHeld(b, -1) && Busy(m, idx)
    ensures var a := m[Head(idx)] - 1;
            && a in b && b[a].kind == Free && b[a].prev && 0 <= a < |m| && MbSize(m[a]) == UNIT * b[a].size && Low(idx) <= UNIT * b[a].size
            && 0 <= idx && ClassIs(b[a].size, idx / 256, idx % 256) && a + b[a].size in b
  {
    hide Heap, Linked, Bits, Low, Indices;
    FirstOf(m, Listing(b), stamp, now, idx);
    var a := m[Head(idx)] - 1;
    HeaderAt(m, b, pools, a);
    IndexOf(UNIT * b[a].size);
    FreePrev(m, b, pools, a, a + 1);
  }

  // ----- the request and the block -----

  predicate TooBig(req: nat) {
    ALIM <= req + 15
  }

  /** A request with room for the length word, in units, and never less than the smallest block. */
  function Rounded(req: nat): nat {
    if req + UNIT <= MINSZ then MINSZ else (req + 2 * UNIT - 1) / UNIT * UNIT
  }

  /** Every block of the class of `n` words has `amt` bytes. */
  predicate Suits(n: nat, amt: nat) {
    1 <= n && UNIT * n < LIMIT && amt <= Low(Class(n))
  }

  /** A free block, or the front of one, is in use: large enough, and less than a smallest block too large. */
  ghost predicate Handed(b: Blocks, b2: Blocks, a: int, req: nat) {
    && a in b && b[a].kind == Free && a in b2 && b2[a].kind == Used
    && UNIT * (b2[a].size - 1) >= req && UNIT * b2[a].size < Rounded(req) + MINSZ
    && 4 <= Rounded(req) / UNIT <= b[a].size && a + b[a].size in b && b2 == Allocated(b, a, Rounded(req) / UNIT)
  }

  /** No free block has a class for `amt` bytes. */
  predicate NoneSuit(b: Blocks, amt: nat) {
    forall a :: a in b && b[a].kind == Free ==> !Suits(b[a].size, amt)
  }

  /** The request is too big, or no free block has a class for it. */
  predicate NoneFits(b: Blocks, req: nat) {
    TooBig(req) || NoneSuit(b, Rounded(req))
  }

  /** No free block that suits is of a smaller class. */
  predicate Tightest(b: Blocks, a: int, amt: nat) {
    && a in b && 1 <= b[a].size && UNIT * b[a].size < LIMIT
    && forall x :: x in b && b[x].kind == Free && Suits(b[x].size, amt) ==> Class(b[a].size) <= Class(b[x].size)
  }

  /** Of the free blocks of its class it was the last to become one. */
  predicate Newest(b: Blocks, stamp: Stamps, a: int) {
    && a in b && a in stamp && 1 <= b[a].size && UNIT * b[a].size < LIMIT
    && forall x :: x in b && b[x].kind == Free && 1 <= b[x].size && UNIT * b[x].size < LIMIT && Class(b[x].size) == Class(b[a].size) ==>
         x in stamp && stamp[x] <= stamp[a]
  }

  lemma NewestIs(m: Mem, b: Blocks, pools: Pools, stamp: Stamps, now: nat, l1bm: Word, l2bm: seq<Word>, idx: int, a: int)
    requires Inv(m, b, pools, stamp, now, l1bm, l2bm) && ValidClass(idx) && a in b && b[a].kind == Free && ClassIs(b[a].size, idx / 256, idx % 256)
    requires a + 1 == m[Head(idx)]
    ensures Newest(b, stamp, a)
  {
    hide Heap, Bits, HomeOf, Class, Linked;
    ListingKeys(m, b, stamp, now, a);
    assert Class(b[a].size) == idx;
    forall x | x in b && b[x].kind == Free && 1 <= b[x].size && UNIT * b[x].size < LIMIT && Class(b[x].size) == idx
      ensures x in stamp && stamp[x] <= stamp[a]
    {
      SameHead(b[x].size, idx);
      FirstNewest(m, Listing(b), stamp, now, Head(idx), x);
    }
  }

  lemma ListingKeys(m: Mem, b: Blocks, stamp: Stamps, now: nat, a: int)
    requires Linked(m, Listing(b), stamp, now) && a in b && b[a].kind == Free
    ensures a in stamp
  {
    assert a in Listing(b);
  }

  lemma TightestIs(m: Mem, b: Blocks, pools: Pools, stamp: Stamps, now: nat, l1bm: Word, l2bm: seq<Word>, amt: nat, idx: int)
    requires Inv(m, b, pools, stamp, now, l1bm, l2bm) && MINSZ <= amt < LIMIT && amt % UNIT == 0 && ValidClass(Indices(amt))
    requires forall k :: RoundNext(amt, Indices(amt)) <= k < idx ==> !Busy(m, k)
    ensures forall a :: a in b && 0 <= idx && ClassIs(b[a].size, idx / 256, idx % 256) ==> Tightest(b, a, amt)
  {
    hide Heap, Linked, Bits, Busy, Indices, RoundNext, HomeOf;
    forall x | x in b && b[x].kind == Free && Suits(b[x].size, amt)
      ensures idx <= Class(b[x].size)
    {
      var k := Class(b[x].size);
      SameHead(b[x].size, k);
      BusyOf(m, Listing(b), stamp, now, x, k);
      RoundFits(amt, k);
    }
  }

  /**
   * The words from `a` to `e` are a block in use of `n` words and, if there are more, a free block; the flag at `e` says which.
   * All other blocks are the same.
   */
  ghost predicate Recut(b: Blocks, b2: Blocks, a: int, n: nat, e: int) {
    && a in b && e in b && a in b2 && e in b2 && 0 < n && a + n <= e
    && (forall x :: x in b2 <==> (x in b && !(a < x < e)) || x == a + n)
    && b2[a] == Blk(n, Used, b[a].prev, b[a].pool)
    && (a + n < e ==> b2[a + n] == Blk(e - a - n, Free, true, b[a].pool))
    && b2[e] == b[e].(prev := a + n == e)
    && forall x :: x in b2 && x != a && x != a + n && x != e ==> b2[x] == b[x]
  }

  /** A free block has been handed out for `amt` bytes: the front of it, if a smallest block is left, or the whole. */
  ghost predicate CutFree(b: Blocks, b2: Blocks, a: int, amt: nat) {
    && a in b && b[a].kind == Free && amt <= UNIT * b[a].size
    && Recut(b, b2, a, if amt + MINSZ <= UNIT * b[a].size then amt / UNIT else b[a].size, a + b[a].size)
  }

  lemma HandedCut(m: Mem, b: Blocks, pools: Pools, stamp: Stamps, now: nat, l1bm: Word, l2bm: seq<Word>, b2: Blocks, a: int, req: nat)
    requires Inv(m, b, pools, stamp, now, l1bm, l2bm) && Handed(b, b2, a, req)
    ensures CutFree(b, b2, a, Rounded(req))
  {
    hide Heap, Linked, Bits;
    BlkAt(m, b, pools, a);
    assert Rounded(req) % UNIT == 0;
    forall x | x in b && a < x
      ensures a + b[a].size <= x
    {
      ApartAt(m, b, pools, a, x);
    }
  }

  lemma ClassFound(amt: nat)
    requires MINSZ <= amt < LIMIT && amt % UNIT == 0
    ensures ValidClass(Indices(amt)) && ValidClass(RoundNext(amt, Indices(amt)))
  {
    IndexOf(amt);
    RoundFits(amt, Indices(amt));
  }

  /** If no list from the rounded class on has a block, no free block suits. */
  lemma NoneSuits(m: Mem, b: Blocks, pools: Pools, stamp: Stamps, now: nat, l1bm: Word, l2bm: seq<Word>, amt: nat)
    requires Inv(m, b, pools, stamp, now, l1bm, l2bm) && MINSZ <= amt < LIMIT && amt % UNIT == 0 && ValidClass(Indices(amt))
    requires forall k :: RoundNext(amt, Indices(amt)) <= k ==> !Busy(m, k)
    ensures NoneSuit(b, amt)
  {
    hide Heap, Linked, Bits, Busy, Indices, RoundNext, HomeOf;
    forall a | a in b && b[a].kind == Free
      ensures !Suits(b[a].size, amt)
    {
      HeaderAt(m, b, pools, a);
      var k := Class(b[a].size);
      SameHead(b[a].size, k);
      BusyOf(m, Listing(b), stamp, now, a, k);
      RoundFits(amt, k);
    }
  }

  /** Otherwise the first block of the list that is found does. */
  lemma OneSuits(m: Mem, b: Blocks, pools: Pools, stamp: Stamps, now: nat, l1bm: Word, l2bm: seq<Word>, amt: nat, idx: int)
    requires Inv(m, b, pools, stamp, now, l1bm, l2bm) && NoneHeld(b, -1) && MINSZ <= amt < LIMIT && amt % UNIT == 0
    requires ValidClass(Indices(amt)) && Busy(m, idx) && RoundNext(amt, Indices(amt)) <= idx
    ensures ValidClass(idx) && amt <= Low(idx) && !NoneSuit(b, amt)
  {
    hide Heap, Linked, Bits, Indices, RoundNext;
    RoundFits(amt, idx);
    FirstFree(m, b, pools, stamp, now, l1bm, l2bm, idx);
    var a := m[Head(idx)] - 1;
    assert Class(b[a].size) == idx;
    assert Suits(b[a].size, amt);
  }

  lemma HandedOut(b: Blocks, a: int, req: nat, b2: Blocks)
    requires a in b && b[a].kind == Free && a + b[a].size in b && Rounded(req) <= UNIT * b[a].size && NoneHeld(b, -1) && Roomy(b)
    requires Rounded(req) < UNIT * b[a].size ==> a + Rounded(req) / UNIT !in b
    requires b2 == Allocated(b, a, Rounded(req) / UNIT)
    ensures Handed(b, b2, a, req) && StillUsed(b, b2, -1) && Roomy(b2)
  {
  }

  // ----- tlsf_realloc -----

  /** The words behind the length word, up to `n` words with it. */
  predicate SamePayload(m: Mem, r: Mem, a: int, n: nat) {
    |r| == |m| && forall i :: a < i < a + n && 0 <= i < |m| ==> r[i] == m[i]
  }

  /** A block in use that has given back all but `z` words. */
  function Shrunk(b: Blocks, a: int, z: nat): Blocks
    requires a in b && z < b[a].size && a + b[a].size in b
  {
    var c := a + b[a].size;
    var x := b[a].(size := z);
    if b[c].kind == Free then (b - {c})[a := x][a + z := Blk(b[a].size - z + b[c].size, Free, true, x.pool)]
    else b[c := b[c].(prev := false)][a := x][a + z := Blk(b[a].size - z, Free, true, x.pool)]
  }

  lemma UsedAt(m: Mem, b: Blocks, pools: Pools, stamp: Stamps, now: nat, l1bm: Word, l2bm: seq<Word>, a: int)
    requires Inv(m, b, pools, stamp, now, l1bm, l2bm) && a in b && b[a].kind == Used
    ensures HEAP <= a < |m| && m[a] == UNIT * b[a].size + m[a] % 4 && m[a] % 4 == 1 + PrevBit(b[a]) && MbSize(m[a]) == UNIT * b[a].size
    ensures var c := a + b[a].size;
            && 2 <= b[a].size && c in b && b[c].prev && HEAP <= c < |m| && c + b[c].size <= |m| && 1 <= b[c].size && b[c].pool == b[a].pool
            && (IsAlloc(m[c]) <==> !Open(b[c].kind)) && UNIT * b[a].size < LIMIT
  {
    hide Heap, Linked, Bits;
    HeaderAt(m, b, pools, a);
    HeaderAt(m, b, pools, a + b[a].size);
    BlkAt(m, b, pools, a);
    Flags(b[a].size, 1 + PrevBit(b[a]));
  }

  lemma GivenWords(m: Mem, b: Blocks, a: int, z: nat, r: Mem)
    requires a in b && b[a].kind == Used && a + b[a].size in b && 2 <= z < b[a].size && 1 <= b[a + b[a].size].size
    requires 0 <= a && a + b[a].size + b[a + b[a].size].size <= |m| && m[a] % 4 == 1 + PrevBit(b[a])
    requires r == SetFree(m, a + z, b[a].size - z + b[a + b[a].size].size, 2)[a := UNIT * z + m[a] % 4]
    ensures Shifted(m, r, b, a, z) && SamePayload(m, r, a, z)
  {
  }

  /** The free block behind the one at `a` is held, and begins at `a + z`. */
  function Moved(b: Blocks, a: int, z: nat): Blocks
    requires a in b && a + b[a].size in b && z < b[a].size
  {
    var c := a + b[a].size;
    Shift(b[c := b[c].(kind := Held)], a, z)
  }

  /** A held block that can become free. */
  predicate Ripe(b: Blocks, y: int) {
    && y in b && b[y].kind == Held && b[y].prev && 4 <= b[y].size
    && y + b[y].size in b && !b[y + b[y].size].prev && !Open(b[y + b[y].size].kind)
  }

  lemma ShrunkFree(m: Mem, b: Blocks, pools: Pools, stamp: Stamps, now: nat, l1bm: Word, l2bm: seq<Word>, a: int, z: nat)
    requires Inv(m, b, pools, stamp, now, l1bm, l2bm) && NoneHeld(b, -1) && a in b && b[a].kind == Used && 2 <= z && 4 + z <= b[a].size
    requires a + b[a].size in b && b[a + b[a].size].kind == Free
    ensures var b1, b2, y := b[a + b[a].size := b[a + b[a].size].(kind := Held)], Moved(b, a, z), a + z;
            && 1 < b[a + b[a].size].size && Ripe(b2, y) && b2[y := b2[y].(kind := Free)] == Shrunk(b, a, z)
            && a in b2 && b2[a].kind == Used && b2[a].size == z && StillUsed(b, b1, -1) && StillUsed(b1, b2, a)
  {
    hide Heap, Linked, Bits;
    var c := a + b[a].size;
    BlkAt(m, b, pools, a);
    BlkAt(m, b, pools, c);
    BlkAt(m, b, pools, c + b[c].size);
    if a + z in b { ApartAt(m, b, pools, a, a + z); BlkAt(m, b, pools, a + z); }
  }

  lemma PayloadOf(m: Mem, r: Mem, b: Blocks, a: int, n: nat)
    requires Untouched(m, r, b, -1) && a in b && b[a].kind == Used && n <= b[a].size && HEAP <= a && a + b[a].size <= |m|
    ensures SamePayload(m, r, a, n)
  {
  }

  lemma ThreeSteps(m0: Mem, m1: Mem, m2: Mem, m3: Mem, b0: Blocks, b1: Blocks, b2: Blocks, a: int, z: nat)
    requires Untouched(m0, m1, b0, -1) && Untouched(m1, m2, b1, a) && Untouched(m2, m3, b2, -1)
    requires StillUsed(b0, b1, -1) && StillUsed(b1, b2, a) && SamePayload(m1, m2, a, z)
    requires a in b0 && b0[a].kind == Used && z <= b0[a].size && a in b2 && b2[a].kind == Used && b2[a].size == z
    requires HEAP <= a && a + b0[a].size <= |m0|
    ensures Untouched(m0, m3, b0, a) && SamePayload(m0, m3, a, z)
  {
  }

  /** Writes to different words can change places. */
  lemma SameWrites(m: Mem, c: int, w: int, a: int, n: nat, i: int, v: int)
    requires 0 <= a && 1 <= n && a + n <= |m| && 0 <= c < |m| && 0 <= i < |m| && c != a && c != a + n - 1 && c != i
    ensures SetFree(m[c := w], a, n, 2)[i := v] == SetFree(m, a, n, 2)[i := v][c := w]
  {
  }

  lemma TailWords(m: Mem, b: Blocks, a: int, z: nat, r: Mem)
    requires a in b && b[a].kind == Used && 2 <= z && z + 4 <= b[a].size
    requires 0 <= a && a + b[a].size <= |m| && m[a] % 4 == 1 + PrevBit(b[a])
    requires r == SetFree(m, a + z, b[a].size - z, 2)[a := UNIT * z + m[a] % 4]
    ensures Pieces(m, r, b, a, z) && SamePayload(m, r, a, z)
  {
  }

  /** The tail of a block in use is held, and the flag behind it is off. */
  function Trimmed(b: Blocks, a: int, z: nat): Blocks
    requires a in b && a + b[a].size in b && z < b[a].size
  {
    var c := a + b[a].size;
    var b1 := CutOff(b, a, z);
    b1[c := b1[c].(prev := false)]
  }

  lemma TailFree(m: Mem, b: Blocks, pools: Pools, stamp: Stamps, now: nat, l1bm: Word, l2bm: seq<Word>, a: int, z: nat)
    requires Inv(m, b, pools, stamp, now, l1bm, l2bm) && NoneHeld(b, -1) && a in b && b[a].kind == Used && 2 <= z && 4 + z <= b[a].size
    requires a + b[a].size in b && b[a + b[a].size].kind != Free
    ensures var c, b1, b2, y := a + b[a].size, CutOff(b, a, z), Trimmed(b, a, z), a + z;
            && y in b1 && b1[y].kind == Held && y + b1[y].size == c && a in b1 && b1[a].kind == Used && b1[a].size == z
            && b2 == b1[c := b1[c].(prev := false)] && Ripe(b2, y) && b2[y := b2[y].(kind := Free)] == Shrunk(b, a, z)
            && a in b2 && b2[a].kind == Used && b2[a].size == z && StillUsed(b, b1, a) && StillUsed(b1, b2, -1)
            && 0 <= c < |m| && m[c] - PrevOf(m[c]) == Header(b2[c])
  {
    hide Heap, Linked, Bits;
    var c := a + b[a].size;
    HeaderAt(m, b, pools, c);
    BlkAt(m, b, pools, a);
    BlkAt(m, b, pools, c);
    if a + z in b { ApartAt(m, b, pools, a, a + z); BlkAt(m, b, pools, a + z); }
  }

  lemma RipeFacts(b: Blocks, y: int)
    requires Ripe(b, y)
    ensures y in b && b[y].kind == Held && b[y].prev && 4 <= b[y].size
    ensures y + b[y].size in b && !b[y + b[y].size].prev && !Open(b[y + b[y].size].kind)
  {
  }

  lemma TailPayload(m: Mem, r: Mem, b: Blocks, a: int, c: int)
    requires a in b && 0 <= c < |m| && |r| == |m| && r == m[c := r[c]] && a + b[a].size <= c
    ensures SamePayload(m, r, a, b[a].size)
  {
  }

  lemma FourSteps(m0: Mem, m1: Mem, m2: Mem, m3: Mem, b0: Blocks, b1: Blocks, b2: Blocks, a: int, z: nat)
    requires Untouched(m0, m1, b0, a) && Untouched(m1, m2, b1, -1) && Untouched(m2, m3, b2, -1)
    requires StillUsed(b0, b1, a) && StillUsed(b1, b2, -1) && SamePayload(m0, m1, a, z) && SamePayload(m1, m2, a, z)
    requires a in b2 && b2[a].kind == Used && b2[a].size == z && HEAP <= a && a + z <= |m0|
    ensures Untouched(m0, m3, b0, a) && SamePayload(m0, m3, a, z)
  {
  }

  /** Whether tlsf_shrink_blk finds it worth it. It does not ask whether `sz` is as much as a smallest block. */
  predicate GivesBack(b: Blocks, a: int, sz: nat) {
    && a in b && a + b[a].size in b && sz + MINSZ <= UNIT * b[a].size
    && (b[a + b[a].size].kind == Free || sz + MIN_SHRINK <= UNIT * b[a].size)
  }

  lemma SameWords(m: Mem, a: int, n: nat)
    ensures SamePayload(m, m, a, n)
  {
  }

  lemma UsedNext(m: Mem, b: Blocks, pools: Pools, stamp: Stamps, now: nat, l1bm: Word, l2bm: seq<Word>, a: int)
    requires Inv(m, b, pools, stamp, now, l1bm, l2bm) && NoneHeld(b, -1) && a in b && b[a].kind == Used
    ensures var c := a + b[a].size; c in b && 0 <= c < |m| && (IsAlloc(m[c]) <==> b[c].kind != Free)
  {
    UsedAt(m, b, pools, stamp, now, l1bm, l2bm, a);
  }

  /** A block in use that has taken what it lacks of `z` words from the free one behind it, or all of that. */
  function Grown(b: Blocks, a: int, z: nat): Blocks
    requires a in b && b[a].size <= z && a + b[a].size in b && z <= b[a].size + b[a + b[a].size].size
    requires a + b[a].size + b[a + b[a].size].size in b
  {
    var c := a + b[a].size;
    var t := b[a].size + b[c].size;
    if UNIT * t > UNIT * z + MINSZ then (b - {c})[a := b[a].(size := z)][a + z := Blk(t - z, Free, true, b[c].pool)]
    else (b - {c})[a := b[a].(size := t)][a + t := b[a + t].(prev := true)]
  }

  lemma GrowFacts(m: Mem, b: Blocks, pools: Pools, stamp: Stamps, now: nat, l1bm: Word, l2bm: seq<Word>, a: int, newamt: nat) returns (k: nat)
    requires Inv(m, b, pools, stamp, now, l1bm, l2bm) && NoneHeld(b, -1) && a in b && b[a].kind == Used && newamt % UNIT == 0
    requires UNIT * b[a].size < newamt && a + b[a].size in b && b[a + b[a].size].kind == Free
    ensures var c := a + b[a].size;
            && k == (newamt - UNIT * b[a].size) / UNIT && c + b[c].size in b && MbSize(m[c]) == UNIT * b[c].size && 4 <= b[c].size && 0 < k
            && (k < b[c].size ==> c + k !in b) && 0 < b[a].size && b[c].pool == b[a].pool
  {
    hide Heap, Linked, Bits;
    var c := a + b[a].size;
    k := (newamt - UNIT * b[a].size) / UNIT;
    UsedAt(m, b, pools, stamp, now, l1bm, l2bm, a);
    HeaderAt(m, b, pools, c);
    BlkAt(m, b, pools, c);
    if k < b[c].size { SplitNext(m, b, pools, stamp, now, l1bm, l2bm, c, k); }
  }

  lemma GrownHeld(b: Blocks, a: int, newamt: nat, b1: Blocks, k: nat)
    requires a in b && b[a].kind == Used && newamt % UNIT == 0 && 0 < b[a].size && UNIT * b[a].size < newamt
    requires k == (newamt - UNIT * b[a].size) / UNIT
    requires var c := a + b[a].size;
             && c in b && b[c].kind == Free && newamt <= UNIT * (b[a].size + b[c].size) && c + b[c].size in b && 4 <= b[c].size
             && (k < b[c].size ==> c + k !in b) && b[c].pool == b[a].pool
             && b1 == if UNIT * b[c].size > UNIT * k + MINSZ then Split(b, c, k) else b[c := b[c].(kind := Held)]
    requires NoneHeld(b, -1)
    ensures var c := a + b[a].size;
            && a in b1 && b1[a] == b[a] && c in b1 && b1[c].kind == Held && 0 < b1[c].size && c + b1[c].size in b1
            && b1[c + b1[c].size].kind != Held && Absorb(b1, a) == Grown(b, a, newamt / UNIT) && StillUsed(b, b1, -1)
  {
  }

  /** The length words of a block in use, the held one behind it, and the one behind that. */
  lemma Behind(m: Mem, b: Blocks, pools: Pools, stamp: Stamps, now: nat, l1bm: Word, l2bm: seq<Word>, a: int)
    requires Inv(m, b, pools, stamp, now, l1bm, l2bm) && a in b && b[a].kind == Used && a + b[a].size in b && b[a + b[a].size].kind == Held
    requires var e := a + b[a].size + b[a + b[a].size].size; e in b ==> b[e].kind != Held
    ensures var c := a + b[a].size;
            && 0 <= a < c < |m| && MbSize(m[c]) == UNIT * b[c].size && m[a] == Header(b[a]) && 0 < b[c].size
            && (var e := c + b[c].size; e in b && e < |m| && m[e] + (if PrevOf(m[e]) == 0 then 2 else 0) == Header(b[e].(prev := true)))
  {
    hide Heap, Linked, Bits;
    var c := a + b[a].size;
    HeaderAt(m, b, pools, a);
    HeaderAt(m, b, pools, c);
    HeaderAt(m, b, pools, c + b[c].size);
    BlkAt(m, b, pools, c + b[c].size);
  }

  lemma GrownWords(m: Mem, r: Mem, b: Blocks, a: int)
    requires a in b && b[a].kind == Used && a + b[a].size in b && a + b[a].size + b[a + b[a].size].size in b && 0 < b[a].size
    requires var c := a + b[a].size; var e := c + b[c].size;
             && 0 <= a < c < e < |m| && m[a] == Header(b[a])
             && r == m[e := Header(b[e].(prev := true))][a := m[a] + UNIT * b[c].size]
    ensures Swallowed(m, r, b, a) && SamePayload(m, r, a, b[a].size)
  {
  }

  lemma SameTwice(m: Mem, q: Mem, r: Mem, a: int, n: nat)
    requires SamePayload(m, q, a, n) && SamePayload(q, r, a, n)
    ensures SamePayload(m, r, a, n)
  {
  }

  lemma UntouchedFirst(m: Mem, q: Mem, r: Mem, b: Blocks, c: Blocks, but: int)
    requires Untouched(m, q, b, -1) && Untouched(q, r, c, but) && StillUsed(b, c, -1)
    ensures Untouched(m, r, b, but)
  {
  }

  /** What is written inside a block in use is nobody else's concern. */
  lemma PayloadStep(m: Mem, r: Mem, b: Blocks, pools: Pools, stamp: Stamps, now: nat, l1bm: Word, l2bm: seq<Word>, a: int)
    requires Inv(m, b, pools, stamp, now, l1bm, l2bm) && a in b && b[a].kind == Used
    requires |r| == |m| && forall i :: 0 <= i < |m| && !(a < i < a + b[a].size) ==> r[i] == m[i]
    ensures Inv(r, b, pools, stamp, now, l1bm, l2bm) && Untouched(m, r, b, a)
  {
    hide Heap, Linked, Bits, Untouched, LinksKept, Tagged;
    BlkAt(m, b, pools, a);
    forall u | u in b && HEAP <= u && 1 <= b[u].size && u + b[u].size <= |m|
      ensures r[u] == m[u] && (Open(b[u].kind) ==> r[u + b[u].size - 1] == m[u + b[u].size - 1])
    {
      if u != a { ApartAt(m, b, pools, u, a); }
    }
    TagsFrame(m, r, b, pools);
    PayloadTagged(m, r, b, a);
    TaggedKeeps(m, r, b, pools, a);
    TagStep(m, r, b, b, pools, stamp, now, l1bm, l2bm);
  }

  lemma PayloadTagged(m: Mem, r: Mem, b: Blocks, a: int)
    requires a in b && b[a].kind == Used && HEAP <= a
    requires |r| == |m| && forall i :: 0 <= i < |m| && !(a < i < a + b[a].size) ==> r[i] == m[i]
    ensures Tagged(m, r, b, a)
  {
    forall i | 0 <= i < |m| && r[i] != m[i]
      ensures exists y :: MayWrite(b, a, i, y)
    {
      assert MayWrite(b, a, i, a);
    }
  }

  /** A block in use at `mp` holds `req` bytes. */
  predicate Has(b: Blocks, mp: int, req: nat) {
    0 < mp && mp - 1 in b && b[mp - 1].kind == Used && req <= UNIT * (b[mp - 1].size - 1)
  }

  /** `n` words have come from `op` to `mp`. */
  predicate Copied(m: Mem, r: Mem, op: int, mp: int, n: int) {
    0 <= op && op + n <= |m| && 0 <= mp && mp + n <= |r| && forall j :: mp <= j < mp + n ==> r[j] == m[op + (j - mp)]
  }

  lemma MovedApart(b0: Blocks, b1: Blocks, m: Mem, pools: Pools, stamp: Stamps, now: nat, l1bm: Word, l2bm: seq<Word>, mb: int, a: int, req: nat)
    requires Inv(m, b1, pools, stamp, now, l1bm, l2bm) && Handed(b0, b1, a, req) && StillUsed(b0, b1, -1)
    requires mb in b0 && b0[mb].kind == Used && UNIT * b0[mb].size < req
    ensures mb in b1 && b1[mb].kind == Used && b1[mb].size == b0[mb].size && a != mb && a in b1 && b1[a].kind == Used
    ensures b0[mb].size < b1[a].size && (mb + b0[mb].size <= a || a + b0[mb].size < mb) && mb + b0[mb].size <= |m| && a + b1[a].size <= |m|
    ensures HEAP <= mb && HEAP <= a
  {
    hide Heap, Linked, Bits;
    ApartAt(m, b1, pools, a, mb);
    BlkAt(m, b1, pools, a);
    BlkAt(m, b1, pools, mb);
  }

  lemma MovedAll(m0: Mem, m1: Mem, m2: Mem, m3: Mem, b0: Blocks, b1: Blocks, b2: Blocks, op: int, mp: int, req: nat)
    requires Untouched(m0, m1, b0, -1) && Untouched(m1, m2, b1, mp - 1) && Untouched(m2, m3, b1, op - 1)
    requires StillUsed(b0, b1, -1) && StillUsed(b1, b2, op - 1) && Handed(b0, b1, mp - 1, req)
    requires 0 < op && 0 < mp && op - 1 in b0 && b0[op - 1].kind == Used && op - 1 in b1 && b1[op - 1].size == b0[op - 1].size
    requires HEAP <= op - 1 && HEAP <= mp - 1 && op - 1 + b0[op - 1].size <= |m0| && mp - 1 + b1[mp - 1].size <= |m0|
    requires b0[op - 1].size < b1[mp - 1].size && op != mp
    requires Copied(m1, m2, op, mp, b0[op - 1].size - 1)
    ensures StillUsed(b0, b2, op - 1) && Untouched(m0, m3, b0, op - 1) && Has(b2, mp, req) && Copied(m0, m3, op, mp, b0[op - 1].size - 1)
  {
  }

  function Min(a: nat, b: nat): nat {
    if a < b then a else b
  }

  /** tlsf_realloc gives back the tail of a block although what stays is shorter than a smallest block. */
  predicate Undersized(b: Blocks, a: int, req: nat) {
    var need := (req + UNIT - 1) / UNIT * UNIT + UNIT;
    need < MINSZ && GivesBack(b, a, need)
  }

  lemma TooSmall(b: Blocks, a: int, req: nat)
    ensures var need := (req + UNIT - 1) / UNIT * UNIT + UNIT;
            (Undersized(b, a, req) <==> need < MINSZ && GivesBack(b, a, need)) && (GivesBack(b, a, need) ==> a in b && need + MINSZ <= UNIT * b[a].size)
  {
  }

  /** The rounding of a request that is not refused. */
  lemma RoundedUp(req: nat)
    requires 0 < req < TWO64 && (req + 30 < LIMIT || ALIM <= req)
    ensures var t := (req + UNIT - 1) % TWO64 / UNIT * UNIT;
            req <= t <= MAX_ALLOC - UNIT ==>
              t == (req + UNIT - 1) / UNIT * UNIT && t % UNIT == 0 && 2 * UNIT <= t + UNIT < TWO64 && (t + UNIT + 15 < LIMIT || ALIM <= t + UNIT)
  {
  }

  lemma HandedHas(b: Blocks, b2: Blocks, mp: int, req: nat)
    requires 0 < mp && Handed(b, b2, mp - 1, req)
    ensures Has(b2, mp, req)
  {
  }

  lemma FreeAt(m: Mem, b: Blocks, pools: Pools, stamp: Stamps, now: nat, l1bm: Word, l2bm: seq<Word>, a: int)
    requires Inv(m, b, pools, stamp, now, l1bm, l2bm) && a in b && b[a].kind == Free
    ensures 0 <= a < |m| && MbSize(m[a]) == UNIT * b[a].size
  {
    hide Heap, Linked, Bits;
    HeaderAt(m, b, pools, a);
  }

  lemma ShrunkAll(m0: Mem, b0: Blocks, m: Mem, b: Blocks, a: int, need: nat, req: nat)
    requires a in b0 && b0[a].kind == Used && a + b0[a].size in b0 && HEAP <= a && NoneHeld(b0, -1) && Roomy(b0) && need % UNIT == 0
    requires need == (req + UNIT - 1) / UNIT * UNIT + UNIT <= UNIT * b0[a].size && 0 < req && a + b0[a].size <= |m0|
    requires b == if GivesBack(b0, a, need) then Shrunk(b0, a, need / UNIT) else b0
    requires a in b && SamePayload(m0, m, a, b[a].size)
    ensures NoneHeld(b, -1) && Has(b, a + 1, req) && Copied(m0, m, a + 1, a + 1, Min(b0[a].size, b[a].size) - 1)
    ensures Roomy(b) <==> !(need < MINSZ && GivesBack(b0, a, need))
  {
  }

  // ----- when a block stays, and what of it -----

  /** What a request takes, with the length word. */
  function Need(req: nat): nat {
    (req + UNIT - 1) / UNIT * UNIT + UNIT
  }

  /** Rounding overflows, or nearly. */
  predicate Refused(req: nat) {
    MAX_ALLOC - UNIT < req
  }

  /** The block is large enough, or the free block behind makes it so. */
  predicate Stays(b: Blocks, a: int, need: nat) {
    && a in b && a + b[a].size in b
    && (need <= UNIT * b[a].size || (b[a + b[a].size].kind == Free && need <= UNIT * (b[a].size + b[a + b[a].size].size)))
  }

  /** Where the free block behind ends, or else the block itself. */
  function EndOf(b: Blocks, a: int): int
    requires a in b && a + b[a].size in b
  {
    var c := a + b[a].size;
    if b[c].kind == Free then c + b[c].size else c
  }

  /** What is given back when the block stays, or taken from the one behind. */
  ghost predicate StaysAs(b: Blocks, b2: Blocks, a: int, need: nat) {
    && a in b && a + b[a].size in b
    && (var e := EndOf(b, a);
        if need <= UNIT * b[a].size then (if GivesBack(b, a, need) then Recut(b, b2, a, need / UNIT, e) else b2 == b)
        else Recut(b, b2, a, if UNIT * (e - a) > need + MINSZ then need / UNIT else e - a, e))
  }

  lemma LargeStays(b: Blocks, a: int, need: nat)
    requires a in b && a + b[a].size in b && need <= UNIT * b[a].size
    ensures Stays(b, a, need)
  {
  }

  lemma SmallStays(b: Blocks, a: int, need: nat)
    requires a in b && a + b[a].size in b && UNIT * b[a].size < need
    ensures Stays(b, a, need) <==> b[a + b[a].size].kind == Free && need - UNIT * b[a].size <= UNIT * b[a + b[a].size].size
  {
  }

  lemma NoneBetween(m: Mem, b: Blocks, pools: Pools, stamp: Stamps, now: nat, l1bm: Word, l2bm: seq<Word>, a: int)
    requires Inv(m, b, pools, stamp, now, l1bm, l2bm) && NoneHeld(b, -1) && a in b && b[a].kind == Used
    ensures var c := a + b[a].size;
            && c in b && EndOf(b, a) in b && 2 <= b[a].size && 1 <= b[c].size && b[c].prev && b[c].pool == b[a].pool
            && (b[c].kind == Free ==> !b[c + b[c].size].prev && 4 <= b[c].size)
            && forall x :: x in b && a < x < EndOf(b, a) ==> x == c
  {
    hide Heap, Linked, Bits;
    var c := a + b[a].size;
    UsedAt(m, b, pools, stamp, now, l1bm, l2bm, a);
    BlkAt(m, b, pools, c);
    forall x | x in b && a < x < EndOf(b, a)
      ensures x == c
    {
      ApartAt(m, b, pools, a, x);
      if x != c { ApartAt(m, b, pools, c, x); }
    }
  }

  lemma ShrunkStays(m: Mem, b: Blocks, pools: Pools, stamp: Stamps, now: nat, l1bm: Word, l2bm: seq<Word>, a: int, need: nat)
    requires Inv(m, b, pools, stamp, now, l1bm, l2bm) && NoneHeld(b, -1) && a in b && b[a].kind == Used
    requires need % UNIT == 0 && 2 * UNIT <= need <= UNIT * b[a].size
    ensures a + b[a].size in b && StaysAs(b, if GivesBack(b, a, need) then Shrunk(b, a, need / UNIT) else b, a, need)
  {
    hide Inv, NoneHeld, Recut;
    NoneBetween(m, b, pools, stamp, now, l1bm, l2bm, a);
    if GivesBack(b, a, need) { ShrunkRecut(b, a, need / UNIT); }
  }

  lemma ShrunkRecut(b: Blocks, a: int, z: nat)
    requires a in b && b[a].kind == Used && a + b[a].size in b && EndOf(b, a) in b && 0 < z < b[a].size
    requires var c := a + b[a].size;
             && 1 <= b[c].size && b[c].prev && (b[c].kind == Free ==> !b[c + b[c].size].prev)
             && forall x :: x in b && a < x < EndOf(b, a) ==> x == c
    ensures Recut(b, Shrunk(b, a, z), a, z, EndOf(b, a))
  {
  }

  lemma GrownStays(m: Mem, b: Blocks, pools: Pools, stamp: Stamps, now: nat, l1bm: Word, l2bm: seq<Word>, a: int, need: nat)
    requires Inv(m, b, pools, stamp, now, l1bm, l2bm) && NoneHeld(b, -1) && a in b && b[a].kind == Used && need % UNIT == 0
    requires a + b[a].size in b && b[a + b[a].size].kind == Free && UNIT * b[a].size < need <= UNIT * (b[a].size + b[a + b[a].size].size)
    ensures a + b[a].size + b[a + b[a].size].size in b && StaysAs(b, Grown(b, a, need / UNIT), a, need)
  {
    hide Inv, NoneHeld, Recut, Grown;
    NoneBetween(m, b, pools, stamp, now, l1bm, l2bm, a);
    GrownRecut(b, a, need / UNIT);
  }

  lemma GrownRecut(b: Blocks, a: int, z: nat)
    requires a in b && b[a].kind == Used && a + b[a].size in b && 0 < b[a].size < z
    requires var c := a + b[a].size;
             && b[c].kind == Free && z <= b[a].size + b[c].size && c + b[c].size in b && !b[c + b[c].size].prev && b[c].pool == b[a].pool
             && forall x :: x in b && a < x < c + b[c].size ==> x == c
    ensures var t := b[a].size + b[a + b[a].size].size;
            Recut(b, Grown(b, a, z), a, if UNIT * t > UNIT * z + MINSZ then z else t, a + t)
  {
  }

  lemma GrownAll(m0: Mem, b0: Blocks, m: Mem, b: Blocks, a: int, need: nat)
    requires a in b0 && b0[a].kind == Used && a + b0[a].size in b0 && HEAP <= a && NoneHeld(b0, -1) && Roomy(b0) && need % UNIT == 0
    requires UNIT * b0[a].size < need && a + b0[a].size <= |m0|
    requires b0[a + b0[a].size].kind == Free && need / UNIT <= b0[a].size + b0[a + b0[a].size].size
    requires a + b0[a].size + b0[a + b0[a].size].size in b0 && b == Grown(b0, a, need / UNIT) && SamePayload(m0, m, a, b0[a].size)
    ensures NoneHeld(b, -1) && Has(b, a + 1, need - UNIT) && Copied(m0, m, a + 1, a + 1, b0[a].size - 1) && Roomy(b)
  {
  }

  lemma EnlargedAll(m0: Mem, b0: Blocks, m: Mem, b: Blocks, op: int, mp: int, need: nat, req: nat)
    requires op - 1 in b0 && UNIT * b0[op - 1].size < need && need == (req + UNIT - 1) / UNIT * UNIT + UNIT
    requires Has(b, mp, need - UNIT) && Copied(m0, m, op, mp, b0[op - 1].size - 1)
    ensures Has(b, mp, req) && Copied(m0, m, op, mp, Min(b0[op - 1].size, b[mp - 1].size) - 1)
  {
  }

  lemma MovedHas(b: Blocks, mp: int, need: nat, req: nat)
    requires Has(b, mp, need) && req <= need
    ensures Has(b, mp, req)
  {
  }

  // ----- a block that is too short -----

  /** A block of 26 words is in a class for requests of 200 bytes. */
  lemma LeastSuits()
    ensures Suits(26, Rounded(200))
  {
    var idx := Class(26);
    IndexOf(208);
    assert Pow2(5) == 32 && Pow2(4) == 16;
    SmallWidth(idx / 256);
  }

  /**
   * From an empty allocator a pool of 256 bytes, an allocation and a reallocation lead to a block in use that is shorter
   * than a smallest block.
   */
  method ShrunkTooFar(memory: array<int>) returns (t: Tlsf)
    requires HEAP + 32 <= memory.Length
    modifies memory
    ensures fresh(t) && t.Sound() && NoneHeld(t.blks, -1) && !t.Valid()
    ensures exists a :: a in t.blks && t.blks[a].kind == Used && t.blks[a].size < MINSZ / UNIT
  {
    hide Inv, NoneHeld, Suits, Indices, ValidClass;
    t := new Tlsf(memory);
    t.AddPool(HEAP, 256);
    ghost var start := HEAP + 5;
    LeastSuits();
    assert t.blks[start].kind == Free && t.blks[start].size == 26;
    var op := t.Malloc(200);
    ghost var b := t.blks;
    UsedAt(t.mem[..], b, t.pools, t.stamp, t.now, t.l1bm, t.l2bm, op - 1);
    assert Undersized(b, op - 1, 1);
    ghost var mid, lo, hi;
    var mp;
    mp, mid, lo, hi := t.Realloc(op, 1);
  }

  /**
   * What becomes of it: freed between two blocks in use, it has its list entry written over the length word of the block
   * behind it, which has then lost the flag that it is in use.
   */
  lemma ShortBlockFreed(m: Mem, h: int, a: int, x: Blk)
    requires IsHead(h) && HEAP <= a < |m| - 2 && 0 <= m[h] < |m| - 1 && m[h] != a + 1 && !Open(x.kind)
    ensures Ins(m, h, a + 1)[a + 2] == h && !IsAlloc(h) && Header(x) != h
  {
  }

  // ----- the beginning -----

  lemma EmptyInv(m: Mem, l1bm: Word, l2bm: seq<Word>)
    requires HEAP <= |m| && forall j :: 0 <= j < HEAP ==> m[j] == j - j % 2
    requires IsWord(l1bm) && IsZero(l1bm) && |l2bm| == NUM_L2 && forall i :: 0 <= i < NUM_L2 ==> IsWord(l2bm[i]) && IsZero(l2bm[i])
    ensures Inv(m, map[], map[], map[], 0, l1bm, l2bm)
  {
    var f := Listing(map[]);
    assert f == map[];
    forall e | IsEntry(f, e)
      ensures LinkOk(m, f, map[], e)
    {
    }
    forall l1, l2 {:trigger l2bm[l1][l2]} | 0 <= l1 < NUM_L2 && 0 <= l2 < SZ_BITS
      ensures l2bm[l1][l2] <==> Busy(m, l1 * 256 + l2)
    {
    }
  }

  /** No pool has a word there, nor the record of one. */
  predicate Clear(pools: Pools, from: int, to: int) {
    forall s :: s in pools ==> pools[s] < from || to <= s - POOL_RECORD / UNIT
  }

  /** The pools with their records lie apart, behind the list heads. */
  predicate Spread(pools: Pools) {
    && (forall s :: s in pools ==> HEAP <= s - POOL_RECORD / UNIT && s < pools[s])
    && (forall s, t :: s in pools && t in pools && s < t ==> pools[s] < t - POOL_RECORD / UNIT)
  }

  /** `n` words from `p` on for a new pool. */
  lemma ClearVacant(m: Mem, b: Blocks, pools: Pools, stamp: Stamps, now: nat, l1bm: Word, l2bm: seq<Word>, p: int, n: nat)
    requires Inv(m, b, pools, stamp, now, l1bm, l2bm) && HEAP <= p && POOL_RECORD / UNIT + 2 <= n && Clear(pools, p, p + n)
    ensures Vacant(b, p + POOL_RECORD / UNIT, p + n)
    ensures Spread(pools) ==> Spread(pools[p + POOL_RECORD / UNIT := p + n - 1])
  {
    hide Linked, Bits;
    forall a | a in b
      ensures a + b[a].size <= p || p + n <= a
    {
      BlkAt(m, b, pools, a);
      var s := b[a].pool;
      if pools[s] < p && a != pools[s] { ApartAt(m, b, pools, a, pools[s]); }
    }
  }

  /** No block has a word there. */
  predicate Vacant(b: Blocks, from: int, to: int) {
    forall a :: a in b ==> a + b[a].size <= from || to <= a
  }

  /** A new pool with one block and a sentinel, whose flag is off. */
  function WithPool(b: Blocks, start: int, end: int, k: Kind): Blocks
    requires start < end
  {
    b[start := Blk(end - start, k, true, start)][end := Blk(1, End, false, start)]
  }

  lemma PoolInv(m: Mem, b: Blocks, pools: Pools, stamp: Stamps, now: nat, l1bm: Word, l2bm: seq<Word>, start: int, end: int, m1: Mem)
    requires Inv(m, b, pools, stamp, now, l1bm, l2bm) && HEAP <= start && start + 5 <= end < |m| && UNIT * (end - start) < LIMIT
    requires Vacant(b, start, end + 1) && m1 == m[end := 1][start := UNIT * (end - start) + 3]
    requires start !in b && end !in b
    ensures var r := SetFree(m1, start, end - start, 2);
            && Inv(r, WithPool(b, start, end, Held), pools[start := end], stamp, now, l1bm, l2bm)
            && forall i :: 0 <= i < |m| && !(start <= i <= end) ==> r[i] == m[i]
  {
    hide Heap, Linked, Bits, LinksKept;
    var r, b1 := SetFree(m1, start, end - start, 2), WithPool(b, start, end, Held);
    SetFreeWord(m1, start, end - start, 2, end);
    PoolHeap(m, b, pools, start, end, r);
    PoolLinks(m, b, pools, start, end, r);
    LinksFrame(m, r, b, pools, stamp, now);
    BitsFrame(m, r, b, l1bm, l2bm);
    PoolListing(b, start, end);
  }

  lemma PoolListing(b: Blocks, start: int, end: int)
    requires start < end && start !in b && end !in b
    ensures Listing(WithPool(b, start, end, Held)) == Listing(b)
  {
  }

  lemma PoolFresh(m: Mem, b: Blocks, pools: Pools, stamp: Stamps, now: nat, l1bm: Word, l2bm: seq<Word>, start: int, end: int)
    requires Inv(m, b, pools, stamp, now, l1bm, l2bm) && Vacant(b, start, end + 1) && start < end && NoneHeld(b, -1) && 0 <= start
    ensures start !in b && end !in b && (forall x :: x in b ==> 1 <= b[x].size) && NoneHeld(WithPool(b, start, end, Held), start)
  {
    hide Heap, Linked, Bits;
    forall x | x in b ensures 1 <= b[x].size { BlkAt(m, b, pools, x); }
  }

  lemma PoolLinks(m: Mem, b: Blocks, pools: Pools, start: int, end: int, r: Mem)
    requires Heap(m, b, pools) && HEAP <= start <= end < |m| && Vacant(b, start, end + 1)
    requires |r| == |m| && forall i :: 0 <= i < |m| && !(start <= i <= end) ==> r[i] == m[i]
    ensures LinksKept(m, r, b)
  {
    forall a | a in b && b[a].kind == Free && 0 <= a < |m| - 2
      ensures r[a + 1] == m[a + 1] && r[a + 2] == m[a + 2]
    {
      assert BlkOk(m, b, a);
    }
  }

  // ----- a pool is tiled by its blocks -----

  /** Every word from a block to the sentinel of its pool is in a block of the pool. */
  lemma {:induction false} Covering(m: Mem, b: Blocks, pools: Pools, a: int, w: int) returns (c: int)
    requires Heap(m, b, pools) && a in b && b[a].pool in pools && a <= w <= pools[b[a].pool]
    ensures c in b && c <= w < c + b[c].size && b[c].pool == b[a].pool
    decreases w - a
  {
    hide Heap;
    BlkAt(m, b, pools, a);
    if w < a + b[a].size {
      c := a;
    } else {
      EndIs(m, b, pools, a);
      c := Covering(m, b, pools, a + b[a].size, w);
    }
  }

  lemma EndIs(m: Mem, b: Blocks, pools: Pools, a: int)
    requires Heap(m, b, pools) && a in b
    ensures b[a].pool in pools && b[a].pool <= a <= pools[b[a].pool] && (b[a].kind == End <==> a == pools[b[a].pool])
  {
  }

  /** New words do not lie in the middle of a pool. */
  lemma PoolsAside(m: Mem, b: Blocks, pools: Pools, start: int, end: int, s: int)
    requires Heap(m, b, pools) && s in pools && Vacant(b, start, end + 1) && start <= end
    ensures pools[s] < start || end < s
  {
    PoolAt(m, b, pools, s);
    hide Heap;
    if s <= start <= pools[s] {
      var c := Covering(m, b, pools, s, start);
    }
    BlkAt(m, b, pools, s);
    BlkAt(m, b, pools, pools[s]);
  }

  lemma PoolAt(m: Mem, b: Blocks, pools: Pools, s: int)
    requires Heap(m, b, pools) && s in pools
    ensures s in b && b[s].prev && b[s].pool == s && s < pools[s] && pools[s] in b && b[pools[s]].kind == End && b[pools[s]].pool == s
  {
  }

  lemma PoolHeap(m: Mem, b: Blocks, pools: Pools, start: int, end: int, r: Mem)
    requires Heap(m, b, pools) && HEAP <= start && start + 5 <= end < |m| && UNIT * (end - start) < LIMIT && Vacant(b, start, end + 1)
    requires |r| == |m| && forall i :: 0 <= i < |m| && !(start <= i <= end) ==> r[i] == m[i]
    requires r[start] == UNIT * (end - start) + 2 && r[end - 1] == UNIT * (end - start) && r[end] == 1
    ensures Heap(r, WithPool(b, start, end, Held), pools[start := end])
  {
    var b1 := WithPool(b, start, end, Held);
    assert start !in b && end !in b by {
      if start in b { BlkAt(m, b, pools, start); }
      if end in b { BlkAt(m, b, pools, end); }
    }
    forall s | s in pools
      ensures pools[s] < start || end < s
    {
      PoolsAside(m, b, pools, start, end, s);
    }
    PoolApart(b, start, end);
    PoolPools(b, pools, start, end);
    hide Apart, PoolsOk;
    forall c | c in b1
      ensures BlkOk(r, b1, c)
    {
      PoolBlk(m, b, pools, start, end, r, c);
    }
  }

  lemma PoolApart(b: Blocks, start: int, end: int)
    requires Apart(b) && Vacant(b, start, end + 1) && start < end
    ensures Apart(WithPool(b, start, end, Held))
  {
  }

  lemma PoolPools(b: Blocks, pools: Pools, start: int, end: int)
    requires PoolsOk(b, pools) && Vacant(b, start, end + 1) && start < end && start !in b && end !in b && UNIT * (end - start) < LIMIT
    requires forall s :: s in pools ==> pools[s] < start || end < s
    ensures PoolsOk(WithPool(b, start, end, Held), pools[start := end])
  {
  }

  lemma PoolBlk(m: Mem, b: Blocks, pools: Pools, start: int, end: int, r: Mem, c: int)
    requires Heap(m, b, pools) && HEAP <= start && start + 5 <= end < |m| && UNIT * (end - start) < LIMIT && Vacant(b, start, end + 1)
    requires |r| == |m| && forall i :: 0 <= i < |m| && !(start <= i <= end) ==> r[i] == m[i]
    requires r[start] == UNIT * (end - start) + 2 && r[end - 1] == UNIT * (end - start) && r[end] == 1
    requires start !in b && end !in b && c in WithPool(b, start, end, Held)
    ensures BlkOk(r, WithPool(b, start, end, Held), c)
  {
    hide Heap;
    var b1 := WithPool(b, start, end, Held);
    if c == end {
      assert Follows(b1, start, end);
    } else if c != start {
      BlkAt(m, b, pools, c);
      if !b[c].prev {
        var p :| Follows(b, p, c);
        assert Follows(b1, p, c);
      }
      Unmoved(m, r, b, b1, c);
    }
  }

  lemma PoolAdded(b: Blocks, start: int, end: int, b1: Blocks, b2: Blocks, lo: int, hi: int)
    requires start < end && b1 == WithPool(b, start, end, Held) && Freed(b1, b2, start, lo, hi) && Vacant(b, start, end + 1)
    requires start !in b && end !in b && NoneHeld(b, -1) && Roomy(b) && forall x :: x in b ==> 1 <= b[x].size
    ensures b2 == WithPool(b, start, end, Free) && Roomy(b2) && StillUsed(b, b1, -1)
  {
    var b3 := WithPool(b, start, end, Free);
    forall x
      ensures x in b2 <==> x in b3
    {
      if x in b { assert x + b[x].size <= start || end + 1 <= x; }
    }
    assert b2.Keys == b3.Keys;
    forall x | x in b2
      ensures b2[x] == b3[x]
    {
      if x != start && x != end { assert b2[x] == b1[x]; }
    }
    assert b2 == b3;
  }

  lemma PoolUntouched(m: Mem, b: Blocks, start: int, end: int, q: Mem, r: Mem, b1: Blocks)
    requires start < end && Vacant(b, start, end + 1) && b1 == WithPool(b, start, end, Held) && start !in b && end !in b
    requires |q| == |m| && forall i :: 0 <= i < |m| && !(start <= i <= end) ==> q[i] == m[i]
    requires Untouched(q, r, b1, -1)
    ensures Untouched(m, r, b, -1)
  {
    forall u, i {:trigger b[u], r[i]} | u in b && b[u].kind == Used && HEAP <= u < i < u + b[u].size <= |m|
      ensures r[i] == m[i]
    {
      assert u in b1 && b1[u] == b[u];
      assert q[i] == m[i];
    }
  }

  // ----- what the invariant says of the whole -----

  /** `chain` are the blocks from `a` up to `e`, each where the one before it ends. */
  predicate Chain(b: Blocks, chain: seq<int>, a: int, e: int) {
    if chain == [] then a == e
    else chain[0] == a && a in b && b[a].kind != End && Chain(b, chain[1..], a + b[a].size, e)
  }

  /** The blocks of a pool lie end to end from its first word to its sentinel. */
  lemma {:induction false} Tiling(m: Mem, b: Blocks, pools: Pools, a: int) returns (chain: seq<int>)
    requires Heap(m, b, pools) && a in b
    ensures b[a].pool in pools && Chain(b, chain, a, pools[b[a].pool])
    ensures forall x :: x in b && b[x].pool == b[a].pool && a <= x && b[x].kind != End ==> x in chain
    decreases |m| - a
  {
    hide Heap;
    EndIs(m, b, pools, a);
    BlkAt(m, b, pools, a);
    var e := pools[b[a].pool];
    if a == e {
      chain := [];
    } else {
      var rest := Tiling(m, b, pools, a + b[a].size);
      chain := [a] + rest;
      assert chain[1..] == rest;
    }
    forall x | x in b && b[x].pool == b[a].pool && a <= x && b[x].kind != End
      ensures x in chain
    {
      EndIs(m, b, pools, x);
      if x != a { ApartAt(m, b, pools, a, x); }
    }
  }

  /** When nothing in a pool is in use, it is one free block. */
  lemma OneBlock(m: Mem, b: Blocks, pools: Pools, stamp: Stamps, now: nat, l1bm: Word, l2bm: seq<Word>, s: int)
    requires Inv(m, b, pools, stamp, now, l1bm, l2bm) && NoneHeld(b, -1) && s in pools
    requires forall a :: a in b && b[a].pool == s ==> b[a].kind != Used
    ensures s in b && b[s] == Blk(pools[s] - s, Free, true, s)
    ensures forall a :: a in b && b[a].pool == s ==> a == s || a == pools[s]
  {
    hide Heap, Linked, Bits;
    PoolAt(m, b, pools, s);
    EndIs(m, b, pools, s);
    BlkAt(m, b, pools, s);
    EndIs(m, b, pools, s + b[s].size);
    forall a | a in b && b[a].pool == s
      ensures a == s || a == pools[s]
    {
      EndIs(m, b, pools, a);
      BlkAt(m, b, pools, a);
      if a != s { ApartAt(m, b, pools, s, a); }
    }
  }

  /** A free block is on the list of its class, and on no other. */
  lemma OnItsList(m: Mem, b: Blocks, pools: Pools, stamp: Stamps, now: nat, l1bm: Word, l2bm: seq<Word>, a: int) returns (k: nat)
    requires Inv(m, b, pools, stamp, now, l1bm, l2bm) && a in b && b[a].kind == Free
    ensures 1 <= b[a].size && UNIT * b[a].size < LIMIT && Nth(m, Head(Class(b[a].size)), k) == a + 1
    ensures forall idx, j: nat :: ValidClass(idx) && Nth(m, Head(idx), j) == a + 1 ==> idx == Class(b[a].size)
  {
    hide Heap, Linked, Bits, Nth, Home, Listing, Class, Head;
    HeaderAt(m, b, pools, a);
    var f, n := Listing(b), b[a].size;
    ListedSize(b, a);
    k := InItsList(m, f, stamp, now, a);
    ListingSpaced(m, b, pools);
    BlockHome(f, a, |m|);
    forall idx, j: nat | ValidClass(idx) && Nth(m, Head(idx), j) == a + 1
      ensures idx == Class(n)
    {
      OnlyClass(m, f, stamp, now, a, idx, j);
    }
  }

  lemma ListedSize(b: Blocks, a: int)
    requires a in b && b[a].kind == Free
    ensures a in Listing(b) && Listing(b)[a] == b[a].size
  {
  }

  lemma OnlyClass(m: Mem, f: Listed, stamp: Stamps, now: nat, a: int, idx: int, j: nat)
    requires Linked(m, f, stamp, now) && a in f && 1 <= f[a] && UNIT * f[a] < LIMIT && Home(f, a + 1) == HomeOf(f[a])
    requires ValidClass(idx) && Nth(m, Head(idx), j) == a + 1
    ensures idx == Class(f[a])
  {
    hide Linked, Nth;
    HeadEntry(f, f, Head(idx));
    OnlyItsList(m, f, stamp, now, Head(idx), j);
    SameHead(f[a], idx);
  }
}
