/**
 * The blocks of the allocator of src/dynmem.c in memory: a length word with two flag bits in front, and its size again
 * at the end of a block that is not in use. What the words say is compared with a map of the blocks.
 */
module TlsfBlocks {
  import opened TlsfClasses
  import opened TlsfLists

  /** A free block is listed, except while an operation holds it. A sentinel ends a pool. */
  datatype Kind = Free | Held | Used | End

  /** `size` in words; `prev` is the flag that the block before is in use; `pool` is the first block of the pool. */
  datatype Blk = Blk(size: nat, kind: Kind, prev: bool, pool: int)

  type Blocks = map<int, Blk>

  predicate Open(k: Kind) {
    k == Free || k == Held
  }

  /** The length word. In a held piece of one word it is the closing word as well, and has no room for flags. */
  function Header(x: Blk): int {
    if x.kind == Held && x.size == 1 then UNIT
    else (if x.kind == End then 0 else UNIT * x.size) + (if x.prev then 2 else 0) + (if Open(x.kind) then 0 else 1)
  }

  /** The block at `a` comes right behind the open block at `p`. */
  predicate Follows(b: Blocks, p: int, a: int) {
    p in b && p + b[p].size == a && Open(b[p].kind)
  }

  /** A block, its words and its neighbours. The flag behind a held block may be out of date. */
  ghost predicate BlkOk(m: Mem, b: Blocks, a: int) {
    a in b &&
    var x := b[a];
    && HEAP <= a && 1 <= x.size && a + x.size <= |m| && UNIT * x.size < LIMIT && m[a] == Header(x)
    && (x.kind == End ==> x.size == 1)
    && (x.kind == Used ==> 2 <= x.size)
    && (x.kind != End ==> a + x.size in b && b[a + x.size].pool == x.pool)
    && (x.kind == Used ==> b[a + x.size].prev)
    && (x.kind == Free ==> !b[a + x.size].prev && b[a + x.size].kind != Free)
    && (x.kind == Free ==> 4 <= x.size)
    && (Open(x.kind) ==> m[a + x.size - 1] == UNIT * x.size)
    && (!x.prev ==> exists p :: Follows(b, p, a))
  }

  predicate Apart(b: Blocks) {
    forall a, c :: a in b && c in b && a < c ==> a + b[a].size <= c
  }

  /** The pools, by their first block, with their sentinels. */
  type Pools = map<int, int>

  predicate PoolsOk(b: Blocks, pools: Pools) {
    && (forall s :: s in pools ==>
          s < pools[s] && UNIT * (pools[s] - s) < LIMIT && s in b && b[s].prev && b[s].pool == s && pools[s] in b && b[pools[s]].kind == End && b[pools[s]].pool == s)
    && (forall a :: a in b ==>
          b[a].pool in pools && b[a].pool <= a <= pools[b[a].pool] && (b[a].kind == End <==> a == pools[b[a].pool]))
    && (forall s, t :: s in pools && t in pools && s < t ==> pools[s] < t)
  }

  ghost predicate Heap(m: Mem, b: Blocks, pools: Pools) {
    Apart(b) && PoolsOk(b, pools) && forall a {:trigger BlkOk(m, b, a)} :: a in b ==> BlkOk(m, b, a)
  }

  /** Every block in use can become a free one. */
  predicate Roomy(b: Blocks) {
    forall a :: a in b && b[a].kind == Used ==> 4 <= b[a].size
  }

  function Listing(b: Blocks): (f: Listed)
    ensures forall a :: a in f <==> a in b && b[a].kind == Free
  {
    map a | a in b && b[a].kind == Free :: b[a].size
  }

  // ----- steps that only touch other words -----

  predicate SameTags(m: Mem, r: Mem, b: Blocks) {
    |r| == |m| && forall a :: a in b && HEAP <= a && 1 <= b[a].size && a + b[a].size <= |m| ==>
      r[a] == m[a] && (Open(b[a].kind) ==> r[a + b[a].size - 1] == m[a + b[a].size - 1])
  }

  lemma TagsFrame(m: Mem, r: Mem, b: Blocks, pools: Pools)
    requires Heap(m, b, pools) && SameTags(m, r, b)
    ensures Heap(r, b, pools)
  {
    hide PoolsOk, Apart;
    forall a | a in b
      ensures BlkOk(r, b, a)
    {
      SameBlk(m, r, b, pools, a);
    }
  }

  lemma SameBlk(m: Mem, r: Mem, b: Blocks, pools: Pools, a: int)
    requires Heap(m, b, pools) && SameTags(m, r, b) && a in b
    ensures BlkOk(r, b, a)
  {
    hide PoolsOk, Apart;
    assert BlkOk(m, b, a);
  }

  // ----- what a step may write -----

  /** Not the block at `but`; a negative one excepts none. */
  predicate Other(a: int, but: int) {
    but < 0 || a != but
  }

  /** The words of the blocks in use, other than the one at `but`, are as they were. */
  predicate Untouched(m: Mem, r: Mem, b: Blocks, but: int) {
    |r| == |m| && forall u, i {:trigger b[u], r[i]} ::
      u in b && Other(u, but) && b[u].kind == Used && HEAP <= u < i < u + b[u].size <= |m| ==> r[i] == m[i]
  }

  /** The heads of the lists and the links of the free blocks are as they were. */
  predicate LinksKept(m: Mem, r: Mem, b: Blocks) {
    && |r| == |m|
    && (forall i :: 0 <= i < HEAP && i < |m| ==> r[i] == m[i])
    && (forall a :: a in b && b[a].kind == Free && 0 <= a < |m| - 2 ==> r[a + 1] == m[a + 1] && r[a + 2] == m[a + 2])
  }

  /** A word that a step may write: the length word of a block, or any word of a held block or of the one at `but`. */
  predicate MayWrite(b: Blocks, but: int, i: int, x: int) {
    x in b && HEAP <= x <= i < x + b[x].size && (i == x || b[x].kind == Held || x == but) && (x == but ==> b[x].kind != Free)
  }

  ghost predicate Tagged(m: Mem, r: Mem, b: Blocks, but: int) {
    |r| == |m| && forall i :: 0 <= i < |m| && r[i] != m[i] ==> exists x :: MayWrite(b, but, i, x)
  }

  lemma TaggedKeeps(m: Mem, r: Mem, b: Blocks, pools: Pools, but: int)
    requires Heap(m, b, pools) && Tagged(m, r, b, but)
    ensures Untouched(m, r, b, but) && LinksKept(m, r, b)
  {
    hide PoolsOk;
    forall u, i {:trigger b[u], r[i]} | u in b && Other(u, but) && b[u].kind == Used && HEAP <= u < i < u + b[u].size <= |m|
      ensures r[i] == m[i]
    {
    }
    forall a | a in b && b[a].kind == Free && 0 <= a < |m| - 2
      ensures r[a + 1] == m[a + 1] && r[a + 2] == m[a + 2]
    {
      assert BlkOk(m, b, a);
    }
  }

  /** The blocks in use, other than the one at `but`, are the same ones. */
  predicate StillUsed(b: Blocks, b2: Blocks, but: int) {
    forall u :: u in b && Other(u, but) && b[u].kind == Used ==> u in b2 && b2[u].kind == Used && b2[u].size == b[u].size
  }

  /** Two steps one after the other. */
  lemma UntouchedTwice(m: Mem, q: Mem, r: Mem, b: Blocks, c: Blocks, but: int)
    requires Untouched(m, q, b, but) && Untouched(q, r, c, but)
    requires StillUsed(b, c, but)
    ensures Untouched(m, r, b, but)
  {
  }

  // ----- reading the invariant -----

  lemma BlkAt(m: Mem, b: Blocks, pools: Pools, c: int)
    requires Heap(m, b, pools) && c in b
    ensures BlkOk(m, b, c)
  {
  }

  /** Distances between blocks. */
  lemma ApartAt(m: Mem, b: Blocks, pools: Pools, a: int, c: int)
    requires Heap(m, b, pools) && a in b && c in b && a != c
    ensures c + b[c].size <= a || a + b[a].size <= c
  {
  }

  /** The block behind another one is in the same pool, and is not the first of it. */
  lemma NextAt(m: Mem, b: Blocks, pools: Pools, a: int)
    requires Heap(m, b, pools) && a in b && b[a].kind != End
    ensures var c := a + b[a].size; BlkOk(m, b, a) && BlkOk(m, b, c) && b[c].pool == b[a].pool && c !in pools
    ensures UNIT * (b[a].size + b[a + b[a].size].size) < LIMIT + UNIT
    ensures b[a + b[a].size].kind != End ==> UNIT * (b[a].size + b[a + b[a].size].size) < LIMIT
  {
    assert BlkOk(m, b, a);
    var c := a + b[a].size;
    assert BlkOk(m, b, c);
    var e := pools[b[a].pool];
    assert BlkOk(m, b, e);
    assert a < e && a + b[a].size <= e;
    assert c < e ==> c + b[c].size <= e;
  }

  /** No block is held but perhaps the one at `but`. */
  predicate NoneHeld(b: Blocks, but: int) {
    forall a :: a in b && Other(a, but) ==> b[a].kind != Held
  }

  /** What comes before a free block is in use, unless it is held. */
  lemma FreePrev(m: Mem, b: Blocks, pools: Pools, a: int, but: int)
    requires Heap(m, b, pools) && a in b && b[a].kind == Free && NoneHeld(b, but) && a < but
    ensures b[a].prev
  {
    hide Heap;
    BlkAt(m, b, pools, a);
    if !b[a].prev {
      var p :| Follows(b, p, a);
      BlkAt(m, b, pools, p);
    }
  }

  /** A block changes its state but not its size. */
  lemma SameShape(b: Blocks, pools: Pools, a: int, x: Blk)
    requires PoolsOk(b, pools) && Apart(b) && a in b && x.pool == b[a].pool && x.size == b[a].size
    requires (x.kind == End <==> b[a].kind == End) && (a in pools ==> x.prev)
    ensures PoolsOk(b[a := x], pools) && Apart(b[a := x])
  {
    hide PoolsOk;
    SamePools(b, pools, a, x);
  }

  lemma SamePools(b: Blocks, pools: Pools, a: int, x: Blk)
    requires PoolsOk(b, pools) && a in b && x.pool == b[a].pool
    requires (x.kind == End <==> b[a].kind == End) && (a in pools ==> x.prev)
    ensures PoolsOk(b[a := x], pools)
  {
  }

  /** What a block needs of the blocks around it. */
  ghost predicate Around(b: Blocks, a: int) {
    a in b &&
    var x := b[a];
    && (x.kind != End ==> a + x.size in b && b[a + x.size].pool == x.pool)
    && (x.kind == Used ==> b[a + x.size].prev)
    && (x.kind == Free ==> !b[a + x.size].prev && b[a + x.size].kind != Free)
    && (!x.prev ==> exists p :: Follows(b, p, a))
  }

  /** A block whose words stay and whose neighbours still suit it. */
  lemma Unmoved(m: Mem, r: Mem, b: Blocks, b2: Blocks, c: int)
    requires BlkOk(m, b, c) && Around(b2, c) && b2[c] == b[c] && |r| == |m| && r[c] == m[c]
    requires Open(b[c].kind) ==> r[c + b[c].size - 1] == m[c + b[c].size - 1]
    ensures BlkOk(r, b2, c)
  {
  }

  // ----- set_free_mb -----

  /** `bits` are the flags. */
  function SetFree(m: Mem, a: int, n: nat, bits: int): (r: Mem)
    requires 0 <= a && 1 <= n && a + n <= |m|
    ensures |r| == |m|
  {
    m[a := UNIT * n + bits][a + n - 1 := UNIT * n]
  }

  function PrevBit(x: Blk): int {
    if x.prev then 2 else 0
  }

  lemma SetFreeWord(m: Mem, a: int, n: nat, bits: int, i: int)
    requires 0 <= a && 1 <= n && a + n <= |m| && 0 <= i < |m|
    ensures SetFree(m, a, n, bits)[i] == if i == a + n - 1 then UNIT * n else if i == a then UNIT * n + bits else m[i]
  {
  }

  /** set_free_mb inside one block. */
  lemma SetFreeTagged(m: Mem, b: Blocks, x: int, a: int, n: nat, bits: int, but: int)
    requires x in b && HEAP <= x <= a && 1 <= n && a + n <= x + b[x].size <= |m| && (b[x].kind == Held || (x == but && b[x].kind == Used))
    ensures Tagged(m, SetFree(m, a, n, bits), b, but)
  {
    var r := SetFree(m, a, n, bits);
    forall i | 0 <= i < |m| && r[i] != m[i]
      ensures exists y :: MayWrite(b, but, i, y)
    {
      assert MayWrite(b, but, i, x);
    }
  }

  /** A block in use is given up. */
  lemma Release(m: Mem, b: Blocks, pools: Pools, a: int)
    requires Heap(m, b, pools) && a in b && b[a].kind == Used && 4 <= b[a].size
    ensures 0 <= a && a + b[a].size <= |m|
    ensures var r := SetFree(m, a, b[a].size, PrevBit(b[a]));
            Heap(r, b[a := b[a].(kind := Held)], pools) && Tagged(m, r, b, a)
  {
    hide BlkOk, Tagged, SetFree;
    assert 0 <= a && a + b[a].size <= |m| && HEAP <= a by { BlkAt(m, b, pools, a); BlkBounds(m, b, a); }
    var r, b2 := SetFree(m, a, b[a].size, PrevBit(b[a])), b[a := b[a].(kind := Held)];
    SetFreeTagged(m, b, a, a, b[a].size, PrevBit(b[a]), a);
    SameShape(b, pools, a, b2[a]);
    hide PoolsOk, Apart;
    forall c | c in b2
      ensures BlkOk(r, b2, c)
    {
      ReleaseAt(m, b, pools, a, c);
    }
  }

  lemma BlkBounds(m: Mem, b: Blocks, a: int)
    requires BlkOk(m, b, a)
    ensures HEAP <= a && 1 <= b[a].size && a + b[a].size <= |m|
  {
  }

  lemma ReleaseAt(m: Mem, b: Blocks, pools: Pools, a: int, c: int)
    requires Heap(m, b, pools) && a in b && b[a].kind == Used && 4 <= b[a].size && 0 <= a && a + b[a].size <= |m| && c in b
    ensures BlkOk(SetFree(m, a, b[a].size, PrevBit(b[a])), b[a := b[a].(kind := Held)], c)
  {
    hide Heap, SetFree;
    BlkAt(m, b, pools, a);
    BlkAt(m, b, pools, c);
    var r, b2 := SetFree(m, a, b[a].size, PrevBit(b[a])), b[a := b[a].(kind := Held)];
    var n := b[a].size;
    SetFreeWord(m, a, n, PrevBit(b[a]), c);
    SetFreeWord(m, a, n, PrevBit(b[a]), c + b[c].size - 1);
    if !b[c].prev {
      var p :| Follows(b, p, c);
      assert Follows(b2, p, c);
    }
    if c != a {
      ApartAt(m, b, pools, a, c);
      Unmoved(m, r, b, b2, c);
    }
  }

  // ----- blocks go in and out of the hands of an operation -----

  /** A free block is taken. */
  lemma Take(m: Mem, b: Blocks, pools: Pools, a: int)
    requires Heap(m, b, pools) && a in b && b[a].kind == Free
    ensures Heap(m, b[a := b[a].(kind := Held)], pools)
  {
    hide BlkOk;
    var b2 := b[a := b[a].(kind := Held)];
    SameShape(b, pools, a, b2[a]);
    hide PoolsOk, Apart;
    forall c | c in b2
      ensures BlkOk(m, b2, c)
    {
      TakeAt(m, b, pools, a, c);
    }
  }

  lemma TakeAt(m: Mem, b: Blocks, pools: Pools, a: int, c: int)
    requires Heap(m, b, pools) && a in b && b[a].kind == Free && c in b
    ensures BlkOk(m, b[a := b[a].(kind := Held)], c)
  {
    hide Heap;
    BlkAt(m, b, pools, a);
    BlkAt(m, b, pools, c);
    var b2 := b[a := b[a].(kind := Held)];
    if !b[c].prev {
      var p :| Follows(b, p, c);
      assert Follows(b2, p, c);
    }
    if c != a { Unmoved(m, m, b, b2, c); }
  }

  /** A held block becomes free: what comes before and after it is in use. */
  lemma Give(m: Mem, b: Blocks, pools: Pools, a: int)
    requires Heap(m, b, pools) && a in b && b[a].kind == Held && b[a].prev && 4 <= b[a].size
    requires a + b[a].size in b ==> !b[a + b[a].size].prev && !Open(b[a + b[a].size].kind)
    ensures Heap(m, b[a := b[a].(kind := Free)], pools)
  {
    hide BlkOk;
    var b2 := b[a := b[a].(kind := Free)];
    SameShape(b, pools, a, b2[a]);
    hide PoolsOk, Apart;
    forall c | c in b2
      ensures BlkOk(m, b2, c)
    {
      GiveAt(m, b, pools, a, c);
    }
  }

  lemma GiveAt(m: Mem, b: Blocks, pools: Pools, a: int, c: int)
    requires Heap(m, b, pools) && a in b && b[a].kind == Held && b[a].prev && 4 <= b[a].size && c in b
    requires a + b[a].size in b ==> !b[a + b[a].size].prev && !Open(b[a + b[a].size].kind)
    ensures BlkOk(m, b[a := b[a].(kind := Free)], c)
  {
    hide Heap;
    BlkAt(m, b, pools, a);
    BlkAt(m, b, pools, c);
    var b2 := b[a := b[a].(kind := Free)];
    if !b[c].prev {
      var p :| Follows(b, p, c);
      assert Follows(b2, p, c);
    }
    if c != a { Unmoved(m, m, b, b2, c); }
  }

  /** The flag behind a held block is brought up to date. */
  lemma Quiet(m: Mem, b: Blocks, pools: Pools, a: int)
    requires Heap(m, b, pools) && a in b && b[a].kind == Held
    ensures var c := a + b[a].size;
            && c in b && 0 <= c < |m| && c !in pools
            && (var b2 := b[c := b[c].(prev := false)]; var r := m[c := Header(b2[c])]; Heap(r, b2, pools) && Tagged(m, r, b, -1))
  {
    hide BlkOk, Tagged;
    NextAt(m, b, pools, a);
    var c := a + b[a].size;
    assert c in b && 0 <= c < |m| by { BlkBounds(m, b, a); BlkBounds(m, b, c); NextIn(m, b, a); }
    var b2 := b[c := b[c].(prev := false)];
    var r := m[c := Header(b2[c])];
    HeaderTagged(m, b, c, Header(b2[c]), -1) by { BlkBounds(m, b, c); }
    SameShape(b, pools, c, b2[c]);
    hide PoolsOk, Apart;
    forall d | d in b2
      ensures BlkOk(r, b2, d)
    {
      QuietAt(m, b, pools, a, d);
    }
  }

  lemma NextIn(m: Mem, b: Blocks, a: int)
    requires BlkOk(m, b, a) && b[a].kind != End
    ensures a + b[a].size in b
  {
  }

  /** A length word is rewritten. */
  lemma HeaderTagged(m: Mem, b: Blocks, c: int, w: int, but: int)
    requires c in b && HEAP <= c < c + b[c].size <= |m| && (c == but ==> b[c].kind != Free)
    ensures Tagged(m, m[c := w], b, but)
  {
    var r := m[c := w];
    forall i | 0 <= i < |m| && r[i] != m[i]
      ensures exists y :: MayWrite(b, but, i, y)
    {
      assert MayWrite(b, but, i, c);
    }
  }

  lemma QuietAt(m: Mem, b: Blocks, pools: Pools, a: int, d: int)
    requires Heap(m, b, pools) && a in b && b[a].kind == Held && d in b && a + b[a].size in b && 0 <= a + b[a].size < |m|
    ensures var c := a + b[a].size;
            var b2 := b[c := b[c].(prev := false)];
            BlkOk(m[c := Header(b2[c])], b2, d)
  {
    hide Heap;
    var c := a + b[a].size;
    BlkAt(m, b, pools, a);
    BlkAt(m, b, pools, c);
    BlkAt(m, b, pools, d);
    var b2 := b[c := b[c].(prev := false)];
    var r := m[c := Header(b2[c])];
    assert Follows(b2, a, c);
    if d != c {
      ApartAt(m, b, pools, c, d);
      if !b[d].prev {
        var p :| Follows(b, p, d);
        assert Follows(b2, p, d);
      }
      if b[d].kind == Used && d + b[d].size == c { ApartAt(m, b, pools, a, d); }
      Unmoved(m, r, b, b2, d);
    }
  }

  /** Two blocks become one. */
  function Joined(b: Blocks, a: int, c: int): Blocks
    requires a in b && c in b
  {
    (b - {c})[a := b[a].(size := b[a].size + b[c].size)]
  }

  lemma JoinApart(b: Blocks, a: int, c: int)
    requires Apart(b) && a in b && c in b && c == a + b[a].size && 0 < b[a].size
    ensures Apart(Joined(b, a, c))
  {
  }

  lemma JoinPools(b: Blocks, pools: Pools, a: int, c: int)
    requires PoolsOk(b, pools) && a in b && c in b && b[a].kind != End && b[c].kind != End && c !in pools && a != c
    ensures PoolsOk(Joined(b, a, c), pools)
  {
  }

  /** Two held ones. */
  lemma Merge(m: Mem, b: Blocks, pools: Pools, a: int)
    requires Heap(m, b, pools) && a in b && b[a].kind == Held && b[a].prev
    requires a + b[a].size in b && b[a + b[a].size].kind == Held
    ensures var c := a + b[a].size; var n := b[a].size + b[c].size;
            && 0 <= a && 1 <= n && a + n <= |m|
            && (var r := SetFree(m, a, n, 2); Heap(r, Joined(b, a, c), pools) && Tagged(m, r, b, -1))
  {
    hide BlkOk, Tagged, SetFree;
    NextAt(m, b, pools, a);
    var c := a + b[a].size;
    var n := b[a].size + b[c].size;
    BlkBounds(m, b, a);
    BlkBounds(m, b, c);
    var r, b2 := SetFree(m, a, n, 2), Joined(b, a, c);
    MergeTagged(m, b, a, -1);
    MergePools(m, b, pools, a);
    hide PoolsOk;
    forall d | d in b2
      ensures BlkOk(r, b2, d)
    {
      MergeAt(m, b, pools, a, d);
    }
  }

  lemma MergeTagged(m: Mem, b: Blocks, a: int, but: int)
    requires a in b && b[a].kind == Held && a + b[a].size in b && b[a + b[a].size].kind == Held
    requires HEAP <= a && 1 <= b[a].size && 1 <= b[a + b[a].size].size && a + b[a].size + b[a + b[a].size].size <= |m|
    ensures Tagged(m, SetFree(m, a, b[a].size + b[a + b[a].size].size, 2), b, but)
  {
    var c := a + b[a].size;
    var r := SetFree(m, a, b[a].size + b[c].size, 2);
    forall i | 0 <= i < |m| && r[i] != m[i]
      ensures exists y :: MayWrite(b, but, i, y)
    {
      if i < c { assert MayWrite(b, but, i, a); } else { assert MayWrite(b, but, i, c); }
    }
  }

  lemma MergePools(m: Mem, b: Blocks, pools: Pools, a: int)
    requires Heap(m, b, pools) && a in b && b[a].kind == Held && b[a].prev
    requires a + b[a].size in b && b[a + b[a].size].kind == Held
    ensures PoolsOk(Joined(b, a, a + b[a].size), pools) && Apart(Joined(b, a, a + b[a].size))
  {
    hide BlkOk, PoolsOk, Apart;
    NextAt(m, b, pools, a);
    BlkBounds(m, b, a);
    JoinApart(b, a, a + b[a].size);
    JoinPools(b, pools, a, a + b[a].size);
  }

  lemma MergeAt(m: Mem, b: Blocks, pools: Pools, a: int, d: int)
    requires Heap(m, b, pools) && a in b && b[a].kind == Held && b[a].prev
    requires a + b[a].size in b && b[a + b[a].size].kind == Held
    requires var n := b[a].size + b[a + b[a].size].size; 0 <= a && 1 <= n && a + n <= |m|
    requires d in b && d != a + b[a].size
    ensures var c := a + b[a].size;
            BlkOk(SetFree(m, a, b[a].size + b[c].size, 2), Joined(b, a, c), d)
  {
    hide Heap, SetFree;
    NextAt(m, b, pools, a);
    BlkAt(m, b, pools, d);
    var c := a + b[a].size;
    var n, b2 := b[a].size + b[c].size, Joined(b, a, c);
    var r := SetFree(m, a, n, 2);
    SetFreeWord(m, a, n, 2, d);
    if d == a {
      SetFreeWord(m, a, n, 2, a + n - 1);
    } else {
      ApartAt(m, b, pools, a, d);
      ApartAt(m, b, pools, c, d);
      SetFreeWord(m, a, n, 2, d + b[d].size - 1);
      if !b[d].prev {
        var p :| Follows(b, p, d);
        assert Follows(b2, if p == c then a else p, d);
      }
      if d < a { ApartAt(m, b, pools, d, c); }
      Unmoved(m, r, b, b2, d);
    }
  }

  /** The words of the pieces of a block that is cut in two, the second one held; those outside it stay. */
  predicate Pieces(m: Mem, r: Mem, b: Blocks, a: int, z: nat) {
    a in b && 0 <= a && 1 <= z < b[a].size && a + b[a].size <= |m| && |r| == |m| &&
    var x, y := b[a].(size := z), Blk(b[a].size - z, Held, true, b[a].pool);
    && r[a] == Header(x) && (Open(x.kind) ==> r[a + z - 1] == UNIT * z)
    && r[a + z] == Header(y) && r[a + b[a].size - 1] == UNIT * y.size
    && forall i :: 0 <= i < |m| && !(a <= i < a + b[a].size) ==> r[i] == m[i]
  }

  function CutOff(b: Blocks, a: int, z: nat): Blocks
    requires a in b && z < b[a].size
  {
    b[a := b[a].(size := z)][a + z := Blk(b[a].size - z, Held, true, b[a].pool)]
  }

  /** A held block, or one in use, is cut in two. */
  lemma Cut(m: Mem, r: Mem, b: Blocks, pools: Pools, a: int, z: nat)
    requires Heap(m, b, pools) && Pieces(m, r, b, a, z) && 4 <= b[a].size - z
    requires b[a].kind == Held || (b[a].kind == Used && 2 <= z)
    ensures Heap(r, CutOff(b, a, z), pools) && a + z !in b
  {
    hide BlkOk;
    var b2 := CutOff(b, a, z);
    CutPools(m, r, b, pools, a, z);
    hide Pieces;
    hide PoolsOk, Apart;
    forall d | d in b2
      ensures BlkOk(r, b2, d)
    {
      CutAt(m, r, b, pools, a, z, d);
    }
  }

  lemma CutPools(m: Mem, r: Mem, b: Blocks, pools: Pools, a: int, z: nat)
    requires Heap(m, b, pools) && Pieces(m, r, b, a, z) && b[a].kind != End
    ensures PoolsOk(CutOff(b, a, z), pools) && Apart(CutOff(b, a, z)) && a + z !in b
  {
    hide BlkOk, Apart;
    NextAt(m, b, pools, a);
    CutFresh(b, a, z);
    CutApart(b, a, z);
    InPool(m, b, pools, a);
    CutPoolsOk(b, pools, a, z);
  }

  /** A block ends before the sentinel of its pool does. */
  lemma InPool(m: Mem, b: Blocks, pools: Pools, a: int)
    requires Heap(m, b, pools) && a in b && b[a].kind != End
    ensures b[a].pool in pools && b[a].pool <= a && a + b[a].size <= pools[b[a].pool]
  {
    assert a < pools[b[a].pool];
  }

  lemma CutPoolsOk(b: Blocks, pools: Pools, a: int, z: nat)
    requires PoolsOk(b, pools) && a in b && b[a].kind != End && 0 < z < b[a].size && a + z !in b
    requires b[a].pool in pools && b[a].pool <= a && a + b[a].size <= pools[b[a].pool]
    ensures PoolsOk(CutOff(b, a, z), pools)
  {
    var c := CutOff(b, a, z);
    forall s | s in pools
      ensures s < pools[s] && UNIT * (pools[s] - s) < LIMIT && s in c && c[s].prev && c[s].pool == s
      ensures pools[s] in c && c[pools[s]].kind == End && c[pools[s]].pool == s
    {
      assert s in b && pools[s] in b && s != a + z;
    }
    forall x | x in c
      ensures c[x].pool in pools && c[x].pool <= x <= pools[c[x].pool] && (c[x].kind == End <==> x == pools[c[x].pool])
    {
      assert x != a + z ==> x in b && c[x].pool == b[x].pool;
    }
  }

  lemma CutFresh(b: Blocks, a: int, z: nat)
    requires Apart(b) && a in b && 0 < z < b[a].size
    ensures a + z !in b
  {
  }

  lemma CutApart(b: Blocks, a: int, z: nat)
    requires Apart(b) && a in b && 0 < z < b[a].size
    ensures Apart(CutOff(b, a, z))
  {
  }

  lemma CutAt(m: Mem, r: Mem, b: Blocks, pools: Pools, a: int, z: nat, d: int)
    requires Heap(m, b, pools) && Pieces(m, r, b, a, z) && 4 <= b[a].size - z && a + z !in b && d in CutOff(b, a, z)
    requires b[a].kind == Held || (b[a].kind == Used && 2 <= z)
    ensures BlkOk(r, CutOff(b, a, z), d)
  {
    hide Heap;
    NextAt(m, b, pools, a);
    var b2 := CutOff(b, a, z);
    if d in b {
      BlkAt(m, b, pools, d);
      if !b[d].prev {
        var p :| Follows(b, p, d);
        assert Follows(b2, if p == a then a + z else p, d);
      }
      if d != a {
        ApartAt(m, b, pools, a, d);
        Unmoved(m, r, b, b2, d);
      }
    }
  }

  /** A held block comes into use. */
  lemma Use(m: Mem, b: Blocks, pools: Pools, a: int)
    requires Heap(m, b, pools) && a in b && b[a].kind == Held && 2 <= b[a].size
    requires a + b[a].size in b ==> b[a + b[a].size].kind != Held
    ensures var c := a + b[a].size;
            && c in b && 0 <= a < c < |m|
            && (var b2 := b[a := b[a].(kind := Used)][c := b[c].(prev := true)];
                var r := m[a := Header(b2[a])][c := Header(b2[c])];
                Heap(r, b2, pools) && Tagged(m, r, b, -1))
  {
    hide BlkOk, Tagged;
    NextAt(m, b, pools, a);
    var c := a + b[a].size;
    NextIn(m, b, a);
    BlkBounds(m, b, a);
    BlkBounds(m, b, c);
    var b2 := b[a := b[a].(kind := Used)][c := b[c].(prev := true)];
    var r := m[a := Header(b2[a])][c := Header(b2[c])];
    UseTagged(m, b, a, c, Header(b2[a]), Header(b2[c]));
    hide PoolsOk, Apart;
    SameShape(b, pools, a, b2[a]);
    SameShape(b[a := b2[a]], pools, c, b2[c]);
    forall d | d in b2
      ensures BlkOk(r, b2, d)
    {
      UseAt(m, b, pools, a, d);
    }
  }

  lemma UseTagged(m: Mem, b: Blocks, a: int, c: int, v: int, w: int)
    requires a in b && c in b && HEAP <= a < a + b[a].size <= |m| && HEAP <= c < c + b[c].size <= |m| && b[a].kind == Held && a != c
    ensures Tagged(m, m[a := v][c := w], b, -1)
  {
    var r := m[a := v][c := w];
    forall i | 0 <= i < |m| && r[i] != m[i]
      ensures exists y :: MayWrite(b, -1, i, y)
    {
      assert MayWrite(b, -1, i, if i == a then a else c);
    }
  }

  lemma UseAt(m: Mem, b: Blocks, pools: Pools, a: int, d: int)
    requires Heap(m, b, pools) && a in b && b[a].kind == Held && 2 <= b[a].size && d in b
    requires a + b[a].size in b && b[a + b[a].size].kind != Held && 0 <= a < a + b[a].size < |m|
    ensures var c := a + b[a].size;
            var b2 := b[a := b[a].(kind := Used)][c := b[c].(prev := true)];
            BlkOk(m[a := Header(b2[a])][c := Header(b2[c])], b2, d)
  {
    hide Heap;
    var c := a + b[a].size;
    NextAt(m, b, pools, a);
    BlkAt(m, b, pools, d);
    var b2 := b[a := b[a].(kind := Used)][c := b[c].(prev := true)];
    var r := m[a := Header(b2[a])][c := Header(b2[c])];
    if !b[d].prev && d != c {
      var p :| Follows(b, p, d);
      assert Follows(b2, p, d);
    }
    if d != a { ApartAt(m, b, pools, a, d); }
    if d != c { ApartAt(m, b, pools, c, d); }
    if d != a && d != c { Unmoved(m, r, b, b2, d); }
  }

  // ----- a block in use takes from the held one behind it, or gives to it -----

  /** The words when the boundary between the block at `a` and the one behind it moves to `a + z`. */
  predicate Shifted(m: Mem, r: Mem, b: Blocks, a: int, z: nat) {
    a in b && a + b[a].size in b &&
    var t := b[a].size + b[a + b[a].size].size;
    && 0 <= a && 1 <= z < t && a + t <= |m| && |r| == |m|
    && r[a] == Header(b[a].(size := z)) && r[a + z] == Header(Blk(t - z, Held, true, b[a].pool)) && r[a + t - 1] == UNIT * (t - z)
    && forall i :: 0 <= i < |m| && !(a <= i < a + t) ==> r[i] == m[i]
  }

  function Shift(b: Blocks, a: int, z: nat): Blocks
    requires a in b && a + b[a].size in b && z < b[a].size + b[a + b[a].size].size
  {
    CutOff(Joined(b, a, a + b[a].size), a, z)
  }

  lemma MoveBoundary(m: Mem, r: Mem, b: Blocks, pools: Pools, a: int, z: nat)
    requires Heap(m, b, pools) && Shifted(m, r, b, a, z) && b[a].kind == Used && b[a + b[a].size].kind == Held
    requires 2 <= z && 4 <= b[a].size + b[a + b[a].size].size - z
    ensures Heap(r, Shift(b, a, z), pools)
  {
    hide BlkOk;
    var b2 := Shift(b, a, z);
    var t := b[a].size + b[a + b[a].size].size;
    NextAt(m, b, pools, a);
    InPool(m, b, pools, a);
    InPool(m, b, pools, a + b[a].size);
    var c := a + b[a].size;
    assert 0 < b[a].size by { BlkBounds(m, b, a); }
    JoinApart(b, a, c);
    JoinPools(b, pools, a, c);
    CutFresh(Joined(b, a, c), a, z);
    CutApart(Joined(b, a, c), a, z);
    CutPoolsOk(Joined(b, a, c), pools, a, z);
    hide PoolsOk, Apart, Shifted;
    forall d | d in b2
      ensures BlkOk(r, b2, d)
    {
      ShiftAt(m, r, b, pools, a, z, d);
    }
  }

  lemma ShiftAt(m: Mem, r: Mem, b: Blocks, pools: Pools, a: int, z: nat, d: int)
    requires Heap(m, b, pools) && Shifted(m, r, b, a, z) && b[a].kind == Used && b[a + b[a].size].kind == Held
    requires 2 <= z && 4 <= b[a].size + b[a + b[a].size].size - z && d in Shift(b, a, z)
    requires a + z !in Joined(b, a, a + b[a].size)
    ensures BlkOk(r, Shift(b, a, z), d)
  {
    hide Heap;
    var c := a + b[a].size;
    NextAt(m, b, pools, a);
    NextAt(m, b, pools, c);
    if d == a || d == a + z {
      if d == a && !b[a].prev {
        var p :| Follows(b, p, a);
        assert Follows(Shift(b, a, z), p, a);
      }
    } else {
      hide BlkOk;
      ShiftOther(m, r, b, pools, a, z, d);
    }
  }

  lemma ShiftOther(m: Mem, r: Mem, b: Blocks, pools: Pools, a: int, z: nat, d: int)
    requires Heap(m, b, pools) && Shifted(m, r, b, a, z) && b[a].kind == Used && b[a + b[a].size].kind == Held
    requires 2 <= z && 4 <= b[a].size + b[a + b[a].size].size - z && d in Shift(b, a, z) && d != a && d != a + z
    requires a + z !in Joined(b, a, a + b[a].size) && BlkOk(m, b, a) && BlkOk(m, b, a + b[a].size)
    ensures BlkOk(r, Shift(b, a, z), d)
  {
    hide Heap;
    var c := a + b[a].size;
    var b2 := Shift(b, a, z);
    BlkAt(m, b, pools, d);
    if !b[d].prev {
      var p :| Follows(b, p, d);
      assert Follows(b2, if p == c then a + z else p, d);
    }
    ApartAt(m, b, pools, a, d);
    ApartAt(m, b, pools, c, d);
    Unmoved(m, r, b, b2, d);
  }

  /** The words when the block at `a` takes the whole of the one behind it. */
  predicate Swallowed(m: Mem, r: Mem, b: Blocks, a: int) {
    a in b && a + b[a].size in b &&
    var t := b[a].size + b[a + b[a].size].size;
    && a + t in b && 0 <= a && a + t < |m| && |r| == |m|
    && r[a] == Header(b[a].(size := t)) && r[a + t] == Header(b[a + t].(prev := true))
    && forall i :: 0 <= i < |m| && !(a <= i <= a + t) ==> r[i] == m[i]
  }

  function Absorb(b: Blocks, a: int): Blocks
    requires a in b && a + b[a].size in b && a + b[a].size + b[a + b[a].size].size in b
  {
    var c := a + b[a].size;
    (b - {c})[a := b[a].(size := b[a].size + b[c].size)][c + b[c].size := b[c + b[c].size].(prev := true)]
  }

  lemma TakeAll(m: Mem, r: Mem, b: Blocks, pools: Pools, a: int)
    requires Heap(m, b, pools) && Swallowed(m, r, b, a) && b[a].kind == Used && b[a + b[a].size].kind == Held
    ensures Heap(r, Absorb(b, a), pools)
  {
    hide BlkOk, PoolsOk, Apart, Swallowed;
    SwallowedAt(m, r, b, a);
    TakeAllShape(m, b, pools, a);
    forall d | d in Absorb(b, a)
      ensures BlkOk(r, Absorb(b, a), d)
    {
      TakeAllAt(m, r, b, pools, a, d);
    }
  }

  lemma SwallowedAt(m: Mem, r: Mem, b: Blocks, a: int)
    requires Swallowed(m, r, b, a)
    ensures a in b && a + b[a].size in b && a + b[a].size + b[a + b[a].size].size in b
  {
  }

  lemma TakeAllShape(m: Mem, b: Blocks, pools: Pools, a: int)
    requires Heap(m, b, pools) && a in b && a + b[a].size in b && a + b[a].size + b[a + b[a].size].size in b
    requires b[a].kind == Used && b[a + b[a].size].kind == Held
    ensures Apart(Absorb(b, a)) && PoolsOk(Absorb(b, a), pools)
  {
    hide BlkOk, PoolsOk, Apart;
    var b2 := Absorb(b, a);
    var c := a + b[a].size;
    var e := c + b[c].size;
    NextAt(m, b, pools, a);
    assert 0 < b[a].size && 0 < b[c].size by { BlkBounds(m, b, a); BlkBounds(m, b, c); }
    JoinApart(b, a, c);
    JoinPools(b, pools, a, c);
    SameShape(Joined(b, a, c), pools, e, b2[e]);
  }

  lemma TakeAllAt(m: Mem, r: Mem, b: Blocks, pools: Pools, a: int, d: int)
    requires Heap(m, b, pools) && Swallowed(m, r, b, a) && b[a].kind == Used && b[a + b[a].size].kind == Held && d in Absorb(b, a)
    ensures BlkOk(r, Absorb(b, a), d)
  {
    hide Heap;
    NextAt(m, b, pools, a);
    var c := a + b[a].size;
    NextAt(m, b, pools, c);
    var e := c + b[c].size;
    var b2 := Absorb(b, a);
    BlkAt(m, b, pools, d);
    if !b[d].prev && d != e {
      var p :| Follows(b, p, d);
      assert Follows(b2, p, d);
    }
    if d != a { ApartAt(m, b, pools, a, d); }
    if d != c { ApartAt(m, b, pools, c, d); }
    if d != e { ApartAt(m, b, pools, e, d); }
    if d != a && d != e { Unmoved(m, r, b, b2, d); }
  }
}
