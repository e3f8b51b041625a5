/**
 * The size classes of the two-level segregated fit allocator, src/dynmem.c, on a 64-bit machine. Sizes are in bytes
 * and multiples of the unit of 8 bytes; the classes are numbered `l1 * 256 + l2` as in the code.
 */
module TlsfClasses {
  import opened Powers

  const UNIT := 8
  const MINSZ := 32
  const LG2_UNIT := 3
  const L2_LEN := 6
  const FULL := 64
  const SZ_BITS := 64
  const LG2_ALIM := 63
  const NUM_L2 := 60
  const NUM_SMALL := 6
  const NUM_HEADS := 3519

  /** Sizes from here on are outside the model: the code shifts a signed 32-bit one by the exponent of the size. */
  const LIMIT := 0x8000_0000

  lemma Constants()
    ensures NUM_L2 == LG2_ALIM - LG2_UNIT && FULL == Pow2(L2_LEN) && NUM_SMALL == L2_LEN && UNIT == Pow2(LG2_UNIT)
    ensures NUM_HEADS == (NUM_L2 - L2_LEN) * FULL + Pow2(NUM_SMALL) - 1
    ensures LIMIT == Pow2(31)
  {
    assert Pow2(8) == 256;
    assert Pow2(16) == 65536 by { Pow2Sum(8, 8); }
    assert Pow2(24) == 256 * 65536 by { Pow2Sum(16, 8); }
    assert Pow2(31) == Pow2(24) * Pow2(7) by { Pow2Sum(24, 7); }
  }

  /** tl2_nblists */
  function Lists(l1: nat): (n: nat)
    ensures 1 <= n
  {
    if l1 < NUM_SMALL then Pow2(l1) else FULL
  }

  predicate ValidClass(idx: int) {
    0 <= idx && idx / 256 < NUM_L2 && idx % 256 < Lists(idx / 256)
  }

  /** nlz_64 of a word that is not zero. */
  function Nlz(x: nat): int
    requires 0 < x
  {
    SZ_BITS - 1 - Log2(x)
  }

  /** The exponent of the class of a size. */
  lemma Exponent(len: nat)
    requires UNIT <= len < LIMIT && len % UNIT == 0
    ensures 0 <= SZ_BITS - 1 - LG2_UNIT - Nlz(len) < NUM_L2
    ensures var i := SZ_BITS - 1 - LG2_UNIT - Nlz(len);
            i + LG2_UNIT < 31 && Pow2(i + LG2_UNIT) <= len < 2 * Pow2(i + LG2_UNIT) && (len < FULL * UNIT <==> i < L2_LEN)
  {
    Log2Bounds(len);
    Constants();
    var e := Log2(len);
    Pow2Order(e, 3);
    Pow2Order(30, e);
    assert Pow2(31) == 2 * Pow2(30) && Pow2(9) == 8 * Pow2(6);
    Pow2Order(e, 9);
    Pow2Order(8, e);
  }

  /** calc_tlsf_indices */
  function Indices(len: nat): int
    requires UNIT <= len < LIMIT && len % UNIT == 0
  {
    Exponent(len);
    var n := Nlz(len);
    var i := SZ_BITS - 1 - LG2_UNIT - n;
    var j := len - Pow2(i + LG2_UNIT);
    var k := if len < FULL * UNIT then j / UNIT else j / Pow2(i - (L2_LEN - LG2_UNIT));
    i * 256 + k
  }

  /** The steps in which the sizes of the classes with exponent `l1` grow. */
  function Width(l1: nat): nat {
    if l1 <= L2_LEN then UNIT else UNIT * Pow2(l1 - L2_LEN)
  }

  /** The smallest size of a class. */
  function Low(idx: int): nat
    requires ValidClass(idx)
  {
    UNIT * Pow2(idx / 256) + Width(idx / 256) * (idx % 256)
  }

  lemma WidthTimes(l1: nat)
    ensures Width(l1) * Lists(l1) == UNIT * Pow2(l1) && 0 < Width(l1)
  {
    if l1 > L2_LEN { Pow2Sum(l1 - L2_LEN, L2_LEN); }
    Constants();
  }

  lemma DivBounds(j: nat, d: nat)
    requires 0 < d
    ensures d * (j / d) <= j < d * (j / d) + d
  {
  }

  lemma DivBelow(j: nat, d: nat, n: nat)
    requires 0 < d && j < d * n
    ensures j / d < n
  {
    DivBounds(j, d);
    TimesOrder(d, n, j / d);
  }

  /** The two parts of the number of a class. */
  lemma IndexParts(len: nat) returns (i: nat, j: nat)
    requires UNIT <= len < LIMIT && len % UNIT == 0
    ensures i < NUM_L2 - 2 && j == len - UNIT * Pow2(i) && j < UNIT * Pow2(i) && j / Width(i) < Lists(i)
    ensures Indices(len) == i * 256 + j / Width(i)
  {
    Exponent(len);
    i := SZ_BITS - 1 - LG2_UNIT - Nlz(len);
    j := len - Pow2(i + LG2_UNIT);
    WidthTimes(i);
    SameWidth(i);
    DivBelow(j, Width(i), Lists(i));
  }

  lemma SameWidth(i: nat)
    ensures Pow2(i + LG2_UNIT) == UNIT * Pow2(i)
    ensures Width(i) == if i < L2_LEN then UNIT else Pow2(i - (L2_LEN - LG2_UNIT))
  {
    assert Pow2(i + 3) == 2 * Pow2(i + 2) && Pow2(i + 2) == 2 * Pow2(i + 1);
    if i >= L2_LEN { assert Pow2(i - 3) == 2 * Pow2(i - 4) && Pow2(i - 4) == 2 * Pow2(i - 5); }
  }

  lemma ListsBound(i: nat)
    ensures Lists(i) <= FULL
  {
    Constants();
    Pow2Order(i, L2_LEN);
  }

  lemma Unpack(i: nat, k: nat)
    requires k < 256
    ensures (i * 256 + k) / 256 == i && (i * 256 + k) % 256 == k
  {
  }

  /** A size lies in the class the code computes for it. */
  lemma IndexOf(len: nat)
    requires UNIT <= len < LIMIT && len % UNIT == 0
    ensures ValidClass(Indices(len)) && Low(Indices(len)) <= len < Low(Indices(len)) + Width(Indices(len) / 256)
    ensures Indices(len) / 256 < NUM_L2 - 2
  {
    hide Indices, Pow2, Width, Lists;
    var i, j := IndexParts(len);
    WidthTimes(i);
    DivBounds(j, Width(i));
    ListsBound(i);
    Unpack(i, j / Width(i));
  }

  /** The classes follow each other without overlap. */
  lemma ClassOrder(a: int, b: int)
    requires ValidClass(a) && ValidClass(b) && a < b
    ensures Low(a) + Width(a / 256) <= Low(b)
  {
    var l1, l2, m1, m2 := a / 256, a % 256, b / 256, b % 256;
    WidthTimes(l1);
    Step(Width(l1), l2, if l1 == m1 then m2 else Lists(l1));
    if l1 < m1 { Pow2Monotone(l1 + 1, m1); }
  }

  lemma Step(w: nat, a: nat, b: nat)
    requires a < b
    ensures w * a + w <= w * b
  {
    assert w * (a + 1) <= w * b;
  }

  /** So the class of a size is the only one whose range it lies in. */
  lemma ClassUnique(len: nat, idx: int)
    requires UNIT <= len < LIMIT && len % UNIT == 0 && ValidClass(idx)
    ensures Indices(len) == idx <==> Low(idx) <= len < Low(idx) + Width(idx / 256)
  {
    IndexOf(len);
    if Indices(len) < idx { ClassOrder(Indices(len), idx); }
    if idx < Indices(len) { ClassOrder(idx, Indices(len)); }
  }

  /** round_next_tlsf_size: the class to search from for a request of `amt` bytes. */
  function RoundNext(amt: nat, idx: int): int
    requires ValidClass(idx)
  {
    var l1, l2 := idx / 256, idx % 256;
    if l1 <= L2_LEN then idx
    else
      var bktlen := Pow2(l1 + LG2_UNIT) + Pow2(l1 + LG2_UNIT) / FULL * l2;
      if amt <= bktlen then idx
      else
        var m1 := if l2 + 1 >= Lists(l1) then l1 + 1 else l1;
        var m2 := if l2 + 1 >= Lists(l1) then 0 else l2 + 1;
        if m1 >= LG2_ALIM - LG2_UNIT then -1 else m1 * 256 + m2
  }

  /** Good fit: from that class on every block is large enough, and every class before it holds sizes that are not. */
  lemma RoundFits(amt: nat, k: int)
    requires UNIT <= amt < LIMIT && amt % UNIT == 0 && ValidClass(k)
    ensures ValidClass(Indices(amt)) && ValidClass(RoundNext(amt, Indices(amt)))
    ensures RoundNext(amt, Indices(amt)) <= k <==> amt <= Low(k)
  {
    hide Indices, Pow2, Width, Lists, RoundNext;
    var idx := Indices(amt);
    IndexOf(amt);
    RoundStep(amt, idx);
    WidthTimes(k / 256);
    var r := RoundNext(amt, idx);
    if k < idx { ClassOrder(k, idx); }
    if idx < k {
      ClassOrder(idx, k);
      if r < k { ClassOrder(r, k); }
      if k < r { ClassOrder(k, r); }
    }
  }

  /** The next class, if the request is above the smallest size of its own. */
  lemma RoundStep(amt: nat, idx: int)
    requires ValidClass(idx) && Low(idx) <= amt < Low(idx) + Width(idx / 256) && idx / 256 < NUM_L2 - 2 && amt % UNIT == 0
    ensures var r := RoundNext(amt, idx);
            ValidClass(r) && (if amt == Low(idx) then r == idx else idx < r && Low(r) == Low(idx) + Width(idx / 256))
  {
    hide Pow2, Width;
    var l1, l2 := idx / 256, idx % 256;
    WidthTimes(l1);
    if l1 <= L2_LEN {
      SmallWidth(l1);
    } else {
      SameWidth(l1);
      BucketStart(l1, l2);
      NextClass(l1, l2);
    }
  }

  lemma SmallWidth(l1: nat)
    requires l1 <= L2_LEN
    ensures Width(l1) == UNIT
  {
  }

  /** `bktlen` is the smallest size of the class. */
  lemma BucketStart(l1: nat, l2: nat)
    requires L2_LEN < l1
    ensures Pow2(l1 + LG2_UNIT) + Pow2(l1 + LG2_UNIT) / FULL * l2 == UNIT * Pow2(l1) + Width(l1) * l2
  {
    WidthTimes(l1);
    SameWidth(l1);
    Constants();
    assert Pow2(l1 + LG2_UNIT) == FULL * Width(l1);
  }

  lemma NextClass(l1: nat, l2: nat)
    requires L2_LEN < l1 < NUM_L2 - 1 && l2 < FULL
    ensures var r := if l2 + 1 >= FULL then (l1 + 1) * 256 else l1 * 256 + (l2 + 1);
            ValidClass(r) && ValidClass(l1 * 256 + l2) && Low(r) == Low(l1 * 256 + l2) + Width(l1)
  {
    WidthTimes(l1);
    Unpack(l1, l2);
    if l2 + 1 < FULL {
      Unpack(l1, l2 + 1);
      assert Width(l1) * (l2 + 1) == Width(l1) * l2 + Width(l1);
    } else {
      Unpack(l1 + 1, 0);
      assert Width(l1) * FULL == Width(l1) * l2 + Width(l1);
    }
  }

  // ----- the table of list heads -----

  /** Where tlsf_init lets the lists of exponent `l1` start. */
  function FirstList(l1: nat): nat {
    if l1 == 0 then 0 else FirstList(l1 - 1) + Lists(l1 - 1)
  }

  lemma {:induction false} FirstListOrder(a: nat, b: nat)
    requires a <= b
    ensures FirstList(a) <= FirstList(b) && (a < b ==> FirstList(a) + Lists(a) <= FirstList(b))
  {
    if a < b { FirstListOrder(a, b - 1); }
  }

  lemma {:induction false} FirstListClosed(l1: nat)
    ensures FirstList(l1) == if l1 <= NUM_SMALL then Pow2(l1) - 1 else FULL - 1 + FULL * (l1 - NUM_SMALL)
  {
    if l1 > 0 { FirstListClosed(l1 - 1); }
    Constants();
  }

  /** The number of the list of a class, which lies inside the table: tlsf_init uses all of it and no more. */
  function ListOf(idx: int): (n: nat)
    requires ValidClass(idx)
    ensures n < NUM_HEADS
  {
    FirstListOrder(idx / 256, NUM_L2);
    FirstListClosed(NUM_L2);
    FirstList(idx / 256) + idx % 256
  }

  lemma ListsDiffer(a: int, b: int)
    requires ValidClass(a) && ValidClass(b)
    ensures ListOf(a) == ListOf(b) <==> a == b
  {
    if a / 256 < b / 256 { FirstListOrder(a / 256, b / 256); }
    if b / 256 < a / 256 { FirstListOrder(b / 256, a / 256); }
  }
}
