/**
 * The table-driven CRC of src/crc.c, against long division of polynomials over GF(2). A word holds the coefficients
 * below x^32, the highest one in its top bit, and `poly` those of the divisor, whose x^32 goes without saying.
 */
module Crc {

  // ----- words -----

  predicate Top(r: bv32) {
    r & 0x8000_0000 != 0
  }

  function Xor(a: bv32, b: bv32): bv32 {
    a ^ b
  }

  function Double(a: bv32): bv32 {
    a << 1
  }

  /** A bit comes in below. */
  function In(w: bv32, m: bool): bv32 {
    (w << 1) | (if m then 1 else 0)
  }

  /** The word whose top bit is `m`. */
  function Bit(m: bool): bv32 {
    if m then 0x8000_0000 else 0
  }

  lemma XorOrder(a: bv32, b: bv32, c: bv32)
    ensures Xor(Xor(a, b), c) == Xor(a, Xor(b, c)) && Xor(a, b) == Xor(b, a)
  {
  }

  lemma XorNone(a: bv32)
    ensures Xor(a, 0) == a == Xor(0, a) && Xor(a, a) == 0
  {
  }

  lemma DoubleXor(a: bv32, b: bv32)
    ensures Double(Xor(a, b)) == Xor(Double(a), Double(b))
  {
  }

  lemma TopIs(a: bv32)
    ensures a & 0x8000_0000 == 0 || a & 0x8000_0000 == 0x8000_0000
  {
  }

  lemma AndXor(a: bv32, b: bv32, c: bv32)
    ensures (a ^ b) & c == (a & c) ^ (b & c)
  {
  }

  lemma TopXor(a: bv32, b: bv32)
    ensures Top(Xor(a, b)) <==> Top(a) != Top(b)
  {
    AndXor(a, b, 0x8000_0000);
    TopIs(a);
    TopIs(b);
  }

  lemma LowBit(a: bv32, b: bv32)
    ensures ((a ^ b) << 1) | 1 == (a << 1) ^ ((b << 1) | 1)
  {
  }

  lemma OrNone(a: bv32)
    ensures a | 0 == a
  {
  }

  lemma InXor(a: bv32, b: bv32, m: bool)
    ensures In(Xor(a, b), m) == Xor(Double(a), In(b, m))
  {
    if m {
      LowBit(a, b);
    } else {
      OrNone(b << 1);
      OrNone((a ^ b) << 1);
      DoubleXor(a, b);
    }
  }

  lemma BitGone(r: bv32)
    ensures (r ^ 0x8000_0000) << 1 == r << 1
  {
  }

  lemma DoubleBit(r: bv32, m: bool)
    ensures Double(Xor(r, Bit(m))) == Double(r)
  {
    if m { BitGone(r); }
  }

  lemma TopBit(r: bv32, m: bool)
    ensures Top(Bit(m)) == m && (Top(Xor(r, Bit(m))) <==> Top(r) != m)
  {
    TopXor(r, Bit(m));
  }

  // ----- a bit at a time -----

  /** The residue times x, reduced: the body of the inner loops of crc32t_be_init and crc32t_le_init. */
  function Shift(r: bv32, poly: bv32): bv32 {
    if Top(r) then Xor(Double(r), poly) else Double(r)
  }

  function Shifts(r: bv32, poly: bv32, n: nat): bv32
    decreases n
  {
    if n == 0 then r else Shifts(Shift(r, poly), poly, n - 1)
  }

  /** A bit of a message comes into the residue. */
  function Take(r: bv32, m: bool, poly: bv32): bv32 {
    Shift(Xor(r, Bit(m)), poly)
  }

  function Takes(r: bv32, ms: seq<bool>, poly: bv32): bv32
    decreases |ms|
  {
    if ms == [] then r else Takes(Take(r, ms[0], poly), ms[1..], poly)
  }

  // ----- long division -----

  /** Long division: bit after bit of the dividend comes in below what there is, and the divisor is taken off where it goes. */
  function Divide(w: bv32, rest: seq<bool>, poly: bv32): bv32
    decreases |rest|
  {
    if rest == [] then w else Divide(Next(w, rest[0], poly), rest[1..], poly)
  }

  function Next(w: bv32, m: bool, poly: bv32): bv32 {
    if Top(w) then Xor(In(w, m), poly) else In(w, m)
  }

  function Zeros(n: nat): (z: seq<bool>)
    ensures |z| == n
  {
    if n == 0 then [] else [false] + Zeros(n - 1)
  }

  /** The bits of `e`, below those of `w`. */
  function Fold(w: bv32, e: seq<bool>): bv32
    decreases |e|
  {
    if e == [] then w else Fold(In(w, e[0]), e[1..])
  }

  /** The first 32 bits. */
  function Window(e: seq<bool>): bv32
    requires |e| >= 32
  {
    Fold(0, e[..32])
  }

  /** The remainder of a message times x^32, with the residue of what came before it on its first 32 bits. */
  function Remainder(r: bv32, ms: seq<bool>, poly: bv32): bv32 {
    var e := ms + Zeros(32);
    Divide(Xor(Window(e), r), e[32..], poly)
  }

  function Doubles(w: bv32, n: nat): bv32
    decreases n
  {
    if n == 0 then w else Doubles(Double(w), n - 1)
  }

  lemma {:induction false} FoldXor(w: bv32, v: bv32, e: seq<bool>)
    ensures Fold(Xor(w, v), e) == Xor(Doubles(w, |e|), Fold(v, e))
    decreases |e|
  {
    hide Xor, In, Double;
    if e != [] {
      InXor(w, v, e[0]);
      FoldXor(Double(w), In(v, e[0]), e[1..]);
    }
  }

  lemma {:induction false} DoublesSum(w: bv32, a: nat, b: nat)
    ensures Doubles(w, a + b) == Doubles(Doubles(w, a), b)
    decreases a
  {
    if a > 0 { DoublesSum(Double(w), a - 1, b); }
  }

  lemma Doubles4(w: bv32)
    ensures Doubles(w, 4) == w << 4
  {
    assert Doubles(w, 4) == Doubles(Double(Double(w)), 2);
    assert (((w << 1) << 1) << 1) << 1 == w << 4;
  }

  lemma Doubles8(w: bv32)
    ensures Doubles(w, 8) == w << 8
  {
    hide Doubles;
    Doubles4(w);
    Doubles4(w << 4);
    DoublesSum(w, 4, 4);
    ShiftTwice(w);
  }

  lemma ShiftTwice(w: bv32)
    ensures (w << 4) << 4 == w << 8 && (w << 8) << 8 == w << 16 && (w << 16) << 8 == w << 24 && (w << 24) << 8 == 0
  {
  }

  lemma Doubles32(w: bv32)
    ensures Doubles(w, 32) == 0
  {
    hide Doubles;
    Doubles8(w);
    Doubles8(w << 8);
    Doubles8(w << 16);
    Doubles8(w << 24);
    DoublesSum(w, 8, 8);
    DoublesSum(w, 16, 8);
    DoublesSum(w, 24, 8);
    ShiftTwice(w);
  }

  lemma {:induction false} FoldLast(w: bv32, e: seq<bool>, m: bool)
    ensures Fold(w, e + [m]) == In(Fold(w, e), m)
    decreases |e|
  {
    hide In;
    if e == [] {
      assert e + [m] == [m];
      assert Fold(w, [m]) == Fold(In(w, m), [m][1..]);
    } else {
      FoldLast(In(w, e[0]), e[1..], m);
      assert (e + [m])[1..] == e[1..] + [m];
    }
  }

  /** All that is left of a word after 32 bits have come in are these bits. */
  lemma Forgets(w: bv32, e: seq<bool>)
    requires |e| == 32
    ensures Fold(w, e) == Fold(0, e)
  {
    hide Fold, Doubles, Xor;
    XorNone(w);
    FoldXor(w, 0, e);
    Doubles32(w);
    XorNone(Fold(0, e));
  }

  /** The word of `n` ones. */
  function Low(n: nat): bv32 {
    if n == 0 then 0 else In(Low(n - 1), true)
  }

  lemma Low31()
    ensures Low(31) == 0x7FFF_FFFF
  {
    assert Low(8) == 0xFF && Low(16) == 0xFFFF && Low(24) == 0xFF_FFFF;
  }

  lemma BelowIn(w: bv32, l: bv32, m: bool)
    requires w | l == l
    ensures In(w, m) | In(l, true) == In(l, true)
  {
  }

  lemma LowNext(n: nat)
    ensures Low(n) == if n == 0 then 0 else In(Low(n - 1), true)
  {
  }

  lemma FoldStart(e: seq<bool>)
    ensures e == [] ==> Fold(0, e) | 0 == 0
  {
  }

  lemma {:induction false} FoldLow(e: seq<bool>)
    ensures Fold(0, e) | Low(|e|) == Low(|e|)
  {
    hide In, Low, Fold;
    LowNext(|e|);
    FoldStart(e);
    if e != [] {
      var n := |e| - 1;
      FoldLow(e[..n]);
      FoldLast(0, e[..n], e[n]);
      assert e == e[..n] + [e[n]];
      BelowIn(Fold(0, e[..n]), Low(n), e[n]);
    }
  }

  lemma NoTop(w: bv32)
    requires w | 0x7FFF_FFFF == 0x7FFF_FFFF
    ensures !Top(w)
  {
  }

  /** The first bit of a window goes to the top. */
  lemma WindowTop(e: seq<bool>)
    requires |e| == 32
    ensures Top(Fold(0, e)) == e[0]
  {
    hide Fold, Low, Top, In, Doubles, Xor;
    var f := e[1..];
    FoldLow(f);
    Low31();
    NoTop(Fold(0, f));
    FirstIn(e);
    XorNone(In(0, e[0]));
    FoldXor(In(0, e[0]), 0, f);
    Doubles31(e[0]);
    TopXor(Bit(e[0]), Fold(0, f));
    TopBit(0, e[0]);
  }

  lemma FirstIn(e: seq<bool>)
    requires e != []
    ensures Fold(0, e) == Fold(In(0, e[0]), e[1..])
  {
  }

  lemma Doubles31(m: bool)
    ensures Doubles(In(0, m), 31) == Bit(m)
  {
    hide Doubles;
    var w := In(0, m);
    Doubles8(w);
    Doubles8(w << 8);
    Doubles8(w << 16);
    Doubles7(w << 24);
    DoublesSum(w, 8, 8);
    DoublesSum(w, 16, 8);
    DoublesSum(w, 24, 7);
    ShiftTwice(w);
  }

  lemma Doubles7(w: bv32)
    ensures Doubles(w, 7) == w << 7
  {
    assert Doubles(w, 7) == Doubles(Double(w), 6) == Doubles(Double(Double(w)), 5) == Doubles(Double(Double(Double(w))), 4);
    Doubles4(((w << 1) << 1) << 1);
    assert (((w << 1) << 1) << 1) << 4 == w << 7;
  }

  /** The window moves on by a bit. */
  lemma WindowNext(e: seq<bool>)
    requires |e| > 32
    ensures Top(Window(e)) == e[0] && Window(e[1..]) == In(Window(e), e[32])
  {
    hide Fold, Top, In;
    WindowTop(e[..32]);
    FoldLast(0, e[..32], e[32]);
    var f := e[..32] + [e[32]];
    FirstIn(f);
    assert f[1..] == e[1..][..32];
    Forgets(In(0, f[0]), f[1..]);
  }

  /** A step of the division is a step of the residue. */
  lemma Same(x: bv32, r: bv32, m: bool, t: bool, poly: bv32)
    requires Top(x) == m
    ensures Next(Xor(x, r), t, poly) == Xor(In(x, t), Take(r, m, poly))
  {
    hide Top, Xor, In, Double;
    TopXor(x, r);
    TopBit(r, m);
    DoubleBit(r, m);
    XorOrder(r, x, 0);
    XorOrder(x, r, 0);
    InXor(r, x, t);
    XorOrder(Double(r), In(x, t), poly);
    XorOrder(In(x, t), Double(r), poly);
    XorOrder(Double(r), poly, In(x, t));
  }

  /** A bit of the dividend makes the division what it is for the residue that has taken it. */
  lemma RemainderStep(r: bv32, ms: seq<bool>, poly: bv32)
    requires ms != []
    ensures Remainder(r, ms, poly) == Remainder(Take(r, ms[0], poly), ms[1..], poly)
  {
    hide Xor, Window, Take, Next, Zeros;
    var e := ms + Zeros(32);
    assert e[1..] == ms[1..] + Zeros(32) && e[32..][1..] == e[1..][32..] && e[0] == ms[0] && e[32..][0] == e[32];
    WindowNext(e);
    Same(Window(e), r, ms[0], e[32], poly);
  }

  lemma RemainderNone(r: bv32, poly: bv32)
    ensures Remainder(r, [], poly) == r
  {
    hide Window, Xor;
    NoWindow();
    XorNone(r);
    assert [] + Zeros(32) == Zeros(32);
  }

  /** What is computed a bit at a time is the remainder of the long division. */
  lemma {:induction false} TakesIsRemainder(r: bv32, ms: seq<bool>, poly: bv32)
    ensures Takes(r, ms, poly) == Remainder(r, ms, poly)
    decreases |ms|
  {
    hide Remainder, Take;
    if ms == [] {
      RemainderNone(r, poly);
    } else {
      RemainderStep(r, ms, poly);
      TakesIsRemainder(Take(r, ms[0], poly), ms[1..], poly);
    }
  }

  lemma {:induction false} FoldNone(n: nat)
    ensures Fold(0, Zeros(n)) == 0
  {
    if n > 0 { FoldNone(n - 1); }
  }

  lemma NoWindow()
    ensures Window(Zeros(32)) == 0
  {
    FoldNone(32);
    assert Zeros(32)[..32] == Zeros(32);
  }

  // ----- bytes -----

  /** The highest `n` bits. */
  function TopBits(v: bv32, n: nat): seq<bool>
    decreases n
  {
    if n == 0 then [] else [Top(v)] + TopBits(Double(v), n - 1)
  }

  /** A byte at the top of a word. */
  function Raised(b: bv8): bv32 {
    (b as bv32) << 24
  }

  /** The bits of a message, the highest of each byte first. */
  function Bits(p: seq<bv8>): seq<bool> {
    if p == [] then [] else TopBits(Raised(p[0]), 8) + Bits(p[1..])
  }

  /** The bit of a byte that is `j` places below the highest one. */
  function Below(b: bv8, j: nat): bool
    decreases j
  {
    if j == 0 then b & 0x80 != 0 else Below(b << 1, j - 1)
  }

  lemma RaisedTop(b: bv8)
    ensures (Top(Raised(b)) <==> b & 0x80 != 0) && Double(Raised(b)) == Raised(b << 1)
  {
  }

  lemma {:induction false} TopBitsBelow(b: bv8, n: nat, j: nat)
    requires j < n
    ensures |TopBits(Raised(b), n)| == n && TopBits(Raised(b), n)[j] == Below(b, j)
    decreases n
  {
    hide Raised, Top, Double;
    RaisedTop(b);
    if n > 1 { TopBitsBelow(b << 1, n - 1, if j > 0 then j - 1 else 0); }
  }

  /** A message has the bits of its bytes, one byte after the other. */
  lemma {:induction false} BitsAt(p: seq<bv8>, i: nat, j: nat)
    requires i < |p| && j < 8
    ensures |Bits(p)| == 8 * |p| && Bits(p)[8 * i + j] == Below(p[i], j)
    decreases |p|
  {
    hide TopBits, Below, Raised;
    TopBitsBelow(p[0], 8, j);
    if |p| > 1 { BitsAt(p[1..], if i > 0 then i - 1 else 0, j); }
    assert |p| == 1 ==> p[1..] == [];
  }

  function ByteStep(r: bv32, b: bv8, poly: bv32): bv32 {
    Shifts(Xor(r, Raised(b)), poly, 8)
  }

  /** The residue of a message, byte after byte. */
  function Residue(r: bv32, p: seq<bv8>, poly: bv32): bv32
    decreases |p|
  {
    if p == [] then r else Residue(ByteStep(r, p[0], poly), p[1..], poly)
  }

  lemma ShiftXor(r: bv32, v: bv32, poly: bv32)
    ensures Shift(Xor(r, v), poly) == Xor(Take(r, Top(v), poly), Double(v))
  {
    hide Top, Xor, Double;
    DoubleXor(r, v);
    TopXor(r, v);
    TopBit(r, Top(v));
    DoubleBit(r, Top(v));
    XorOrder(Double(r), Double(v), poly);
    XorOrder(Double(r), poly, Double(v));
    XorOrder(poly, Double(v), 0);
  }

  /** Bits may come into the residue together, before they are shifted out. */
  lemma {:induction false} TogetherTakes(r: bv32, v: bv32, poly: bv32, n: nat)
    requires Doubles(v, n) == 0
    ensures Shifts(Xor(r, v), poly, n) == Takes(r, TopBits(v, n), poly)
    decreases n
  {
    hide Xor, Shift, Take, Double, Top;
    if n == 0 {
      XorNone(r);
    } else {
      ShiftXor(r, v, poly);
      TogetherTakes(Take(r, Top(v), poly), Double(v), poly, n - 1);
      assert TopBits(v, n)[1..] == TopBits(Double(v), n - 1);
    }
  }

  lemma {:induction false} TakesBoth(r: bv32, a: seq<bool>, b: seq<bool>, poly: bv32)
    ensures Takes(r, a + b, poly) == Takes(Takes(r, a, poly), b, poly)
    decreases |a|
  {
    hide Take;
    if a == [] {
      assert a + b == b;
    } else {
      TakesBoth(Take(r, a[0], poly), a[1..], b, poly);
      assert (a + b)[1..] == a[1..] + b;
    }
  }

  lemma RaisedOut(b: bv8)
    ensures Raised(b) << 8 == 0
  {
  }

  /** The residue of a message is the remainder of the polynomial of its bits times x^32. */
  lemma {:induction false} ResidueIsRemainder(r: bv32, p: seq<bv8>, poly: bv32)
    ensures Residue(r, p, poly) == Remainder(r, Bits(p), poly)
    decreases |p|
  {
    ResidueTakes(r, p, poly);
    TakesIsRemainder(r, Bits(p), poly);
  }

  lemma {:induction false} ResidueTakes(r: bv32, p: seq<bv8>, poly: bv32)
    ensures Residue(r, p, poly) == Takes(r, Bits(p), poly)
    decreases |p|
  {
    hide Take, TopBits, Raised, Xor, Shifts;
    if p != [] {
      var v := Raised(p[0]);
      Doubles8(v);
      RaisedOut(p[0]);
      TogetherTakes(r, v, poly, 8);
      ResidueTakes(ByteStep(r, p[0], poly), p[1..], poly);
      TakesBoth(r, TopBits(v, 8), Bits(p[1..]), poly);
    }
  }

  /** A message may be processed in parts. */
  lemma {:induction false} ResidueBoth(r: bv32, a: seq<bv8>, b: seq<bv8>, poly: bv32)
    ensures Residue(r, a + b, poly) == Residue(Residue(r, a, poly), b, poly)
    decreases |a|
  {
    hide ByteStep;
    if a == [] {
      assert a + b == b;
    } else {
      ResidueBoth(ByteStep(r, a[0], poly), a[1..], b, poly);
      assert (a + b)[1..] == a[1..] + b;
    }
  }

  // ----- the table -----

  /** What crc32t_be_init puts in the table for a byte. */
  function Entry(b: bv8, poly: bv32): bv32 {
    Shifts(Raised(b), poly, 8)
  }

  lemma ShiftSum(a: bv32, b: bv32, poly: bv32)
    ensures Shift(Xor(a, b), poly) == Xor(Shift(a, poly), Shift(b, poly))
  {
    hide Top, Xor, Double;
    var x, y := Double(a), Double(b);
    DoubleXor(a, b);
    TopXor(a, b);
    XorOrder(x, y, poly);
    XorOrder(x, poly, y);
    XorOrder(poly, y, 0);
    XorOrder(x, poly, Xor(y, poly));
    XorOrder(poly, y, poly);
    XorOrder(y, poly, poly);
    XorNone(poly);
    XorNone(y);
    XorOrder(poly, Xor(y, poly), 0);
  }

  lemma {:induction false} ShiftsSum(a: bv32, b: bv32, poly: bv32, n: nat)
    ensures Shifts(Xor(a, b), poly, n) == Xor(Shifts(a, poly, n), Shifts(b, poly, n))
    decreases n
  {
    hide Xor, Shift;
    if n > 0 {
      ShiftSum(a, b, poly);
      ShiftsSum(Shift(a, poly), Shift(b, poly), poly, n - 1);
    }
  }

  predicate NoTops(v: bv32, n: nat)
    decreases n
  {
    n == 0 || (!Top(v) && NoTops(Double(v), n - 1))
  }

  lemma {:induction false} ShiftsNoTops(v: bv32, poly: bv32, n: nat)
    requires NoTops(v, n)
    ensures Shifts(v, poly, n) == Doubles(v, n)
    decreases n
  {
    hide Top, Double;
    if n > 0 { ShiftsNoTops(Double(v), poly, n - 1); }
  }

  /** The low 24 bits of a residue. */
  function Rest(r: bv32): bv32 {
    r & 0xFF_FFFF
  }

  /** The top byte of a residue. */
  function High(r: bv32): bv8 {
    (r >> 24) as bv8
  }

  /** The word with its top `n` bits set. */
  function Mask(n: nat): bv32 {
    if n == 0 then 0 else 0x8000_0000 | (Mask(n - 1) >> 1)
  }

  lemma MaskStep(v: bv32, m: bv32)
    requires v & (0x8000_0000 | (m >> 1)) == 0 && m & 1 == 0
    ensures !Top(v) && Double(v) & m == 0
  {
  }

  lemma {:induction false} MaskNoTops(v: bv32, n: nat)
    requires v & Mask(n) == 0 && n <= 8
    ensures NoTops(v, n)
    decreases n
  {
    hide Top, Double;
    if n > 0 {
      Masks(n - 1);
      MaskStep(v, Mask(n - 1));
      MaskNoTops(Double(v), n - 1);
    }
  }

  lemma Masks(n: nat)
    requires n <= 8
    ensures Mask(n) & 1 == 0
  {
    assert Mask(4) == 0xF000_0000 && Mask(8) == 0xFF00_0000;
  }

  lemma RestNoTops(r: bv32)
    ensures NoTops(Rest(r), 8)
  {
    assert Mask(4) == 0xF000_0000 && Mask(8) == 0xFF00_0000;
    MaskNoTops(Rest(r), 8);
  }

  lemma Halves(r: bv32, b: bv8)
    ensures Xor(r, Raised(b)) == Xor(Raised(b ^ High(r)), Rest(r)) && Rest(r) << 8 == r << 8
  {
  }

  /** A step with the table is a step with the bits of a byte. */
  lemma TableStep(r: bv32, b: bv8, poly: bv32)
    ensures Xor(Entry(b ^ High(r), poly), r << 8) == ByteStep(r, b, poly)
  {
    hide Xor, Raised, Rest, High, Shifts, NoTops, Doubles;
    Halves(r, b);
    ShiftsSum(Raised(b ^ High(r)), Rest(r), poly, 8);
    RestNoTops(r);
    ShiftsNoTops(Rest(r), poly, 8);
    Doubles8(Rest(r));
  }

  /** crc32t_be_init */
  method BeInit(tab: array<bv32>, poly: bv32)
    requires tab.Length == 256
    modifies tab
    ensures forall b: bv8 :: tab[b as int] == Entry(b, poly)
  {
    var i := 0;
    while i < 256
      invariant 0 <= i <= 256 && forall b: bv8 :: b as int < i ==> tab[b as int] == Entry(b, poly)
    {
      tab[i] := InitEntry(i as bv8, poly);
      i := i + 1;
    }
  }

  /** The inner loop of crc32t_be_init. */
  method InitEntry(b: bv8, poly: bv32) returns (r: bv32)
    ensures r == Entry(b, poly)
  {
    r := (b as bv32) << 24;
    var j := 0;
    while j < 8
      invariant 0 <= j <= 8 && Shifts(r, poly, 8 - j) == Entry(b, poly)
    {
      if r & 0x8000_0000 != 0 {
        r := (r << 1) ^ poly;
      } else {
        r := r << 1;
      }
      j := j + 1;
    }
  }

  /** The body of the loop of crc32t_be. */
  method BeStep(tab: array<bv32>, b: bv8, crc: bv32, ghost poly: bv32) returns (r: bv32)
    requires tab.Length == 256 && forall b: bv8 :: tab[b as int] == Entry(b, poly)
    ensures r == ByteStep(crc, b, poly)
  {
    hide Entry, ByteStep, Xor, High;
    TableStep(crc, b, poly);
    var i := b ^ High(crc);
    r := Xor(tab[i as int], crc << 8);
  }

  /** crc32t_be */
  method Be(tab: array<bv32>, p: seq<bv8>, crc: bv32, ghost poly: bv32) returns (r: bv32)
    requires tab.Length == 256 && forall b: bv8 :: tab[b as int] == Entry(b, poly)
    ensures r == Residue(crc, p, poly) && (p == [] ==> r == crc)
  {
    hide Entry, ByteStep;
    r := crc;
    var i := 0;
    while i < |p|
      invariant 0 <= i <= |p| && Residue(r, p[i..], poly) == Residue(crc, p, poly)
    {
      assert p[i..][1..] == p[i + 1..];
      r := BeStep(tab, p[i], r, poly);
      i := i + 1;
    }
  }

  // ----- the other order of bits -----

  /** rev8 */
  function Rev8(x: bv8): bv8 {
    var a := ((x >> 4) & 0x0F) | (x << 4);
    var b := ((a >> 2) & 0x33) | ((a << 2) & 0xCC);
    ((b >> 1) & 0x55) | ((b << 1) & 0xAA)
  }

  /** rev32 */
  function Rev32(x: bv32): bv32 {
    var a := ((x >> 16) & 0xFFFF) | (x << 16);
    var b := ((a >> 8) & 0x00FF_00FF) | ((a << 8) & 0xFF00_FF00);
    var c := ((b >> 4) & 0x0F0F_0F0F) | ((b << 4) & 0xF0F0_F0F0);
    var d := ((c >> 2) & 0x3333_3333) | ((c << 2) & 0xCCCC_CCCC);
    ((d >> 1) & 0x5555_5555) | ((d << 1) & 0xAAAA_AAAA)
  }

  lemma Rev32At(x: bv32, k: bv32)
    requires k < 32
    ensures (Rev32(x) >> k) & 1 == (x >> (31 - k)) & 1
  {
  }

  lemma Rev8At(x: bv8, k: bv8)
    requires k < 8
    ensures (Rev8(x) >> k) & 1 == (x >> (7 - k)) & 1
  {
  }

  /** What crc32t_le_init puts in the table for a byte. */
  function LeEntry(b: bv8, poly: bv32): bv32 {
    Rev32(Entry(Rev8(b), poly))
  }

  /** crc32t_le_init */
  method LeInit(tab: array<bv32>, poly: bv32)
    requires tab.Length == 256
    modifies tab
    ensures forall b: bv8 :: tab[b as int] == LeEntry(b, poly)
  {
    hide Rev8, Rev32, Entry;
    var i := 0;
    while i < 256
      invariant 0 <= i <= 256 && forall b: bv8 :: b as int < i ==> tab[b as int] == LeEntry(b, poly)
    {
      var r := InitEntry(Rev8(i as bv8), poly);
      tab[i] := Rev32(r);
      i := i + 1;
    }
  }

  /** The low byte of a residue. */
  function LowByte(r: bv32): bv8 {
    (r & 0xFF) as bv8
  }

  lemma Rev32Twice(r: bv32)
    ensures Rev32(Rev32(r)) == r
  {
  }

  lemma Rev32Xor(a: bv32, b: bv32)
    ensures Rev32(Xor(a, b)) == Xor(Rev32(a), Rev32(b))
  {
  }

  lemma Rev32Down(r: bv32)
    ensures Rev32(r >> 8) == Rev32(r) << 8
  {
  }

  lemma Rev8Low(r: bv32, b: bv8)
    ensures Rev8(b ^ LowByte(r)) == Rev8(b) ^ High(Rev32(r))
  {
  }

  /** A step from the low end is a step from the high end on the reversed byte and residue. */
  lemma LeTableStep(r: bv32, b: bv8, poly: bv32)
    ensures Rev32(Xor(LeEntry(b ^ LowByte(r), poly), r >> 8)) == ByteStep(Rev32(r), Rev8(b), poly)
  {
    hide Rev8, Rev32, Xor, LowByte, High, Entry, ByteStep;
    var i := b ^ LowByte(r);
    Rev32Xor(LeEntry(i, poly), r >> 8);
    Rev32Twice(Entry(Rev8(i), poly));
    Rev32Down(r);
    Rev8Low(r, b);
    TableStep(Rev32(r), Rev8(b), poly);
  }

  /** The bytes of a message, each with its bits in the other order. */
  function Flipped(p: seq<bv8>): seq<bv8> {
    if p == [] then [] else [Rev8(p[0])] + Flipped(p[1..])
  }

  lemma {:induction false} FlippedIs(p: seq<bv8>)
    ensures |Flipped(p)| == |p| && forall i :: 0 <= i < |p| ==> Flipped(p)[i] == Rev8(p[i])
  {
    hide Rev8;
    if p != [] { FlippedIs(p[1..]); }
  }

  lemma {:induction false} FlippedBoth(a: seq<bv8>, b: seq<bv8>)
    ensures Flipped(a + b) == Flipped(a) + Flipped(b)
  {
    hide Rev8;
    FlippedIs(a);
    FlippedIs(b);
    FlippedIs(a + b);
  }

  /** The residue with its bits in the other order. */
  function LeResidue(r: bv32, p: seq<bv8>, poly: bv32): bv32 {
    Rev32(Residue(Rev32(r), Flipped(p), poly))
  }

  /** The empty message changes nothing, and a message can come in parts. */
  lemma LeBoth(r: bv32, a: seq<bv8>, b: seq<bv8>, poly: bv32)
    ensures LeResidue(r, [], poly) == r
    ensures LeResidue(r, a + b, poly) == LeResidue(LeResidue(r, a, poly), b, poly)
  {
    hide Rev32, Residue, Flipped;
    assert Flipped([]) == [] by { FlippedIs([]); }
    NoResidue(Rev32(r), poly);
    Rev32Twice(r);
    FlippedBoth(a, b);
    ResidueBoth(Rev32(r), Flipped(a), Flipped(b), poly);
    Rev32Twice(Residue(Rev32(r), Flipped(a), poly));
  }

  lemma NoResidue(r: bv32, poly: bv32)
    ensures Residue(r, [], poly) == r
  {
  }

  /** crc32t_le: residue and bytes are those of crc32t_be with their bits in the other order. */
  method Le(tab: array<bv32>, p: seq<bv8>, crc: bv32, ghost poly: bv32) returns (r: bv32)
    requires tab.Length == 256 && forall b: bv8 :: tab[b as int] == LeEntry(b, poly)
    ensures Rev32(r) == Residue(Rev32(crc), Flipped(p), poly)
    ensures r == LeResidue(crc, p, poly) && (p == [] ==> r == crc)
  {
    hide LeEntry, ByteStep, Rev8, Rev32;
    r := crc;
    var i := 0;
    while i < |p|
      invariant 0 <= i <= |p| && Residue(Rev32(r), Flipped(p[i..]), poly) == Residue(Rev32(crc), Flipped(p), poly)
      invariant i == 0 ==> r == crc
    {
      var s := LeStep(tab, p[i], r, poly);
      ResidueMore(Rev32(r), p[i..], poly);
      assert p[i..][1..] == p[i + 1..];
      r := s;
      i := i + 1;
    }
    Rev32Twice(r);
  }

  lemma ResidueMore(r: bv32, p: seq<bv8>, poly: bv32)
    requires p != []
    ensures Residue(r, Flipped(p), poly) == Residue(ByteStep(r, Rev8(p[0]), poly), Flipped(p[1..]), poly)
  {
    hide ByteStep, Rev8;
    assert Flipped(p)[1..] == Flipped(p[1..]);
  }

  /** The body of the loop of crc32t_le. */
  method LeStep(tab: array<bv32>, b: bv8, crc: bv32, ghost poly: bv32) returns (r: bv32)
    requires tab.Length == 256 && forall b: bv8 :: tab[b as int] == LeEntry(b, poly)
    ensures Rev32(r) == ByteStep(Rev32(crc), Rev8(b), poly)
  {
    hide LeEntry, ByteStep, Xor, LowByte, Rev8, Rev32;
    LeTableStep(crc, b, poly);
    var i := b ^ LowByte(crc);
    r := Xor(tab[i as int], crc >> 8);
  }

  // ----- a message with its residue behind it -----

  lemma {:induction false} ShiftsZero(poly: bv32, n: nat)
    ensures Shifts(0, poly, n) == 0
  {
    if n > 0 { ShiftsZero(poly, n - 1); }
  }

  /** The byte that is at the top of the residue takes it out. */
  lemma OwnByte(r: bv32, poly: bv32)
    ensures ByteStep(r, High(r), poly) == NextByte(r)
  {
    hide Xor, Raised, High, Shifts;
    TableStep(r, High(r), poly);
    NoByte(r);
    ShiftsZero(poly, 8);
    XorNone(r << 8);
  }

  lemma NoByte(r: bv32)
    ensures High(r) ^ High(r) == 0 && Raised(0) == 0
  {
  }

  /** The highest `n` bytes of a word, in order. */
  function TopBytes(c: bv32, n: nat): seq<bv8>
    decreases n
  {
    if n == 0 then [] else [High(c)] + TopBytes(NextByte(c), n - 1)
  }

  function NextByte(c: bv32): bv32 {
    c << 8
  }

  function NextBytes(c: bv32, n: nat): bv32
    decreases n
  {
    if n == 0 then c else NextBytes(NextByte(c), n - 1)
  }

  lemma {:induction false} OwnBytes(c: bv32, n: nat, poly: bv32)
    ensures Residue(c, TopBytes(c, n), poly) == NextBytes(c, n)
    decreases n
  {
    hide ByteStep, High, NextByte;
    if n > 0 {
      OwnByte(c, poly);
      OwnBytes(NextByte(c), n - 1, poly);
      assert TopBytes(c, n)[1..] == TopBytes(NextByte(c), n - 1);
    }
  }

  lemma NoBytes(c: bv32)
    ensures NextBytes(c, 4) == 0
  {
    ShiftTwice(c);
    assert NextBytes(c, 4) == NextBytes((c << 8) << 8, 2);
  }

  /** A message followed by its residue, the highest byte first, leaves no residue. */
  lemma SelfCheck(r: bv32, p: seq<bv8>, poly: bv32)
    ensures Residue(r, p + TopBytes(Residue(r, p, poly), 4), poly) == 0
  {
    var c := Residue(r, p, poly);
    ResidueBoth(r, p, TopBytes(c, 4), poly);
    OwnBytes(c, 4, poly);
    NoBytes(c);
  }
}
