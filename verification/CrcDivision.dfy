/**
 * What the residue of src/crc.c is as a polynomial over GF(2), whatever way it is computed: the one remainder of degree
 * below 32. A polynomial is the sequence of its coefficients, the highest one first.
 */
module CrcDivision {
  import opened Crc

  type Poly = seq<bool>

  /** Addition, of polynomials written with the same number of coefficients. */
  function Plus(a: Poly, b: Poly): (r: Poly)
    requires |a| == |b|
    ensures |r| == |a| && forall k :: 0 <= k < |a| ==> r[k] == (a[k] != b[k])
  {
    seq(|a|, k requires 0 <= k < |a| => a[k] != b[k])
  }

  /** Multiplication: the multiples of `p` by the powers of x that `q` has. */
  function Product(q: Poly, p: Poly): (r: Poly)
    requires p != []
    ensures |r| == |q| + |p| - 1
  {
    if q == [] then Zeros(|p| - 1) else Plus(Scaled(q[0], p, |q| - 1), [false] + Product(q[1..], p))
  }

  /** `p` times x^n, or nothing. */
  function Scaled(c: bool, p: Poly, n: nat): (r: Poly)
    ensures |r| == |p| + n
  {
    if c then p + Zeros(n) else Zeros(|p| + n)
  }

  lemma ScaledAt(c: bool, p: Poly, n: nat, k: nat)
    requires k < |p| + n
    ensures Scaled(c, p, n)[k] == (c && k < |p| && p[k])
  {
    ZerosAre(n);
    ZerosAre(|p| + n);
  }

  lemma {:induction false} ZerosAre(n: nat)
    ensures forall k :: 0 <= k < n ==> !Zeros(n)[k]
  {
    if n > 0 { ZerosAre(n - 1); }
  }

  /** The divisor, with the coefficient of x^32 that goes without saying. */
  function Monic(low: Poly): Poly {
    [true] + low
  }

  /** `e` is a multiple of the divisor plus a remainder. */
  predicate Divides(e: Poly, q: Poly, low: Poly, f: Poly) {
    |low| == |f| == 32 && |e| == |q| + 32 && e == Plus(Product(q, Monic(low)), Zeros(|q|) + f)
  }

  // ----- long division finds them -----

  lemma {:induction false} FoldPlus(w: bv32, v: bv32, a: Poly, b: Poly)
    requires |a| == |b|
    ensures Fold(Xor(w, v), Plus(a, b)) == Xor(Fold(w, a), Fold(v, b))
    decreases |a|
  {
    hide In, Xor;
    if a != [] {
      var c := Plus(a, b);
      assert c[1..] == Plus(a[1..], b[1..]);
      InPlus(w, v, a[0], b[0]);
      FoldPlus(In(w, a[0]), In(v, b[0]), a[1..], b[1..]);
    }
  }

  lemma InPlus(w: bv32, v: bv32, a: bool, b: bool)
    ensures In(Xor(w, v), a != b) == Xor(In(w, a), In(v, b))
  {
    hide Xor, In, Double;
    InXor(w, v, a != b);
    InXor(0, v, b);
    InXor(w, 0, a);
    DoubleXor(w, v);
    XorNone(v);
    XorNone(w);
    InIs(v, b);
    InIs(w, a);
    InIs(v, a != b);
    var s, t := In(0, a), In(0, b);
    XorNone(s);
    XorNone(t);
    InIs(0, a != b);
    OneBit(a, b);
    XorOrder(Double(w), Double(v), Xor(s, t));
    XorOrder(Double(v), s, t);
    XorOrder(s, Double(v), t);
    XorOrder(Double(w), s, In(v, b));
  }

  lemma InIs(w: bv32, m: bool)
    ensures In(w, m) == Xor(Double(w), In(0, m))
  {
    XorNone(w);
    InXor(w, 0, m);
  }

  lemma OneBit(a: bool, b: bool)
    ensures In(0, a != b) == Xor(In(0, a), In(0, b))
  {
    hide In, Xor;
    XorNone(In(0, true));
    XorNone(In(0, false));
    assert In(0, false) == 0 by { NoBit(); }
  }

  lemma NoBit()
    ensures In(0, false) == 0
  {
  }

  /** What is left when the divisor has been taken off where it goes, without the first coefficient. */
  function Less(e: Poly, low: Poly): (r: Poly)
    requires |e| > 32 == |low|
    ensures |r| == |e| - 1
  {
    if e[0] then Plus(e[1..], low + Zeros(|e| - 33)) else e[1..]
  }

  lemma LessWindow(e: Poly, low: Poly, poly: bv32)
    requires |e| > 32 == |low| && Fold(0, low) == poly
    ensures Window(Less(e, low)) == Next(Window(e), e[32], poly) && Less(e, low)[32..] == e[33..]
  {
    hide Fold, In, Xor, Top, Less;
    WindowNext(e);
    LessParts(e, low);
    XorNone(0);
    if e[0] { FoldPlus(0, 0, e[1..][..32], low); }
  }

  lemma LessParts(e: Poly, low: Poly)
    requires |e| > 32 == |low|
    ensures Less(e, low)[..32] == if e[0] then Plus(e[1..][..32], low) else e[1..][..32]
    ensures Less(e, low)[32..] == e[33..]
  {
    hide Less, Plus;
    var d := Less(e, low);
    forall k: nat | k < |e| - 1
      ensures d[k] == (e[k + 1] != (e[0] && k < 32 && low[k]))
    {
      LessAt(e, low, k);
    }
  }

  // The coefficients of the three, one by one.

  lemma ProductMore(q: Poly, p: Poly, k: nat)
    requires q != [] && p != [] && k < |q| + |p| - 1
    ensures Product(q, p)[k] == (Scaled(q[0], p, |q| - 1)[k] != (if k == 0 then false else Product(q[1..], p)[k - 1]))
  {
    hide Scaled;
    var a, b := Scaled(q[0], p, |q| - 1), [false] + Product(q[1..], p);
    assert b[k] == if k == 0 then false else Product(q[1..], p)[k - 1];
  }

  lemma ProductAt(q: Poly, low: Poly, k: nat)
    requires q != [] && k < |q| + |low|
    ensures Product(q, Monic(low))[k] ==
      if k == 0 then q[0] else (q[0] && k <= |low| && low[k - 1]) != Product(q[1..], Monic(low))[k - 1]
  {
    hide Scaled, Product, Plus;
    ProductMore(q, Monic(low), k);
    ScaledAt(q[0], Monic(low), |q| - 1, k);
  }

  lemma LessAt(e: Poly, low: Poly, k: nat)
    requires |e| > 32 == |low| && k < |e| - 1
    ensures Less(e, low)[k] == (e[k + 1] != (e[0] && k < 32 && low[k]))
  {
    ZerosAre(|e| - 33);
  }

  /** The coefficient that a quotient and a remainder make. */
  function Made(q: Poly, low: Poly, f: Poly, k: nat): bool
    requires |low| == |f| == 32 && k < |q| + 32
  {
    Product(q, Monic(low))[k] != (k >= |q| && f[k - |q|])
  }

  lemma DividesAt(e: Poly, q: Poly, low: Poly, f: Poly)
    requires |low| == |f| == 32 && |e| == |q| + 32
    ensures Divides(e, q, low, f) <==> forall k: nat :: k < |e| ==> e[k] == Made(q, low, f, k)
  {
    hide Product;
    ZerosAre(|q|);
    var r := Plus(Product(q, Monic(low)), Zeros(|q|) + f);
    assert forall k: nat :: k < |e| ==> r[k] == Made(q, low, f, k);
  }

  lemma MadeAt(q: Poly, low: Poly, f: Poly, k: nat)
    requires |low| == |f| == 32 && q != [] && k < |q| + 32
    ensures Made(q, low, f, k) == if k == 0 then q[0] else (q[0] && k <= 32 && low[k - 1]) != Made(q[1..], low, f, k - 1)
  {
    hide Product;
    ProductAt(q, low, k);
  }

  lemma MadeNone(low: Poly, f: Poly, k: nat)
    requires |low| == |f| == 32 && k < 32
    ensures Made([], low, f, k) == f[k]
  {
    ZerosAre(32);
  }

  lemma LessDivides(e: Poly, low: Poly, q: Poly, f: Poly)
    requires |e| > 32 == |low| && Divides(Less(e, low), q, low, f)
    ensures Divides(e, [e[0]] + q, low, f)
  {
    hide Divides, Less, Made, Product;
    DividesSize(Less(e, low), q, low, f);
    var q2, d := [e[0]] + q, Less(e, low);
    DividesAt(d, q, low, f);
    assert q2[1..] == q;
    forall k: nat | k < |e|
      ensures e[k] == Made(q2, low, f, k)
    {
      MadeAt(q2, low, f, k);
      if k > 0 { LessAt(e, low, k - 1); }
    }
    DividesAt(e, q2, low, f);
  }

  lemma DividesSize(e: Poly, q: Poly, low: Poly, f: Poly)
    requires Divides(e, q, low, f)
    ensures |low| == |f| == 32 && |e| == |q| + 32
  {
  }

  /** The long division gives the remainder, for a quotient with as many coefficients as it has steps. */
  lemma {:induction false} DivisionFinds(e: Poly, low: Poly, poly: bv32) returns (q: Poly, f: Poly)
    requires |e| >= 32 == |low| && Fold(0, low) == poly
    ensures Divides(e, q, low, f) && Fold(0, f) == Divide(Window(e), e[32..], poly)
    decreases |e|
  {
    hide Fold, Next, Less, Product;
    if |e| == 32 {
      q, f := [], e;
      LastDivides(e, low);
      assert e[..32] == e && e[32..] == [];
    } else {
      LessWindow(e, low, poly);
      q, f := DivisionFinds(Less(e, low), low, poly);
      LessDivides(e, low, q, f);
      q := [e[0]] + q;
      assert e[32..][0] == e[32] && e[32..][1..] == e[33..];
    }
  }

  lemma LastDivides(e: Poly, low: Poly)
    requires |e| == 32 == |low|
    ensures Divides(e, [], low, e)
  {
    ZerosAre(32);
    var p: Poly := Product([], Monic(low));
    assert Plus(p, Zeros(0) + e) == e;
  }

  // ----- and there are no others -----

  lemma FirstCoefficient(e: Poly, q: Poly, low: Poly, f: Poly)
    requires Divides(e, q, low, f) && q != []
    ensures |e| > 32 == |low| && q[0] == e[0] && Divides(Less(e, low), q[1..], low, f)
  {
    hide Divides, Less, Made, Product;
    DividesSize(e, q, low, f);
    DividesAt(e, q, low, f);
    var t, d := q[1..], Less(e, low);
    MadeAt(q, low, f, 0);
    forall k: nat | k < |d|
      ensures d[k] == Made(t, low, f, k)
    {
      MadeAt(q, low, f, k + 1);
      LessAt(e, low, k);
    }
    DividesAt(d, t, low, f);
  }

  lemma {:induction false} OneDivision(e: Poly, low: Poly, q: Poly, f: Poly, q2: Poly, f2: Poly)
    requires Divides(e, q, low, f) && Divides(e, q2, low, f2)
    ensures q == q2 && f == f2
    decreases |q|
  {
    hide Less, Divides, Made;
    DividesSize(e, q, low, f);
    DividesSize(e, q2, low, f2);
    if q == [] {
      DividesAt(e, q, low, f);
      DividesAt(e, q2, low, f2);
      forall k: nat | k < 32
        ensures f[k] == f2[k]
      {
        MadeNone(low, f, k);
        MadeNone(low, f2, k);
      }
    } else {
      FirstCoefficient(e, q, low, f);
      FirstCoefficient(e, q2, low, f2);
      OneDivision(Less(e, low), low, q[1..], f, q2[1..], f2);
      assert q == [q[0]] + q[1..] && q2 == [q2[0]] + q2[1..];
    }
  }

  /** A word has only one sequence of 32 coefficients. */
  lemma {:induction false} SameWindow(e: Poly, d: Poly, k: nat)
    requires |e| == |d| >= 32 && Window(e) == Window(d) && e[32..] == d[32..] && k <= |e| - 32
    ensures e[k] == d[k]
    decreases k
  {
    hide Fold, Top, In;
    if |e| == 32 {
      assert e[..32] == e && d[..32] == d;
      WindowTop(e);
      WindowTop(d);
    } else {
      WindowNext(e);
      WindowNext(d);
      assert e[32..][0] == e[32] && d[32..][0] == d[32];
      assert e[1..][32..] == e[32..][1..] && d[1..][32..] == d[32..][1..];
      if k > 0 { SameWindow(e[1..], d[1..], k - 1); }
    }
  }

  lemma SameWord(f: Poly, g: Poly)
    requires |f| == |g| == 32 && Fold(0, f) == Fold(0, g)
    ensures f == g
  {
    hide Fold;
    var e, d := f + Zeros(32), g + Zeros(32);
    assert e[..32] == f && d[..32] == g && e[32..] == Zeros(32) == d[32..];
    forall k | 0 <= k < 32
      ensures f[k] == g[k]
    {
      SameWindow(e, d, k);
      assert e[k] == f[k] && d[k] == g[k];
    }
  }

  /** The polynomial of a message times x^32, with the residue of what came before it added to its first 32 coefficients. */
  function Dividend(p: seq<bv8>, before: Poly): Poly
    requires |before| == 32
  {
    var e := Bits(p) + Zeros(32);
    Plus(e, before + Zeros(|e| - 32))
  }

  /**
   * The residue of a message is the one word whose polynomial differs from that of the message times x^32 by a multiple of
   * the divisor.
   */
  lemma ResidueDivides(r: bv32, p: seq<bv8>, poly: bv32, before: Poly, low: Poly, f: Poly)
    requires |before| == |low| == |f| == 32 && Fold(0, before) == r && Fold(0, low) == poly
    ensures (exists q :: Divides(Dividend(p, before), q, low, f)) <==> Fold(0, f) == Residue(r, p, poly)
  {
    hide Fold, Xor, Divides, Divide;
    var e := Bits(p) + Zeros(32);
    var d := Dividend(p, before);
    ZerosAre(|e| - 32);
    assert d[..32] == Plus(e[..32], before) && d[32..] == e[32..];
    XorNone(0);
    FoldPlus(0, 0, e[..32], before);
    ResidueIsRemainder(r, p, poly);
    var q, g := DivisionFinds(d, low, poly);
    assert Fold(0, g) == Residue(r, p, poly);
    if Fold(0, f) == Residue(r, p, poly) { SameRemainder(d, q, low, g, f); }
    if q2 :| Divides(d, q2, low, f) { OneDivision(d, low, q, g, q2, f); }
  }

  lemma SameRemainder(d: Poly, q: Poly, low: Poly, g: Poly, f: Poly)
    requires Divides(d, q, low, g) && |f| == 32 && Fold(0, f) == Fold(0, g)
    ensures Divides(d, q, low, f)
  {
    SameWord(f, g);
  }
}
