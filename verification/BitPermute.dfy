/**
 * Permuting the bits of a word by a radix sort: src/bitops.c. The 32-bit and the 64-bit functions differ in the width
 * only; here a word has 2^n bits. Compression to the left and to the right are one function with the side as a parameter.
 */
module BitPermute {
  import opened Powers
  import opened BitWords
  import opened Permutations

  datatype Side = Left | Right

  /** `x >> k` for the right, `x << k` for the left. */
  function Toward(d: Side, x: Word, k: nat): (r: Word)
    ensures |r| == |x|
  {
    if d == Right then Shr(x, k) else Shl(x, k)
  }

  function Away(d: Side, x: Word, k: nat): (r: Word)
    ensures |r| == |x|
  {
    if d == Right then Shl(x, k) else Shr(x, k)
  }

  /** The bit `u` places from the end on side `d`. */
  predicate At(d: Side, x: Word, u: nat)
    requires u < |x|
  {
    if d == Right then x[u] else x[|x| - 1 - u]
  }

  lemma TowardAt(d: Side, x: Word, k: nat, u: nat)
    requires u < |x|
    ensures At(d, Toward(d, x, k), u) <==> u + k < |x| && At(d, x, u + k)
  {
  }

  lemma AwayAt(d: Side, x: Word, k: nat, u: nat)
    requires u < |x|
    ensures At(d, Away(d, x, k), u) <==> k <= u && At(d, x, u - k)
  {
  }

  // ----- parities -----

  /** The number of bits that are off among the first `u` from the end on side `d`. */
  function Zeros(d: Side, m: Word, u: nat): (n: nat)
    requires u <= |m|
    ensures n <= u
  {
    if u == 0 then 0 else Zeros(d, m, u - 1) + (if At(d, m, u - 1) then 0 else 1)
  }

  /** Whether an odd number of bits is on among the `n` bits that end at place `u`. */
  predicate Odd(d: Side, w: Word, u: nat, n: nat)
    requires u < |w|
    decreases n
  {
    if n == 0 then false
    else if u == 0 then At(d, w, 0)
    else At(d, w, u) != Odd(d, w, u - 1, n - 1)
  }

  /** The lines that compute `mp` from `mk`, each with twice the shift of the one before. */
  function Fold(d: Side, w: Word, k: nat): (r: Word)
    ensures |r| == |w|
  {
    if k == 0 then w else var y := Fold(d, w, k - 1); Xor(y, Away(d, y, Pow2(k - 1)))
  }

  lemma {:induction false} OddSplit(d: Side, w: Word, u: nat, a: nat, b: nat)
    requires u < |w|
    ensures Odd(d, w, u, a + b) <==> (Odd(d, w, u, a) != (a <= u && Odd(d, w, u - a, b)))
    decreases a
  {
    if a > 0 && u > 0 { OddSplit(d, w, u - 1, a - 1, b); }
  }

  lemma {:induction false} FoldOdd(d: Side, w: Word, k: nat, u: nat)
    requires u < |w|
    ensures At(d, Fold(d, w, k), u) <==> Odd(d, w, u, Pow2(k))
  {
    hide Odd, At, Xor, Away;
    if k == 0 {
      OddOne(d, w, u);
    } else {
      var y, h := Fold(d, w, k - 1), Pow2(k - 1);
      FoldOdd(d, w, k - 1, u);
      if h <= u { FoldOdd(d, w, k - 1, u - h); }
      AwayAt(d, y, h, u);
      XorAt(d, y, Away(d, y, h), u);
      OddSplit(d, w, u, h, h);
    }
  }

  lemma OddOne(d: Side, w: Word, u: nat)
    requires u < |w|
    ensures Odd(d, w, u, 1) <==> At(d, w, u)
  {
    if u > 0 { assert !Odd(d, w, u - 1, 0); }
  }

  lemma XorAt(d: Side, x: Word, y: Word, u: nat)
    requires u < |x| == |y|
    ensures At(d, Xor(x, y), u) == (At(d, x, u) != At(d, y, u))
  {
  }

  // ----- the marks: every 2^i-th of the places behind a bit that is off -----

  predicate Marks(d: Side, m: Word, w: Word, i: nat) {
    |w| == |m| && forall u :: 0 <= u < |m| ==> (At(d, w, u) <==> u > 0 && !At(d, m, u - 1) && Zeros(d, m, u) % Pow2(i) == 0)
  }

  /** The bit number `i` of the number of zeros before each place. */
  predicate Bit(z: nat, i: nat) {
    z / Pow2(i) % 2 == 1
  }

  lemma DivNext(z: nat, q: nat)
    requires 0 < q
    ensures (z + 1) / q == z / q + (if (z + 1) % q == 0 then 1 else 0)
  {
    var a, r := z / q, z % q;
    Times(q, a, 1);
    if r + 1 < q { DivIs(z + 1, q, a, r + 1); } else { DivIs(z + 1, q, a + 1, 0); }
  }

  /** So the parity of the marks up to a place is a bit of the number of zeros before it. */
  lemma {:induction false} OddMarks(d: Side, m: Word, w: Word, i: nat, u: nat, n: nat)
    requires Marks(d, m, w, i) && u < |m| && u < n
    ensures Odd(d, w, u, n) <==> Bit(Zeros(d, m, u), i)
  {
    hide At, Bit;
    assert At(d, w, u) <==> u > 0 && !At(d, m, u - 1) && Zeros(d, m, u) % Pow2(i) == 0;
    if u == 0 {
      NoBit(i);
    } else {
      OddMarks(d, m, w, i, u - 1, n - 1);
      NextBit(Zeros(d, m, u - 1), i);
    }
  }

  lemma NoBit(i: nat)
    ensures !Bit(0, i)
  {
  }

  lemma NextBit(z: nat, i: nat)
    ensures Bit(z + 1, i) <==> (Bit(z, i) != ((z + 1) % Pow2(i) == 0))
  {
    DivNext(z, Pow2(i));
  }

  lemma BitSplit(z: nat, i: nat)
    ensures z % Pow2(i + 1) == z % Pow2(i) + (if Bit(z, i) then Pow2(i) else 0)
  {
    hide Pow2;
    assert Pow2(i + 1) == 2 * Pow2(i) by { Pow2Next(i); }
    DivTwice(z, Pow2(i));
  }

  lemma DivTwice(z: nat, q: nat)
    requires 0 < q
    ensures z % (2 * q) == z % q + (if z / q % 2 == 1 then q else 0)
  {
    var a, r := z / q, z % q;
    var b, c := a / 2, a % 2;
    Times(q, 2 * b, c);
    Times(2 * q, b, 0);
    DivIs(z, 2 * q, b, q * c + r);
  }

  lemma FirstMarks(d: Side, m: Word)
    ensures Marks(d, m, Away(d, Not(m), 1), 0)
  {
    var w := Away(d, Not(m), 1);
    forall u | 0 <= u < |m|
      ensures At(d, w, u) <==> u > 0 && !At(d, m, u - 1) && Zeros(d, m, u) % Pow2(0) == 0
    {
      AwayAt(d, Not(m), 1, u);
    }
  }

  lemma NextMarks(d: Side, m: Word, w: Word, mp: Word, i: nat)
    requires Marks(d, m, w, i) && |mp| == |m| && forall u :: 0 <= u < |m| ==> (At(d, mp, u) <==> Bit(Zeros(d, m, u), i))
    ensures Marks(d, m, And(w, Not(mp)), i + 1)
  {
    var v := And(w, Not(mp));
    forall u | 0 <= u < |m|
      ensures At(d, v, u) <==> u > 0 && !At(d, m, u - 1) && Zeros(d, m, u) % Pow2(i + 1) == 0
    {
      AndNotAt(d, w, mp, u);
      hide At, Bit;
      BitSplit(Zeros(d, m, u), i);
    }
  }

  lemma AndNotAt(d: Side, w: Word, mp: Word, u: nat)
    requires u < |w| == |mp|
    ensures At(d, And(w, Not(mp)), u) == (At(d, w, u) && !At(d, mp, u))
  {
  }

  // ----- the bits on their way -----

  /** Where the bit from place `u` is after `i` rounds. */
  function Place(d: Side, m: Word, u: nat, i: nat): (q: nat)
    requires u <= |m|
    ensures q <= u
  {
    ModBelow(Zeros(d, m, u), Pow2(i));
    u - Zeros(d, m, u) % Pow2(i)
  }

  lemma ModBelow(z: nat, q: nat)
    requires 0 < q
    ensures z % q <= z
  {
  }

  /** The bit from place `u` takes part and is at place `q`. */
  predicate Comes(d: Side, m: Word, x: Word, i: nat, u: nat, q: nat) {
    u < |m| == |x| && At(d, m, u) && At(d, x, u) && Place(d, m, u, i) == q
  }

  /** The bits of `x` under the mask `m` after `i` rounds. */
  ghost predicate Placed(d: Side, m: Word, x: Word, w: Word, i: nat) {
    |x| == |m| == |w| && forall q :: 0 <= q < |w| ==> (At(d, w, q) <==> exists u :: Comes(d, m, x, i, u, q))
  }

  lemma {:induction false} ZerosBetween(d: Side, m: Word, q: nat, u: nat)
    requires q <= u <= |m|
    ensures Zeros(d, m, u) - (u - q) <= Zeros(d, m, q) <= Zeros(d, m, u)
  {
    if q < u { ZerosBetween(d, m, q, u - 1); }
  }

  /** On its way a bit sees the same bit of the number of zeros as from where it comes. */
  lemma SameBit(d: Side, m: Word, u: nat, i: nat)
    requires u <= |m|
    ensures Bit(Zeros(d, m, Place(d, m, u, i)), i) <==> Bit(Zeros(d, m, u), i)
  {
    hide Zeros, Pow2;
    var q := Place(d, m, u, i);
    ZerosBetween(d, m, q, u);
    Between(Zeros(d, m, u), Zeros(d, m, q), Pow2(i));
  }

  lemma NextPlace(d: Side, m: Word, u: nat, i: nat)
    requires u <= |m|
    ensures Place(d, m, u, i + 1) == Place(d, m, u, i) - (if Bit(Zeros(d, m, u), i) then Pow2(i) else 0)
  {
    hide Bit, Zeros, Pow2;
    BitSplit(Zeros(d, m, u), i);
  }

  /** One round, for the mask as for the word. */
  lemma Round(d: Side, m: Word, x: Word, w: Word, mp: Word, i: nat)
    requires Placed(d, m, x, w, i) && |mp| == |m| && forall u :: 0 <= u < |m| ==> (At(d, mp, u) <==> Bit(Zeros(d, m, u), i))
    ensures var v := And(w, mp); Placed(d, m, x, Or(Xor(w, v), Toward(d, v, Pow2(i))), i + 1)
  {
    var v := And(w, mp);
    var r := Or(Xor(w, v), Toward(d, v, Pow2(i)));
    var j := i + 1;
    forall q | 0 <= q < |m|
      ensures At(d, r, q) <==> exists u :: Comes(d, m, x, j, u, q)
    {
      RoundAt(d, m, x, w, mp, i, q);
    }
  }

  lemma RoundBits(d: Side, w: Word, mp: Word, k: nat, q: nat)
    requires q < |w| == |mp|
    ensures var v := And(w, mp);
            At(d, Or(Xor(w, v), Toward(d, v, k)), q) <==>
              (At(d, w, q) && !At(d, mp, q)) || (q + k < |w| && At(d, w, q + k) && At(d, mp, q + k))
  {
    TowardAt(d, And(w, mp), k, q);
  }

  lemma RoundAt(d: Side, m: Word, x: Word, w: Word, mp: Word, i: nat, q: nat)
    requires Placed(d, m, x, w, i) && |mp| == |m| && forall u :: 0 <= u < |m| ==> (At(d, mp, u) <==> Bit(Zeros(d, m, u), i))
    requires q < |m|
    ensures var v, j := And(w, mp), i + 1;
            At(d, Or(Xor(w, v), Toward(d, v, Pow2(i))), q) <==> exists u :: Comes(d, m, x, j, u, q)
  {
    hide At, Bit, Zeros, Pow2, Place, And, Or, Xor, Toward;
    var k, j, l := Pow2(i), i + 1, q + Pow2(i);
    RoundBits(d, w, mp, k, q);
    if At(d, w, q) && !At(d, mp, q) {
      var u :| Comes(d, m, x, i, u, q);
      SameBit(d, m, u, i);
      NextPlace(d, m, u, i);
      assert Comes(d, m, x, j, u, q);
    }
    if q + k < |w| && At(d, w, q + k) && At(d, mp, q + k) {
      var u :| Comes(d, m, x, i, u, l);
      SameBit(d, m, u, i);
      NextPlace(d, m, u, i);
      assert Comes(d, m, x, j, u, q);
    }
    if u :| Comes(d, m, x, j, u, q) {
      SameBit(d, m, u, i);
      NextPlace(d, m, u, i);
      assert Comes(d, m, x, i, u, Place(d, m, u, i));
    }
  }

  /** Under the mask, bits and mask move alike. */
  lemma SubMask(d: Side, m0: Word, x0: Word, x: Word, m: Word, mp: Word, i: nat)
    requires Placed(d, m0, x0, x, i) && Placed(d, m0, m0, m, i) && |mp| == |m0|
    ensures And(x, And(m, mp)) == And(x, mp)
  {
    forall j | 0 <= j < |x|
      ensures x[j] ==> m[j]
    {
      var u := if d == Right then j else |x| - 1 - j;
      assert At(d, x, u) == x[j] && At(d, m, u) == m[j];
      if At(d, x, u) {
        var v :| Comes(d, m0, x0, i, v, u);
        assert Comes(d, m0, m0, i, v, u);
      }
    }
  }

  lemma NoneMoved(d: Side, m: Word, x: Word)
    requires |m| == |x|
    ensures Placed(d, m, x, And(x, m), 0) && Placed(d, m, m, m, 0)
  {
    forall q | 0 <= q < |m|
      ensures At(d, And(x, m), q) <==> exists u :: Comes(d, m, x, 0, u, q)
      ensures At(d, m, q) <==> exists u :: Comes(d, m, m, 0, u, q)
    {
      assert Place(d, m, q, 0) == q;
      if At(d, And(x, m), q) { assert Comes(d, m, x, 0, q, q); }
      if At(d, m, q) { assert Comes(d, m, m, 0, q, q); }
    }
  }

  /** compress_r32 and compress_r64 for the right, compress_l32 and compress_l64 for the left. */
  method Compress(d: Side, x0: Word, m0: Word, n: nat) returns (x: Word)
    requires |x0| == |m0| == Pow2(n)
    ensures Placed(d, m0, x0, x, n)
  {
    hide Placed, Marks, At, Fold, Away, Toward, And, Or, Xor, Not, Bit;
    x := And(x0, m0);
    var m := m0;
    var mk := Away(d, Not(m), 1);
    NoneMoved(d, m0, x0);
    FirstMarks(d, m0);
    var i := 0;
    while i < n
      invariant 0 <= i <= n && |x| == |m| == |mk| == |m0|
      invariant Placed(d, m0, x0, x, i) && Placed(d, m0, m0, m, i) && Marks(d, m0, mk, i)
    {
      var mp := Fold(d, mk, n);
      forall u | 0 <= u < |m0|
        ensures At(d, mp, u) <==> Bit(Zeros(d, m0, u), i)
      {
        FoldOdd(d, mk, n, u);
        OddMarks(d, m0, mk, i, u, Pow2(n));
      }
      var mv := And(m, mp);
      SubMask(d, m0, x0, x, m, mp, i);
      Round(d, m0, m0, m, mp, i);
      m := Or(Xor(m, mv), Toward(d, mv, Pow2(i)));
      var t := And(x, mv);
      Round(d, m0, x0, x, mp, i);
      x := Or(Xor(x, t), Toward(d, t, Pow2(i)));
      NextMarks(d, m0, mk, mp, i);
      mk := And(mk, Not(mp));
      i := i + 1;
    }
  }

  /** After all rounds each bit of the mask has been moved past every bit that is off on the way. */
  lemma Arrived(d: Side, m: Word, u: nat, n: nat)
    requires u < |m| == Pow2(n)
    ensures Place(d, m, u, n) == u - Zeros(d, m, u)
  {
    hide Zeros, Pow2;
    Small(Zeros(d, m, u), Pow2(n));
  }

  lemma Small(z: nat, q: nat)
    requires z < q
    ensures z % q == z
  {
  }

  // ----- sheep and goats -----

  /** The number of bits that are off below place `j`. */
  function Off(mask: Word, j: nat): (n: nat)
    requires j <= |mask|
    ensures n <= j
  {
    Zeros(Right, mask, j)
  }

  /** Where the bit at `j` goes: those off in the mask below those on, each group in its order. */
  function Dest(mask: Word, j: nat): nat
    requires j < |mask|
  {
    if mask[j] then Off(mask, |mask|) + (j - Off(mask, j)) else Off(mask, j)
  }

  lemma {:induction false} OffOrder(mask: Word, j: nat, k: nat)
    requires j <= k <= |mask|
    ensures Off(mask, j) <= Off(mask, k) && j - Off(mask, j) <= k - Off(mask, k)
    ensures j < k ==> (if mask[j] then j - Off(mask, j) < k - Off(mask, k) else Off(mask, j) < Off(mask, k))
  {
    if j < k { OffOrder(mask, j, k - 1); }
  }

  /** The partition is stable, and by that alone one bit goes to each place. */
  lemma DestOrder(mask: Word, j: nat, k: nat)
    requires j < |mask| && k < |mask|
    ensures Dest(mask, j) < |mask|
    ensures Dest(mask, j) < Dest(mask, k) <==> (!mask[j] && mask[k]) || (mask[j] == mask[k] && j < k)
  {
    hide Off;
    OffOrder(mask, j, |mask|);
    OffOrder(mask, k, |mask|);
    if j <= k { OffOrder(mask, j, k); } else { OffOrder(mask, k, j); }
  }

  lemma {:induction false} LeftZeros(m: Word, u: nat)
    requires u <= |m|
    ensures Zeros(Left, m, u) + Zeros(Right, m, |m| - u) == Zeros(Right, m, |m|)
  {
    if u > 0 { LeftZeros(m, u - 1); }
  }

  lemma {:induction false} NotZeros(m: Word, u: nat)
    requires u <= |m|
    ensures Zeros(Right, Not(m), u) == u - Zeros(Right, m, u)
  {
    if u > 0 { NotZeros(m, u - 1); }
  }

  /** What SAG32 and SAG64 do. */
  ghost predicate Sorted(mask: Word, x: Word, r: Word) {
    |x| == |mask| == |r| && forall j :: 0 <= j < |mask| ==> Dest(mask, j) < |r| && r[Dest(mask, j)] == x[j]
  }

  /** SAG32, SAG64 */
  method Sag(x: Word, mask: Word, n: nat) returns (r: Word)
    requires |x| == |mask| == Pow2(n)
    ensures Sorted(mask, x, r)
  {
    hide Placed, Sorted;
    var l := Compress(Left, x, mask, n);
    var q := Compress(Right, x, Not(mask), n);
    assert |l| == |q| == |x| by { PlacedLength(Left, mask, x, l, n); PlacedLength(Right, Not(mask), x, q, n); }
    r := Or(l, q);
    SagSorted(mask, x, l, q, n);
  }

  lemma PlacedLength(d: Side, m: Word, x: Word, w: Word, n: nat)
    requires Placed(d, m, x, w, n)
    ensures |w| == |x| == |m|
  {
  }

  /** The two compressions, in terms of where a bit goes. */
  lemma LeftDest(mask: Word, k: nat, n: nat)
    requires k < |mask| == Pow2(n) && mask[k]
    ensures |mask| - 1 - Place(Left, mask, |mask| - 1 - k, n) == Dest(mask, k)
  {
    hide Place, Pow2;
    Arrived(Left, mask, |mask| - 1 - k, n);
    LeftZeros(mask, |mask| - 1 - k);
    assert Off(mask, k + 1) == Off(mask, k);
  }

  lemma RightDest(mask: Word, k: nat, n: nat)
    requires k < |mask| == Pow2(n) && !mask[k]
    ensures Place(Right, Not(mask), k, n) == Dest(mask, k)
  {
    hide Place, Pow2;
    Arrived(Right, Not(mask), k, n);
    NotZeros(mask, k);
  }

  lemma SagSorted(mask: Word, x: Word, l: Word, q: Word, n: nat)
    requires |mask| == Pow2(n) && Placed(Left, mask, x, l, n) && Placed(Right, Not(mask), x, q, n)
    ensures Sorted(mask, x, Or(l, q))
  {
    hide Placed, Dest;
    PlacedLength(Left, mask, x, l, n);
    PlacedLength(Right, Not(mask), x, q, n);
    forall j | 0 <= j < |mask|
      ensures Dest(mask, j) < |mask| && Or(l, q)[Dest(mask, j)] == x[j]
    {
      DestOrder(mask, j, j);
      LeftAt(mask, x, l, n, j);
      RightAt(mask, x, q, n, j);
    }
  }

  lemma LeftAt(mask: Word, x: Word, l: Word, n: nat, j: nat)
    requires |mask| == Pow2(n) && Placed(Left, mask, x, l, n) && j < |mask|
    ensures Dest(mask, j) < |mask| && l[Dest(mask, j)] == (mask[j] && x[j])
  {
    hide Dest, Place, Pow2;
    DestOrder(mask, j, j);
    var t := Dest(mask, j);
    var v := |mask| - 1 - t;
    assert At(Left, l, v) == l[t];
    if l[t] {
      var u :| Comes(Left, mask, x, n, u, v);
      LeftDest(mask, |mask| - 1 - u, n);
      DestOrder(mask, j, |mask| - 1 - u);
      DestOrder(mask, |mask| - 1 - u, j);
    }
    if mask[j] && x[j] {
      LeftDest(mask, j, n);
      assert Comes(Left, mask, x, n, |mask| - 1 - j, v);
    }
  }

  lemma RightAt(mask: Word, x: Word, q: Word, n: nat, j: nat)
    requires |mask| == Pow2(n) && Placed(Right, Not(mask), x, q, n) && j < |mask|
    ensures Dest(mask, j) < |mask| && q[Dest(mask, j)] == (!mask[j] && x[j])
  {
    hide Dest, Place, Pow2;
    DestOrder(mask, j, j);
    var t := Dest(mask, j);
    assert At(Right, q, t) == q[t];
    if q[t] {
      var u :| Comes(Right, Not(mask), x, n, u, t);
      RightDest(mask, u, n);
      DestOrder(mask, j, u);
      DestOrder(mask, u, j);
    }
    if !mask[j] && x[j] {
      RightDest(mask, j, n);
      assert Comes(Right, Not(mask), x, n, j, t);
    }
  }

  // ----- permutation vectors -----

  predicate Masks(pv: seq<Word>, w: nat) {
    forall k :: 0 <= k < |pv| ==> |pv[k]| == w
  }

  /** Where the bit at `j` is after all the steps of `pv`. */
  function After(pv: seq<Word>, w: nat, j: nat): (q: nat)
    requires Masks(pv, w) && j < w
    ensures q < w
  {
    if pv == [] then j
    else
      var q := After(pv[..|pv| - 1], w, j);
      DestOrder(pv[|pv| - 1], q, q);
      Dest(pv[|pv| - 1], q)
  }

  /** At every step the mask shows, where the bit from `j` is by then, the bit of `arr[j]` of that weight. */
  ghost predicate Vectors(arr: seq<nat>, pv: seq<Word>) {
    && Masks(pv, |arr|)
    && forall k, j :: 0 <= k < |pv| && 0 <= j < |arr| ==> Shown(arr, pv[..k], pv[k], k, j)
  }

  predicate Shown(arr: seq<nat>, pv: seq<Word>, w: Word, k: nat, j: nat)
    requires j < |arr|
  {
    Masks(pv, |arr|) && |w| == |arr| && w[After(pv, |arr|, j)] == Bit(arr[j], k)
  }

  /** A radix sort: after `k` steps the bits are in the order of the lower `k` bits of their destinations, ties as at first. */
  lemma {:induction false} RadixOrder(arr: seq<nat>, pv: seq<Word>, j: nat, l: nat)
    requires Vectors(arr, pv) && j < |arr| && l < |arr|
    ensures var k, a, b := |pv|, arr[j] % Pow2(|pv|), arr[l] % Pow2(|pv|);
            After(pv, |arr|, j) < After(pv, |arr|, l) <==> a < b || (a == b && j < l)
  {
    if pv != [] {
      var k := |pv| - 1;
      var qv, mask := pv[..k], pv[k];
      assert forall i :: 0 <= i < k ==> qv[..i] == pv[..i];
      RadixOrder(arr, qv, j, l);
      assert Shown(arr, qv, mask, k, j) && Shown(arr, qv, mask, k, l);
      RadixStep(arr, qv, mask, k, j, l);
    }
  }

  lemma RadixStep(arr: seq<nat>, qv: seq<Word>, mask: Word, k: nat, j: nat, l: nat)
    requires j < |arr| && l < |arr| && Shown(arr, qv, mask, k, j) && Shown(arr, qv, mask, k, l)
    requires var a, b := arr[j] % Pow2(k), arr[l] % Pow2(k);
             After(qv, |arr|, j) < After(qv, |arr|, l) <==> a < b || (a == b && j < l)
    ensures var a, b := arr[j] % Pow2(k + 1), arr[l] % Pow2(k + 1);
            Dest(mask, After(qv, |arr|, j)) < Dest(mask, After(qv, |arr|, l)) <==> a < b || (a == b && j < l)
  {
    hide Dest, Bit, Pow2, After;
    DestOrder(mask, After(qv, |arr|, j), After(qv, |arr|, l));
    DestOrder(mask, After(qv, |arr|, l), After(qv, |arr|, j));
    BitSplit(arr[j], k);
    BitSplit(arr[l], k);
    Euclid(arr[j], Pow2(k));
    Euclid(arr[l], Pow2(k));
  }

  // ----- a permutation is determined by its order -----

  /** After the last step each bit is at its destination. */
  lemma AtDestination(arr: seq<nat>, pv: seq<Word>, n: nat, j: nat)
    requires IsPerm(arr) && |arr| == Pow2(n) && |pv| == n && Vectors(arr, pv) && j < |arr|
    ensures After(pv, |arr|, j) == arr[j]
  {
    var i := Named(arr, arr[j]);
    FromBelow(arr, pv, n, arr[j], j);
    FromAbove(arr, pv, n, arr[j], j);
  }

  lemma ByValue(arr: seq<nat>, pv: seq<Word>, n: nat, j: nat, l: nat)
    requires IsPerm(arr) && |arr| == Pow2(n) && |pv| == n && Vectors(arr, pv) && j < |arr| && l < |arr| && j != l
    ensures After(pv, |arr|, j) < After(pv, |arr|, l) <==> arr[j] < arr[l]
  {
    hide Pow2, After, Vectors;
    RadixOrder(arr, pv, j, l);
    Small(arr[j], Pow2(n));
    Small(arr[l], Pow2(n));
  }

  /** There are `v` places before that of the bit for `v`, and as many after it as it leaves. */
  lemma {:induction false} FromBelow(arr: seq<nat>, pv: seq<Word>, n: nat, v: nat, j: nat)
    requires IsPerm(arr) && |arr| == Pow2(n) && |pv| == n && Vectors(arr, pv) && j < |arr| && arr[j] == v
    ensures v <= After(pv, |arr|, j)
    decreases v
  {
    if v > 0 {
      var i := Named(arr, v - 1);
      FromBelow(arr, pv, n, v - 1, i);
      ByValue(arr, pv, n, i, j);
    }
  }

  lemma {:induction false} FromAbove(arr: seq<nat>, pv: seq<Word>, n: nat, v: nat, j: nat)
    requires IsPerm(arr) && |arr| == Pow2(n) && |pv| == n && Vectors(arr, pv) && j < |arr| && arr[j] == v
    ensures After(pv, |arr|, j) <= v
    decreases |arr| - v
  {
    if v + 1 < |arr| {
      var i := Named(arr, v + 1);
      FromAbove(arr, pv, n, v + 1, i);
      ByValue(arr, pv, n, j, i);
    }
  }

  // ----- the functions on arrays -----

  /** The first loop of arr_to_SAG_permvec: `t` is the word of the places seen so far. */
  method CheckPerm(arr: seq<nat>) returns (ok: bool)
    ensures ok <==> IsPerm(arr)
  {
    var t: Word := seq(|arr|, i => false);
    var i := 0;
    while i < |arr|
      invariant 0 <= i <= |arr| == |t|
      invariant forall j :: 0 <= j < i ==> arr[j] < |arr| && t[arr[j]]
      invariant forall v :: 0 <= v < |t| && t[v] ==> exists j :: 0 <= j < i && arr[j] == v
      invariant forall j, k :: 0 <= j < k < i ==> arr[j] != arr[k]
    {
      if arr[i] >= |arr| {
        return false;
      }
      if t[arr[i]] {
        return false;
      }
      t := t[arr[i] := true];
      i := i + 1;
    }
    ok := true;
  }

  /** arr_to_SAG_permvec32 and arr_to_SAG_permvec64: false stands for -1. */
  method ToPermvec(arr: seq<nat>, pv: array<Word>, n: nat) returns (ok: bool)
    requires |arr| == Pow2(n) && pv.Length == n
    modifies pv
    ensures ok <==> IsPerm(arr)
    ensures ok ==> Vectors(arr, pv[..])
    ensures !ok ==> pv[..] == old(pv[..])
  {
    hide Pow2, Bit, After, Dest, Sorted;
    ok := CheckPerm(arr);
    if !ok {
      return;
    }
    var k := 0;
    while k < n
      invariant 0 <= k <= n && forall i :: 0 <= i < k ==> Raw(arr, pv[i], i)
    {
      pv[k] := seq(|arr|, j requires 0 <= j < |arr| => Bit(arr[j], k));
      k := k + 1;
    }
    k := 0;
    while k < n
      invariant 0 <= k <= n && (forall i :: k <= i < n ==> Raw(arr, pv[i], i)) && Vectors(arr, pv[..k])
    {
      var i := 0;
      ghost var done := pv[..k];
      StartShown(arr, pv[k], k);
      MasksOf(arr, done);
      while i < k
        invariant 0 <= i <= k && |pv[k]| == |arr| && pv[..k] == done && (forall i :: k < i < n ==> Raw(arr, pv[i], i))
        invariant forall j :: 0 <= j < |arr| ==> Shown(arr, done[..i], pv[k], k, j)
      {
        assert pv[i] == done[i];
        var w := Sag(pv[k], pv[i], n);
        SortedLength(pv[i], pv[k], w);
        ghost var more := done[..i + 1];
        forall j | 0 <= j < |arr|
          ensures Shown(arr, more, w, k, j)
        {
          SagShown(arr, done, i, pv[k], w, k, j);
        }
        pv[k] := w;
        i := i + 1;
      }
      assert done[..k] == done;
      MoreVectors(arr, done, pv[k]);
      assert pv[..k + 1] == done + [pv[k]];
      k := k + 1;
    }
    assert pv[..n] == pv[..];
  }

  /** A mask before it is moved: the bits of that weight. */
  predicate Raw(arr: seq<nat>, w: Word, k: nat) {
    |w| == |arr| && forall j :: 0 <= j < |arr| ==> w[j] == Bit(arr[j], k)
  }

  lemma StartShown(arr: seq<nat>, w: Word, k: nat)
    requires Raw(arr, w, k)
    ensures forall j :: 0 <= j < |arr| ==> Shown(arr, [], w, k, j)
  {
    hide Bit;
  }

  lemma SagShown(arr: seq<nat>, done: seq<Word>, i: nat, x: Word, r: Word, k: nat, j: nat)
    requires i < |done| && Masks(done, |arr|) && j < |arr| && |x| == |arr| && Sorted(done[i], x, r) && Shown(arr, done[..i], x, k, j)
    ensures Shown(arr, done[..i + 1], r, k, j)
  {
    hide Bit, Dest;
    var qv := done[..i + 1];
    assert qv[..|qv| - 1] == done[..i] && qv[|qv| - 1] == done[i];
  }

  lemma MoreVectors(arr: seq<nat>, pv: seq<Word>, w: Word)
    requires Vectors(arr, pv) && |w| == |arr| && forall j :: 0 <= j < |arr| ==> Shown(arr, pv, w, |pv|, j)
    ensures Vectors(arr, pv + [w])
  {
    var qv := pv + [w];
    forall k, j | 0 <= k < |qv| && 0 <= j < |arr|
      ensures Shown(arr, qv[..k], qv[k], k, j)
    {
      if k < |pv| { assert qv[..k] == pv[..k]; } else { assert qv[..k] == pv; }
    }
  }

  /** permute32_SAG and permute64_SAG: the bit at `j` moves to `arr[j]`. */
  method Permute(bits: Word, pv: array<Word>, n: nat, ghost arr: seq<nat>) returns (r: Word)
    requires |bits| == |arr| == Pow2(n) && pv.Length == n && IsPerm(arr) && Vectors(arr, pv[..])
    ensures Moved(arr, bits, r)
  {
    hide Pow2, Bit, After, Dest, Sorted, Vectors;
    r := bits;
    var k := 0;
    MasksOf(arr, pv[..]);
    StartMoved(bits);
    while k < n
      invariant 0 <= k <= n && |r| == |bits| && forall j :: 0 <= j < |bits| ==> r[After(pv[..k], |arr|, j)] == bits[j]
    {
      var w := Sag(r, pv[k], n);
      assert |w| == |r| by { SortedLength(pv[k], r, w); }
      forall j | 0 <= j < |bits|
        ensures w[After(pv[..k + 1], |arr|, j)] == bits[j]
      {
        SagMoved(pv[..], k, r, w, j);
      }
      r := w;
      k := k + 1;
    }
    assert pv[..n] == pv[..];
    forall j | 0 <= j < |arr|
      ensures r[arr[j]] == bits[j]
    {
      AtDestination(arr, pv[..], n, j);
    }
  }

  predicate Moved(arr: seq<nat>, x: Word, r: Word) {
    |x| == |arr| == |r| && forall j :: 0 <= j < |arr| ==> arr[j] < |r| && r[arr[j]] == x[j]
  }

  lemma MasksOf(arr: seq<nat>, pv: seq<Word>)
    requires Vectors(arr, pv)
    ensures Masks(pv, |arr|)
  {
  }

  lemma StartMoved(x: Word)
    ensures forall j :: 0 <= j < |x| ==> x[After([], |x|, j)] == x[j]
  {
  }

  lemma SortedLength(mask: Word, x: Word, r: Word)
    requires Sorted(mask, x, r)
    ensures |r| == |x| == |mask|
  {
  }

  lemma SagMoved(pv: seq<Word>, k: nat, x: Word, r: Word, j: nat)
    requires k < |pv| && Masks(pv, |x|) && Sorted(pv[k], x, r) && j < |x|
    ensures r[After(pv[..k + 1], |x|, j)] == x[After(pv[..k], |x|, j)]
  {
    hide Dest;
    var qv := pv[..k + 1];
    assert qv[..|qv| - 1] == pv[..k] && qv[|qv| - 1] == pv[k];
  }

  /** bitgather32, bitgather64: the bit at `i` comes from `pos[i]`, of which only the lowest bits count. */
  method Gather(bits: Word, pos: seq<nat>, n: nat) returns (x: Word)
    requires |bits| == |pos| == Pow2(n)
    ensures |x| == |bits| && forall i :: 0 <= i < |x| ==> x[i] == bits[pos[i] % |bits|]
  {
    x := seq(|bits|, j => false);
    var i := 0;
    while i < |bits|
      invariant 0 <= i <= |bits| == |x| && forall j :: 0 <= j < i ==> x[j] == bits[pos[j] % |bits|]
    {
      x := x[i := bits[pos[i] % |bits|]];
      i := i + 1;
    }
  }

  /** Permuting is gathering with the inverse permutation. */
  lemma PermuteGathers(arr: seq<nat>, inv: seq<nat>, bits: Word, r: Word, x: Word)
    requires IsPerm(arr) && |inv| == |arr| == |bits| == |x| && Moved(arr, bits, r)
    requires forall v :: 0 <= v < |inv| ==> inv[v] < |arr| && arr[inv[v]] == v
    requires forall i :: 0 <= i < |x| ==> x[i] == bits[inv[i] % |bits|]
    ensures r == x
  {
    forall i | 0 <= i < |x|
      ensures r[i] == x[i]
    {
      Small(inv[i], |bits|);
      assert r[arr[inv[i]]] == bits[inv[i]];
    }
  }
}
