/** Powers of two and integer logarithms. */
module Powers {

  function Pow2(n: nat): (p: nat)
    ensures p >= 1
  {
    if n == 0 then 1 else 2 * Pow2(n - 1)
  }

  lemma {:induction false} Pow2Monotone(a: nat, b: nat)
    requires a <= b
    ensures Pow2(a) <= Pow2(b)
  {
    if a < b { Pow2Monotone(a, b - 1); }
  }

  lemma {:induction false} Pow2Sum(a: nat, b: nat)
    ensures Pow2(a + b) == Pow2(a) * Pow2(b)
  {
    if b > 0 {
      Pow2Sum(a, b - 1);
      assert Pow2(a) * Pow2(b) == 2 * (Pow2(a) * Pow2(b - 1));
    }
  }

  /** The number of the highest bit that is set. */
  function Log2(n: nat): nat
    requires n > 0
  {
    if n == 1 then 0 else 1 + Log2(n / 2)
  }

  lemma {:induction false} Log2Bounds(n: nat)
    requires n > 0
    ensures Pow2(Log2(n)) <= n < 2 * Pow2(Log2(n))
  {
    if n > 1 { Log2Bounds(n / 2); }
  }

  lemma Pow2Order(a: nat, b: nat)
    ensures a < b ==> 2 * Pow2(a) <= Pow2(b)
  {
  }

  lemma Pow2Next(i: nat)
    ensures Pow2(i + 1) == 2 * Pow2(i)
  {
  }

  // ----- quotients -----

  lemma Times(q: int, a: int, b: int)
    ensures q * (a + b) == q * a + q * b
  {
  }

  lemma TimesOrder(q: int, a: int, b: int)
    requires 0 < q
    ensures a <= b ==> q * a <= q * b
  {
  }

  lemma SameFactor(q: int, a: int, b: int, e: int)
    requires 0 < q && q * b == q * a + e && -q < e < q
    ensures a == b
  {
    TimesOrder(q, a + 1, b);
    TimesOrder(q, b + 1, a);
    Times(q, a, 1);
    Times(q, b, 1);
  }

  lemma DivIs(z: nat, q: nat, a: nat, r: nat)
    requires 0 < q && z == q * a + r && r < q
    ensures z / q == a && z % q == r
  {
    var b, t := z / q, z % q;
    SameFactor(q, a, b, r - t);
  }

  lemma Euclid(z: nat, q: nat)
    requires 0 < q
    ensures z == q * (z / q) + z % q && z % q < q
  {
  }

  lemma Between(z: nat, y: nat, q: nat)
    requires 0 < q && z - z % q <= y <= z
    ensures y / q == z / q
  {
    Euclid(z, q);
    DivIs(y, q, z / q, y - q * (z / q));
  }
}
