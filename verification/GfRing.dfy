/**
 The product of GF(2^128) as polynomial arithmetic: bit i stands for x^i, x^128 = 1 + x + x^2 + x^7, and
 the product makes the bit strings a commutative ring with one.
 */
module GfRing {
  import opened Bytes
  import opened Gf128
  import opened GfMul

  /** x^i: a single one, at place i. */
  function Monomial(i: nat): Poly
    requires i < 128
  {
    seq(128, j requires 0 <= j < 128 => j == i)
  }

  /** x^n reduced to 128 bits. */
  function Power(n: nat): Poly { V(Monomial(0), n) }

  lemma ShiftMonomial(i: nat)
    requires i < 127
    ensures Shift(Monomial(i)) == Monomial(i + 1)
  {
  }

  lemma {:induction false} PowerIsMonomial(n: nat)
    requires n < 128
    ensures Power(n) == Monomial(n)
  {
    if n > 0 {
      PowerIsMonomial(n - 1);
      ShiftMonomial(n - 1);
    }
  }

  /** The reduction polynomial: x^128 = 1 + x + x^2 + x^7. */
  lemma Reduction()
    ensures Power(128) == Add(Add(Monomial(0), Monomial(1)), Add(Monomial(2), Monomial(7)))
  {
    PowerIsMonomial(127);
    assert Power(128) == Shift(Monomial(127));
  }

  // ---- Sums ------------------------------------------------------------------

  lemma AddCommutes(p: Poly, q: Poly)
    ensures Add(p, q) == Add(q, p)
  {
  }

  /** The first n bits of x. */
  function Low(x: Poly, n: nat): Poly
    requires n <= 128
  {
    seq(128, j requires 0 <= j < 128 => j < n && x[j])
  }

  lemma LowStep(x: Poly, n: nat)
    requires n < 128
    ensures Low(x, n + 1) == Add(Low(x, n), Pick(x[n], Monomial(n)))
  {
  }

  lemma LowEnds(x: Poly)
    ensures Low(x, 0) == NONE && Low(x, 128) == x
  {
  }

  // ---- Multiplying by a monomial -----------------------------------------------

  /** x^i times y is y shifted i times: only one bit is picked. */
  lemma {:induction false} ZOfMonomial(i: nat, y: Poly, n: nat)
    requires i < 128 && n <= 128
    ensures Z(Monomial(i), y, n) == if i < n then V(y, i) else NONE
  {
    hide V, Add;
    if n > 0 {
      ZOfMonomial(i, y, n - 1);
      AddNone(V(y, i));
      NoneAdd(V(y, i));
      AddNone(NONE);
    }
  }

  lemma NoneAdd(p: Poly)
    ensures Add(NONE, p) == p
  {
  }

  lemma MonomialTimes(i: nat, y: Poly)
    requires i < 128
    ensures Product(Monomial(i), y) == V(y, i)
  {
    ZOfMonomial(i, y, 128);
  }

  lemma {:induction false} ShiftsAdd(y: Poly, m: nat, n: nat)
    ensures V(V(y, m), n) == V(y, m + n)
  {
    hide Shift;
    if n > 0 { ShiftsAdd(y, m, n - 1); }
  }

  /** Exponents add: x^i times x^j is x^(i + j), reduced. */
  lemma MonomialProduct(i: nat, j: nat)
    requires i < 128 && j < 128
    ensures Product(Monomial(i), Monomial(j)) == Power(i + j)
  {
    hide V, Product;
    MonomialTimes(i, Monomial(j));
    PowerIsMonomial(j);
    ShiftsAdd(Monomial(0), j, i);
  }

  /** One is the first bit. */
  lemma OneIsNeutral(y: Poly)
    ensures Product(Monomial(0), y) == y
  {
    hide Product;
    MonomialTimes(0, y);
  }

  // ---- Commutativity -------------------------------------------------------------

  lemma ProductNone(h: Poly)
    ensures Product(NONE, h) == NONE && Product(h, NONE) == NONE
  {
    hide Product, Add;
    ProductIsLinear(NONE, NONE, h, h);
    ProductIsLinear(h, h, NONE, NONE);
    NoneSum();
    Doubled(Product(NONE, h));
    Doubled(Product(h, NONE));
  }

  lemma Doubled(p: Poly)
    ensures p == Add(p, p) ==> p == NONE
  {
    if p == Add(p, p) {
      forall i | 0 <= i < 128 ensures !p[i] {
        assert Add(p, p)[i] == (p[i] != p[i]);
      }
      assert p == NONE;
    }
  }

  /** A monomial commutes with the low bits of any y. */
  lemma {:induction false} MonomialCommutes(i: nat, y: Poly, n: nat)
    requires i < 128 && n <= 128
    ensures Product(Monomial(i), Low(y, n)) == Product(Low(y, n), Monomial(i))
  {
    hide Product, Add, Low, Monomial, Power;
    if n == 0 {
      LowEnds(y);
      ProductNone(Monomial(i));
    } else {
      MonomialCommutes(i, y, n - 1);
      LowStep(y, n - 1);
      var t := Pick(y[n - 1], Monomial(n - 1));
      ProductIsLinear(Monomial(i), Monomial(i), Low(y, n - 1), t);
      ProductIsLinear(Low(y, n - 1), t, Monomial(i), Monomial(i));
      MonomialProduct(i, n - 1);
      MonomialProduct(n - 1, i);
      ProductNone(Monomial(i));
    }
  }

  lemma {:induction false} LowCommutes(x: Poly, y: Poly, n: nat)
    requires n <= 128
    ensures Product(Low(x, n), y) == Product(y, Low(x, n))
  {
    hide Product, Add, Low, Monomial;
    if n == 0 {
      LowEnds(x);
      ProductNone(y);
    } else {
      LowCommutes(x, y, n - 1);
      LowStep(x, n - 1);
      var t := Pick(x[n - 1], Monomial(n - 1));
      ProductIsLinear(Low(x, n - 1), t, y, y);
      ProductIsLinear(y, y, Low(x, n - 1), t);
      MonomialCommutes(n - 1, y, 128);
      LowEnds(y);
      ProductNone(y);
    }
  }

  lemma ProductCommutes(x: Poly, y: Poly)
    ensures Product(x, y) == Product(y, x)
  {
    hide Product, Low;
    LowCommutes(x, y, 128);
    LowEnds(x);
  }

  // ---- Associativity ---------------------------------------------------------------

  /** Shifting one factor shifts the product. */
  lemma {:induction false} ZOfShifted(x: Poly, y: Poly, i: nat, n: nat)
    requires n <= 128
    ensures Z(x, V(y, i), n) == V(Z(x, y, n), i)
  {
    hide Shift, Add;
    if n == 0 {
      ShiftsOfNone(i);
    } else {
      hide V;
      ZOfShifted(x, y, i, n - 1);
      ShiftsAdd(y, i, n - 1);
      ShiftsAdd(y, n - 1, i);
      VLinear(Z(x, y, n - 1), Pick(x[n - 1], V(y, n - 1)), i);
      ShiftsOfNone(i);
    }
  }

  lemma {:induction false} ShiftsOfNone(i: nat)
    ensures V(NONE, i) == NONE
  {
    hide Shift;
    if i > 0 {
      ShiftsOfNone(i - 1);
      ShiftNone();
    }
  }

  lemma ShiftNone()
    ensures Shift(NONE) == NONE
  {
  }

  /** (x^i y) z = x^i (y z). */
  lemma MonomialAssociates(i: nat, y: Poly, z: Poly)
    requires i < 128
    ensures Product(Product(Monomial(i), y), z) == Product(Monomial(i), Product(y, z))
  {
    hide Product, V, Monomial;
    MonomialTimes(i, y);
    MonomialTimes(i, Product(y, z));
    ProductCommutes(V(y, i), z);
    ProductCommutes(y, z);
    ShiftedProduct(z, y, i);
  }

  lemma ShiftedProduct(x: Poly, y: Poly, i: nat)
    ensures Product(x, V(y, i)) == V(Product(x, y), i)
  {
    ZOfShifted(x, y, i, 128);
  }

  lemma {:induction false} LowAssociates(x: Poly, y: Poly, z: Poly, n: nat)
    requires n <= 128
    ensures Product(Product(Low(x, n), y), z) == Product(Low(x, n), Product(y, z))
  {
    hide Product, Add, Low, Monomial;
    if n == 0 {
      LowEnds(x);
      ProductNone(y);
      ProductNone(z);
      ProductNone(Product(y, z));
    } else {
      LowAssociates(x, y, z, n - 1);
      LowStep(x, n - 1);
      var l, t := Low(x, n - 1), Pick(x[n - 1], Monomial(n - 1));
      ProductIsLinear(l, t, y, y);
      ProductIsLinear(Product(l, y), Product(t, y), z, z);
      ProductIsLinear(l, t, Product(y, z), Product(y, z));
      MonomialAssociates(n - 1, y, z);
      ProductNone(y);
      ProductNone(z);
      ProductNone(Product(y, z));
    }
  }

  lemma ProductAssociates(x: Poly, y: Poly, z: Poly)
    ensures Product(Product(x, y), z) == Product(x, Product(y, z))
  {
    hide Product, Low;
    LowAssociates(x, y, z, 128);
    LowEnds(x);
  }

  // ---- Bytes -------------------------------------------------------------------------

  /** The first bit of a block is the top bit of its first byte, the last the low bit of its last byte. */
  lemma BlockOfMonomial()
    ensures Bits([0x80] + Zeros(15)) == Monomial(0) && Bits(Zeros(15) + [0x01]) == Monomial(127)
  {
    forall i | 0 <= i < 128 ensures TestBit(([0x80] + Zeros(15))[i / 8], i % 8) == (i == 0) {
    }
    forall i | 0 <= i < 128 ensures TestBit((Zeros(15) + [0x01])[i / 8], i % 8) == (i == 127) {
    }
  }
}
